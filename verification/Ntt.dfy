/** The number theoretic transform of `mcl/ntt.hpp` for values in any group over a field, in place on an
    array, against the sum it is meant to compute. */
module NttModel {
  import opened Arith
  import opened BitReverse
  import opened Field
  import opened Groups

  // ---------- The specification ----------

  function NatMul(i: nat, j: nat): nat {
    MulMono(0, i, j);
    i * j
  }

  /** The sum over j < n of w^(i * j) x[j]. */
  function Dft<P>(g: Group<P>, x: seq<P>, w: int, i: nat, n: nat): P
    requires n <= |x|
  {
    if n == 0 then g.zero else g.add(Dft(g, x, w, i, n - 1), Mult(g, Pow(w, NatMul(i, n - 1)), x[n - 1]))
  }

  lemma DftUnfold<P>(g: Group<P>, x: seq<P>, w: int, i: nat, n: nat)
    requires n <= |x|
    ensures Dft(g, x, w, i, n) ==
            if n == 0 then g.zero else g.add(Dft(g, x, w, i, n - 1), Mult(g, Pow(w, NatMul(i, n - 1)), x[n - 1]))
  {
    hide Mult, Pow, NatMul;
  }

  /** The sum of the specification is a polynomial value at w^i. */
  lemma {:induction false} DftIsValue<P(!new)>(g: Group<P>, x: seq<P>, w: int, i: nat, n: nat)
    requires Abelian(g) && n <= |x|
    ensures Dft(g, x, w, i, n) == ValueAt(g, x[..n], Pow(w, i))
  {
    hide Abelian, Mult, Pow, NatMul, Dft;
    DftUnfold(g, x, w, i, n);
    if n > 0 {
      hide ValueAt;
      DftIsValue(g, x, w, i, n - 1);
      ValueSnoc(g, x[..n], Pow(w, i));
      assert x[..n][..n - 1] == x[..n - 1];
      PowerOfPower(w, i, n - 1);
    }
  }

  // ---------- Splitting by parity ----------

  function Evens<T>(x: seq<T>): (r: seq<T>)
    ensures |r| == (|x| + 1) / 2
    ensures forall k :: 0 <= k < |r| ==> r[k] == x[2 * k]
  {
    seq((|x| + 1) / 2, k requires 0 <= k < (|x| + 1) / 2 => x[2 * k])
  }

  function Odds<T>(x: seq<T>): (r: seq<T>)
    ensures |r| == |x| / 2
    ensures forall k :: 0 <= k < |r| ==> r[k] == x[2 * k + 1]
  {
    seq(|x| / 2, k requires 0 <= k < |x| / 2 => x[2 * k + 1])
  }

  lemma {:induction false} ValueParity<P(!new)>(g: Group<P>, x: seq<P>, y: int)
    requires Abelian(g)
    ensures ValueAt(g, x, y) == g.add(ValueAt(g, Evens(x), y * y), Mult(g, y, ValueAt(g, Odds(x), y * y)))
    decreases |x|
  {
    hide Abelian, Mult, Evens, Odds;
    if |x| <= 1 {
      ShortParity(g, x, y);
    } else {
      var t := x[2..];
      ValueParity(g, t, y);
      ParityTails(g, x, y);
      ParityStep(g, x[0], x[1], y, ValueAt(g, Evens(t), y * y), ValueAt(g, Odds(t), y * y));
    }
  }

  lemma ParityTails<P>(g: Group<P>, x: seq<P>, y: int)
    requires |x| > 1
    ensures ValueAt(g, Evens(x), y * y) == g.add(x[0], Mult(g, y * y, ValueAt(g, Evens(x[2..]), y * y)))
    ensures ValueAt(g, Odds(x), y * y) == g.add(x[1], Mult(g, y * y, ValueAt(g, Odds(x[2..]), y * y)))
    ensures ValueAt(g, x, y) == g.add(x[0], Mult(g, y, g.add(x[1], Mult(g, y, ValueAt(g, x[2..], y)))))
  {
    hide Mult;
    assert Evens(x)[1..] == Evens(x[2..]) && Odds(x)[1..] == Odds(x[2..]);
    assert x[1..][1..] == x[2..];
  }

  lemma ShortParity<P(!new)>(g: Group<P>, x: seq<P>, y: int)
    requires Abelian(g) && |x| <= 1
    ensures ValueAt(g, x, y) == g.add(ValueAt(g, Evens(x), y * y), Mult(g, y, ValueAt(g, Odds(x), y * y)))
  {
    hide Abelian, Mult;
    assert Odds(x) == [];
    MultiplesOfZero(g, y);
    MultiplesOfZero(g, y * y);
    if x == [] {
      assert Evens(x) == [];
      Unit(g, g.zero);
    } else {
      assert Evens(x)[1..] == [] && x[1..] == [];
      Unit(g, x[0]);
      Unit(g, g.add(x[0], g.zero));
    }
  }

  lemma ParityStep<P(!new)>(g: Group<P>, a: P, b: P, y: int, e: P, o: P)
    requires Abelian(g)
    ensures g.add(a, Mult(g, y, g.add(b, Mult(g, y, g.add(e, Mult(g, y, o))))))
         == g.add(g.add(a, Mult(g, y * y, e)), Mult(g, y, g.add(b, Mult(g, y * y, o))))
  {
    hide Abelian, Mult;
    var yo := Mult(g, y, o);
    MultMul(g, y, y, e);
    MultMul(g, y, y, o);
    MultSum(g, y, e, yo);
    var f, q := Mult(g, y, e), Mult(g, y, yo);
    MultSum(g, y, b, g.add(f, q));
    MultSum(g, y, f, q);
    MultSum(g, y, b, q);
    SwapMiddle(g, a, Mult(g, y, b), Mult(g, y, f), Mult(g, y, q));
  }

  lemma SwapMiddle<P(!new)>(g: Group<P>, a: P, b: P, c: P, d: P)
    requires Abelian(g)
    ensures g.add(a, g.add(b, g.add(c, d))) == g.add(g.add(a, c), g.add(b, d))
  {
    hide Abelian;
    Assoc(g, a, b, g.add(c, d));
    Exchange(g, a, b, c, d);
  }

  /** The bit-reversed order is the bit-reversed even half followed by the odd half. */
  lemma PermutedSplit<T>(x: seq<T>, k: nat)
    requires k > 0 && |x| == Pow2(k)
    ensures |Evens(x)| == |Odds(x)| == Pow2(k - 1)
    ensures Permuted(x, k) == Permuted(Evens(x), k - 1) + Permuted(Odds(x), k - 1)
  {
    hide Pow2, Rev;
    var half := Pow2(k - 1);
    Pow2Twice(k);
    var l, r := Permuted(Evens(x), k - 1), Permuted(Odds(x), k - 1);
    forall i | 0 <= i < |x|
      ensures Permuted(x, k)[i] == (l + r)[i]
    {
      RevBound(i, k);
      RevTop(i, k);
      if i < half {
        QuotientIs(i, 0, i, half);
        RevBound(i, k - 1);
      } else {
        QuotientIs(i, 1, i - half, half);
        RevLow(i - half, k - 1, 1);
        RevBound(i - half, k - 1);
      }
    }
  }

  // ---------- The transform as a recursion over blocks ----------

  /** One column of butterflies: a[t] +- tw[h * t] b[t]. */
  function Combine<P>(g: Group<P>, a: seq<P>, b: seq<P>, tw: nat -> int, h: nat): (r: seq<P>)
    requires |a| == |b|
    ensures |r| == 2 * |a|
  {
    seq(|a|, t requires 0 <= t < |a| => g.add(a[t], Mult(g, tw(NatMul(h, t)), b[t]))) +
    seq(|a|, t requires 0 <= t < |a| => g.add(a[t], g.neg(Mult(g, tw(NatMul(h, t)), b[t]))))
  }

  lemma CombineAt<P>(g: Group<P>, a: seq<P>, b: seq<P>, tw: nat -> int, h: nat, s: nat)
    requires |a| == |b| && s < |a|
    ensures Combine(g, a, b, tw, h)[s] == g.add(a[s], Mult(g, tw(NatMul(h, s)), b[s]))
    ensures Combine(g, a, b, tw, h)[s + |a|] == g.add(a[s], g.neg(Mult(g, tw(NatMul(h, s)), b[s])))
  {
    hide Mult, NatMul;
  }

  /** Transform of an already reordered block of 2^k elements, with twiddle stride h. */
  function Blockwise<P>(g: Group<P>, y: seq<P>, k: nat, tw: nat -> int, h: nat): (r: seq<P>)
    requires |y| == Pow2(k)
    ensures |r| == |y|
    decreases k
  {
    if k == 0 then y
    else
      var half := Pow2(k - 1);
      Combine(g, Blockwise(g, y[..half], k - 1, tw, 2 * h), Blockwise(g, y[half..], k - 1, tw, 2 * h), tw, h)
  }

  /** The twiddles are the powers of w up to w^n, and w^(n/2) is -1. */
  ghost predicate Twiddles(tw: nat -> int, w: int, n: nat, p: nat) {
    && n > 0 && n % 2 == 0
    && Cong(Pow(w, n / 2), -1, p)
    && forall m: nat {:trigger tw(m)} :: m < n ==> Cong(tw(m), Pow(w, m), p)
  }

  /** Entry t of a transformed block of the reordered x is the value of x at w^(h t). */
  lemma {:induction false} BlockIsValue<P(!new)>(g: Group<P>, x: seq<P>, k: nat, tw: nat -> int, w: int, h: nat,
                                                 n: nat, p: nat, t: nat)
    requires Abelian(g) && Exponent(g, p)
    requires |x| == Pow2(k) && t < |x| && NatMul(h, Pow2(k)) == n
    requires k > 0 ==> Twiddles(tw, w, n, p)
    ensures Blockwise(g, Permuted(x, k), k, tw, h)[t] == ValueAt(g, x, Pow(w, NatMul(h, t)))
    decreases k
  {
    hide Abelian, Exponent, Mult, Rev, ValueAt, Pow, Twiddles, Combine, Blockwise, Permuted;
    if k == 0 {
      OneIsPow();
      hide Pow2;
      BlockOne(g, x, tw, w, h);
    } else {
      hide Evens, Odds;
      var half := Pow2(k - 1);
      assert Pow2(k) == 2 * half;
      hide Pow2, NatMul;
      PermutedSplit(x, k);
      var y := Permuted(x, k);
      assert y[..half] == Permuted(Evens(x), k - 1);
      assert y[half..] == Permuted(Odds(x), k - 1);
      TwiceStride(h, half);
      var s := if t < half then t else t - half;
      BlockIsValue(g, Evens(x), k - 1, tw, w, 2 * h, n, p, s);
      BlockIsValue(g, Odds(x), k - 1, tw, w, 2 * h, n, p, s);
      BlockUnfold(g, y, k, tw, h);
      var a, b := Blockwise(g, y[..half], k - 1, tw, 2 * h), Blockwise(g, y[half..], k - 1, tw, 2 * h);
      CombineAt(g, a, b, tw, h, s);
      ButterflyValue(g, x, tw, w, h, half, n, p, s);
    }
  }

  lemma TwiceStride(h: nat, half: nat)
    ensures NatMul(2 * h, half) == NatMul(h, 2 * half)
  {
    MulSwap(h, 2, half);
  }

  lemma BlockOne<P(!new)>(g: Group<P>, x: seq<P>, tw: nat -> int, w: int, h: nat)
    requires Abelian(g) && |x| == 1 == Pow2(0)
    ensures Blockwise(g, Permuted(x, 0), 0, tw, h)[0] == ValueAt(g, x, Pow(w, NatMul(h, 0)))
  {
    hide Abelian, Mult, Pow;
    assert Rev(0, 0) == 0;
    assert x[1..] == [];
    MultiplesOfZero(g, Pow(w, NatMul(h, 0)));
    Unit(g, x[0]);
  }

  lemma BlockUnfold<P>(g: Group<P>, y: seq<P>, k: nat, tw: nat -> int, h: nat)
    requires |y| == Pow2(k) && k > 0 && Pow2(k) == 2 * Pow2(k - 1)
    ensures Blockwise(g, y, k, tw, h) ==
            Combine(g, Blockwise(g, y[..Pow2(k - 1)], k - 1, tw, 2 * h),
                    Blockwise(g, y[Pow2(k - 1)..], k - 1, tw, 2 * h), tw, h)
  {
    hide Combine;
  }

  /** Both results of a butterfly on values at w^(2 h s) are values at w^(h s) and at its negative. */
  lemma ButterflyValue<P(!new)>(g: Group<P>, x: seq<P>, tw: nat -> int, w: int, h: nat, half: nat, n: nat, p: nat, s: nat)
    requires Abelian(g) && Exponent(g, p)
    requires s < half && NatMul(h, 2 * half) == n && Twiddles(tw, w, n, p)
    ensures var a, b := ValueAt(g, Evens(x), Pow(w, NatMul(2 * h, s))), ValueAt(g, Odds(x), Pow(w, NatMul(2 * h, s)));
      && g.add(a, Mult(g, tw(NatMul(h, s)), b)) == ValueAt(g, x, Pow(w, NatMul(h, s)))
      && g.add(a, g.neg(Mult(g, tw(NatMul(h, s)), b))) == ValueAt(g, x, Pow(w, NatMul(h, s + half)))
  {
    hide Abelian, Exponent, Mult, Cong, ValueAt, Pow, Evens, Odds, NatMul;
    var z := Pow(w, NatMul(h, s));
    SquarePow(w, h, s);
    TwiddleIndex(h, s, half, n);
    var b := ValueAt(g, Odds(x), z * z);
    ScalarCong(g, p, b, tw(NatMul(h, s)), z);
    ValueParity(g, x, z);
    ValueParity(g, x, 0 - z);
    MulNeg(z, 0 - z);
    MulNeg(z, z);
    MultNeg(g, z, b);
    OppositePoint(w, h, s, half, n, p);
    ValueCong(g, x, 0 - z, Pow(w, NatMul(h, s + half)), p);
  }

  lemma SquarePow(w: int, h: nat, s: nat)
    ensures Pow(w, NatMul(2 * h, s)) == Pow(w, NatMul(h, s)) * Pow(w, NatMul(h, s))
  {
    hide Pow;
    PowAdd(w, NatMul(h, s), NatMul(h, s));
    MulAssoc(2, h, s);
  }

  lemma TwiddleIndex(h: nat, s: nat, half: nat, n: nat)
    requires s < half && NatMul(h, 2 * half) == n
    ensures n > 0 ==> NatMul(h, s) < n
    ensures NatMul(h, half) == n / 2 && NatMul(h, s + half) == NatMul(h, s) + n / 2
  {
    MulDist(half, half, h);
    MulDist(s, half, h);
    MulMono(s + 1, half, h);
    MulDist(s, 1, h);
  }

  lemma OppositePoint(w: int, h: nat, s: nat, half: nat, n: nat, p: nat)
    requires s < half && NatMul(h, 2 * half) == n && Cong(Pow(w, n / 2), -1, p)
    ensures Cong(0 - Pow(w, NatMul(h, s)), Pow(w, NatMul(h, s + half)), p)
  {
    hide Cong, Pow;
    TwiddleIndex(h, s, half, n);
    PowAdd(w, NatMul(h, s), n / 2);
    CongScale(Pow(w, n / 2), -1, Pow(w, NatMul(h, s)), p);
    CongSym(Pow(w, NatMul(h, s + half)), 0 - Pow(w, NatMul(h, s)), p);
  }

  // ---------- The in-place passes ----------

  /** The table read forwards, or backwards for the inverse transform. */
  function TwiddleOf(ws: seq<int>, inv: bool): nat -> int {
    (m: nat) => if m >= |ws| then 0 else if inv then ws[|ws| - 1 - m] else ws[m]
  }

  /** Block number c of the given length, or nothing if it does not fit. */
  function Block<T>(s: seq<T>, c: nat, len: nat): seq<T> {
    var start := NatMul(c, len);
    if start + len <= |s| then s[start..start + len] else []
  }

  /** Blocks number from..to of xs, of length 2^k each, hold their transforms. */
  ghost predicate Done<P>(g: Group<P>, xs: seq<P>, y: seq<P>, k: nat, from: nat, to: nat, tw: nat -> int, h: nat) {
    && |xs| == |y|
    && forall c: nat {:trigger Block(xs, c, Pow2(k))} :: from <= c < to ==>
         && |Block(y, c, Pow2(k))| == Pow2(k)
         && Block(xs, c, Pow2(k)) == Blockwise(g, Block(y, c, Pow2(k)), k, tw, h)
  }

  lemma DoneStart<P>(g: Group<P>, y: seq<P>, tw: nat -> int, h: nat)
    ensures Done(g, y, y, 0, 0, |y|, tw, h)
  {
    forall c: nat | c < |y|
      ensures |Block(y, c, Pow2(0))| == Pow2(0) && Block(y, c, Pow2(0)) == Blockwise(g, Block(y, c, Pow2(0)), 0, tw, h)
    {
    }
  }

  lemma BlockFits(c: nat, count: nat, len: nat, n: nat)
    requires c < count && NatMul(count, len) == n
    ensures NatMul(c, len) + len <= n
  {
    MulMono(c + 1, count, len);
    MulDist(c, 1, len);
  }

  lemma BlockHalves<T>(s: seq<T>, b: nat, count: nat, len: nat)
    requires b < count && NatMul(count, 2 * len) == |s|
    ensures NatMul(2 * b, len) == NatMul(b, 2 * len) && NatMul(2 * b + 1, len) == NatMul(b, 2 * len) + len
    ensures |Block(s, b, 2 * len)| == 2 * len
    ensures Block(s, b, 2 * len)[..len] == Block(s, 2 * b, len)
    ensures Block(s, b, 2 * len)[len..] == Block(s, 2 * b + 1, len)
  {
    BlockFits(b, count, 2 * len, |s|);
    MulSwap(2, b, len);
    MulDist(2 * b, 1, len);
  }

  /** Blocks outside the written range keep their contents. */
  lemma BlockKept<T>(s: seq<T>, s2: seq<T>, c: nat, len: nat, lo: nat, hi: nat)
    requires |s| == |s2| && lo <= hi <= |s| && s2[..lo] == s[..lo] && s2[hi..] == s[hi..]
    requires NatMul(c, len) + len <= lo || hi <= NatMul(c, len)
    ensures Block(s2, c, len) == Block(s, c, len)
  {
    hide NatMul;
    var st := NatMul(c, len);
    if st + len <= |s| {
      if st + len <= lo {
        SliceBelow(s2, lo, st, len);
        SliceBelow(s, lo, st, len);
      } else {
        SliceAbove(s2, hi, st, len);
        SliceAbove(s, hi, st, len);
      }
    }
  }

  lemma SliceBelow<T>(s: seq<T>, lo: nat, st: nat, len: nat)
    requires st + len <= lo <= |s|
    ensures s[st..st + len] == s[..lo][st..st + len]
  {
  }

  lemma SliceAbove<T>(s: seq<T>, hi: nat, st: nat, len: nat)
    requires hi <= st && st + len <= |s|
    ensures s[st..st + len] == s[hi..][st - hi..st - hi + len]
  {
  }

  lemma BlockOrder(c: nat, b: nat, len: nat)
    ensures c < b ==> NatMul(c, len) + len <= NatMul(b, len)
    ensures b <= c ==> NatMul(b, len) <= NatMul(c, len)
  {
    if c < b {
      MulMono(c + 1, b, len);
      MulDist(c, 1, len);
    } else {
      MulMono(b, c, len);
    }
  }

  /** One column of butterflies on block b turns two level-k blocks into a level-k+1 block. */
  lemma ColumnKeeps<P>(g: Group<P>, xs: seq<P>, xs2: seq<P>, y: seq<P>, k: nat, b: nat, count: nat,
                    tw: nat -> int, h: nat)
    requires b < count && NatMul(count, Pow2(k + 1)) == |y|
    requires Done(g, xs, y, k + 1, 0, b, tw, h)
    requires Done(g, xs, y, k, 2 * b, 2 * count, tw, 2 * h)
    requires |xs2| == |xs| && |Block(xs, 2 * b, Pow2(k))| == |Block(xs, 2 * b + 1, Pow2(k))|
    requires Block(xs2, b, Pow2(k + 1)) ==
             Combine(g, Block(xs, 2 * b, Pow2(k)), Block(xs, 2 * b + 1, Pow2(k)), tw, h)
    requires var lo := NatMul(b, Pow2(k + 1));
             lo + Pow2(k + 1) <= |xs| && xs2[..lo] == xs[..lo] && xs2[lo + Pow2(k + 1)..] == xs[lo + Pow2(k + 1)..]
    ensures Done(g, xs2, y, k + 1, 0, b + 1, tw, h)
    ensures Done(g, xs2, y, k, 2 * (b + 1), 2 * count, tw, 2 * h)
  {
    assert Pow2(k + 1) == 2 * Pow2(k);
    hide Pow2, NatMul, Block, Blockwise, Combine, Done;
    ColumnDone(g, xs, xs2, y, k, k + 1, Pow2(k), b, count, tw, h);
    ColumnPending(g, xs, xs2, y, k, Pow2(k), b, count, tw, 2 * h);
  }

  lemma ColumnDone<P>(g: Group<P>, xs: seq<P>, xs2: seq<P>, y: seq<P>, k: nat, k2: nat, len: nat, b: nat, count: nat,
                   tw: nat -> int, h: nat)
    requires len == Pow2(k) && k2 == k + 1 && Pow2(k2) == 2 * len
    requires b < count && NatMul(count, 2 * len) == |y|
    requires Done(g, xs, y, k2, 0, b, tw, h)
    requires Done(g, xs, y, k, 2 * b, 2 * count, tw, 2 * h)
    requires |xs2| == |xs| && |Block(xs, 2 * b, len)| == |Block(xs, 2 * b + 1, len)|
    requires Block(xs2, b, 2 * len) == Combine(g, Block(xs, 2 * b, len), Block(xs, 2 * b + 1, len), tw, h)
    requires var lo := NatMul(b, 2 * len);
             lo + 2 * len <= |xs| && xs2[..lo] == xs[..lo] && xs2[lo + 2 * len..] == xs[lo + 2 * len..]
    ensures Done(g, xs2, y, k2, 0, b + 1, tw, h)
  {
    hide Pow2, NatMul, Block, Blockwise, Combine;
    var lo := NatMul(b, 2 * len);
    forall c: nat | c < b + 1
      ensures |Block(y, c, Pow2(k2))| == Pow2(k2)
      ensures Block(xs2, c, Pow2(k2)) == Blockwise(g, Block(y, c, Pow2(k2)), k2, tw, h)
    {
      if c < b {
        BlockOrder(c, b, 2 * len);
        BlockKept(xs, xs2, c, 2 * len, lo, lo + 2 * len);
        assert Block(xs, c, Pow2(k2)) == Block(xs2, c, Pow2(k2));
      } else {
        BlockHalves(y, b, count, len);
        assert Block(xs, 2 * b, Pow2(k)) == Blockwise(g, Block(y, 2 * b, len), k, tw, 2 * h);
        assert Block(xs, 2 * b + 1, Pow2(k)) == Blockwise(g, Block(y, 2 * b + 1, len), k, tw, 2 * h);
        BlockUnfold(g, Block(y, b, 2 * len), k2, tw, h);
      }
    }
  }

  lemma ColumnPending<P>(g: Group<P>, xs: seq<P>, xs2: seq<P>, y: seq<P>, k: nat, len: nat, b: nat, count: nat,
                      tw: nat -> int, h: nat)
    requires len == Pow2(k) && b < count && NatMul(count, 2 * len) == |y|
    requires Done(g, xs, y, k, 2 * b, 2 * count, tw, h)
    requires |xs2| == |xs|
    requires var lo := NatMul(b, 2 * len);
             lo + 2 * len <= |xs| && xs2[..lo] == xs[..lo] && xs2[lo + 2 * len..] == xs[lo + 2 * len..]
    ensures Done(g, xs2, y, k, 2 * (b + 1), 2 * count, tw, h)
  {
    hide Pow2, NatMul, Block, Blockwise, Combine;
    var lo := NatMul(b, 2 * len);
    BlockHalves(y, b, count, len);
    forall c: nat | 2 * (b + 1) <= c < 2 * count
      ensures |Block(y, c, Pow2(k))| == Pow2(k)
      ensures Block(xs2, c, Pow2(k)) == Blockwise(g, Block(y, c, Pow2(k)), k, tw, h)
    {
      assert |Block(xs, c, Pow2(k))| == |Block(y, c, Pow2(k))| == Pow2(k);
      assert Block(xs, c, Pow2(k)) == Blockwise(g, Block(y, c, Pow2(k)), k, tw, h);
      BlockOrder(2 * b + 1, c, len);
      BlockKept(xs, xs2, c, len, lo, lo + 2 * len);
    }
  }

  /** What `ntt` and `intt` are specified to leave in the array. */
  function Forward<P>(g: Group<P>, x: seq<P>, w: int): (r: seq<P>)
    ensures |r| == |x|
  {
    seq(|x|, i requires 0 <= i < |x| => Dft(g, x, w, i, |x|))
  }

  function Backward<P>(g: Group<P>, x: seq<P>, w: int, invN: int): (r: seq<P>)
    requires x != []
    ensures |r| == |x|
  {
    var v := Pow(w, |x| - 1);
    seq(|x|, i requires 0 <= i < |x| => Mult(g, invN, Dft(g, x, v, i, |x|)))
  }

  /** The root of order n that `init` derives from the root of order 2^32. */
  function RootFor(root: int, n: nat, p: nat): (w: int)
    requires n > 0 && p > 0
    ensures 0 <= w < p
  {
    Pow(root, 0x1_0000_0000 / n) % p
  }

  /** The lengths that `init` accepts. */
  ghost predicate IsLength(n: nat) {
    exists k: nat :: 0 < k < 64 && n == Pow2(k)
  }

  class Transform {
    const br: Reverser
    const p: nat
    const root: int
    var n: nat
    var bitN: nat
    var invN: int
    var ws: array<int>

    ghost predicate Valid()
      reads this
    {
      p > 2 && br.Valid()
    }

    /** The table holds the powers of w, a root of order n, and invN inverts n. */
    ghost predicate Ready(w: int)
      reads this, ws
    {
      && Valid()
      && 0 < bitN <= 64 && n == Pow2(bitN)
      && ws.Length == n + 1
      && (forall m :: 0 <= m <= n ==> Cong(ws[m], Pow(w, m), p))
      && Cong(Pow(w, n / 2), -1, p)
      && Cong(n * invN, 1, p)
    }

    constructor (p: nat, root: int)
      requires p > 2
      ensures Valid() && this.p == p && this.root == root
      ensures fresh(ws)
    {
      br := new Reverser();
      this.p, this.root := p, root;
      n, bitN, invN := 0, 0, 0;
      ws := new int[0];
    }

    /** Sets ws[i] to u^i for the whole table. */
    method InitPowSeq(u: int)
      requires Valid() && 0 <= u < p
      modifies ws
      ensures forall m :: 0 <= m < ws.Length ==> Cong(ws[m], Pow(u, m), p)
    {
      hide Cong, Pow, FMul;
      if ws.Length == 0 {
        return;
      }
      ws[0] := 1;
      FirstPowers(u, p);
      if ws.Length == 1 {
        return;
      }
      ws[1] := u;
      for i := 2 to ws.Length
        invariant forall m :: 0 <= m < i ==> Cong(ws[m], Pow(u, m), p)
      {
        PowSeqStep(ws[i - 1], u, i, p);
        ws[i] := FMul(ws[i - 1], u, p);
      }
    }

    /** `inv` stands for the field's inverse of n0, `memory` for the outcome of the allocation. A
        refused length leaves everything as it was; a failed allocation has already dropped the table. */
    method Init(n0: nat, inv: int, memory: bool) returns (ok: bool)
      requires Valid() && n0 < Pow2(64)
      modifies this
      ensures ok <==> memory && IsLength(n0)
      ensures Valid()
      ensures ok ==> n == n0 == Pow2(bitN) && 0 < bitN < 64 && invN == inv && fresh(ws)
      ensures ok ==> ws.Length == n + 1
      ensures ok ==> forall m :: 0 <= m <= n ==> Cong(ws[m], Pow(RootFor(root, n, p), m), p)
      ensures !ok ==> n == old(n) && bitN == old(bitN) && invN == old(invN)
      ensures !ok ==> if IsLength(n0) then fresh(ws) && ws.Length == 0 else ws == old(ws)
    {
      hide Cong, Pow, Pow2, RootFor;
      var bits := Bsr(n0);
      if n0 <= 1 || Pow2(bits) != n0 {
        NotPower(n0, bits);
        return false;
      }
      assert bits > 0 by {
        OneIsPow();
      }
      if bits >= 64 {
        Pow2Grows(64, bits);
      }
      if !memory {
        ws := new int[0];
        return false;
      }
      n := n0;
      bitN := bits;
      var w := RootFor(root, n0, p);
      ws := new int[n0 + 1];
      InitPowSeq(w);
      invN := inv;
      return true;
    }

    /** The two half blocks are combined in place. */
    method Butterflies<P>(g: Group<P>, xs: array<P>, i: nat, half: nat, h: nat, inv: bool)
      requires xs as object != ws && i + 2 * half <= xs.Length && ws.Length == n + 1 && NatMul(h, half) <= n
      modifies xs
      ensures xs[..i] == old(xs[..i]) && xs[i + 2 * half..] == old(xs[i + 2 * half..])
      ensures xs[i..i + 2 * half] ==
              Combine(g, old(xs[i..i + half]), old(xs[i + half..i + 2 * half]), TwiddleOf(ws[..], inv), h)
    {
      hide Mult, NatMul, Combine, Halfway;
      ghost var tw := TwiddleOf(ws[..], inv);
      ghost var x0 := xs[..];
      var idx := 0;
      StrideStart(h);
      HalfwayStart(g, x0, i, half, tw, h);
      for j := i to i + half
        invariant idx == NatMul(h, j - i)
        invariant Halfway(g, x0, xs[..], i, half, j - i, tw, h)
      {
        StrideStep(h, j - i, half);
        ghost var x1 := xs[..];
        var tmp := Mult(g, ws[if inv then n - idx else idx], xs[j + half]);
        xs[j + half] := g.add(xs[j], g.neg(tmp));
        xs[j] := g.add(xs[j], tmp);
        HalfwayStep(g, x0, x1, xs[..], i, half, j - i, tw, h);
        idx := idx + h;
      }
      HalfwayDone(g, x0, xs[..], i, half, tw, h);
    }

    /** All passes: the array ends as the block transform of its bit-reversed contents. */
    method Passes<P>(g: Group<P>, xs: array<P>, inv: bool)
      requires Valid() && xs as object != ws
      requires 0 < bitN <= 64 && n == Pow2(bitN) == xs.Length && ws.Length == n + 1
      modifies xs
      ensures xs[..] == Blockwise(g, Permuted(old(xs[..]), bitN), bitN, TwiddleOf(ws[..], inv), 1)
    {
      hide Pow2, NatMul, Block, Blockwise, Combine, Permuted, Rev, Done;
      br.RevArray(xs, bitN);
      ghost var y := xs[..];
      ghost var tw := TwiddleOf(ws[..], inv);
      ghost var k := 0;
      var h := n;
      var l := 1;
      PassStart(g, y, bitN, tw);
      while l < n
        invariant 0 <= k <= bitN && l == Pow2(k) && h == Pow2(bitN - k)
        invariant Done(g, xs[..], y, k, 0, Pow2(bitN - k), tw, h)
        decreases n - l
      {
        PassSizes(k, bitN);
        h := h / 2;
        Pass(g, xs, l, h, inv, y, k);
        l := 2 * l;
        k := k + 1;
      }
      PassDone(g, xs[..], y, k, bitN, tw, h);
    }

    /** One pass joins neighbouring blocks of length l into h blocks of twice that length. */
    method Pass<P>(g: Group<P>, xs: array<P>, l: nat, h: nat, inv: bool, ghost y: seq<P>, ghost k: nat)
      requires xs as object != ws && n == xs.Length && ws.Length == n + 1
      requires l == Pow2(k) && Pow2(k + 1) == 2 * l && NatMul(h, 2 * l) == n
      requires Done(g, xs[..], y, k, 0, 2 * h, TwiddleOf(ws[..], inv), 2 * h)
      modifies xs
      ensures Done(g, xs[..], y, k + 1, 0, h, TwiddleOf(ws[..], inv), h)
    {
      hide Pow2, NatMul, Block, Blockwise, Combine, Done;
      ghost var tw := TwiddleOf(ws[..], inv);
      var i := 0;
      ghost var b := 0;
      BlockZero(2 * l);
      DoneSizes(g, xs[..], y, k, 0, 2 * h, tw, 2 * h);
      DoneNone(g, xs[..], y, k + 1, tw, h);
      while i < n
        invariant 0 <= b <= h && i == NatMul(b, 2 * l)
        invariant Done(g, xs[..], y, k + 1, 0, b, tw, h)
        invariant Done(g, xs[..], y, k, 2 * b, 2 * h, tw, 2 * h)
        decreases h - b
      {
        PassBounds(b, h, l, n);
        ghost var x0 := xs[..];
        Butterflies(g, xs, i, l, h, inv);
        ColumnBlocks(g, x0, xs[..], b, h, l, tw);
        DoneSizes(g, x0, y, k, 2 * b, 2 * h, tw, 2 * h);
        ColumnKeeps(g, x0, xs[..], y, k, b, h, tw, h);
        b := b + 1;
        i := i + 2 * l;
      }
      PassEnd(b, h, l, n);
    }

    /** xs[i] becomes the sum over j of w^(i * j) xs[j]. */
    method Ntt<P(!new)>(g: Group<P>, xs: array<P>, ghost w: int)
      requires Abelian(g) && Exponent(g, p) && Ready(w) && xs as object != ws && xs.Length == n
      modifies xs
      ensures xs[..] == Forward(g, old(xs[..]), w)
    {
      hide Abelian, Exponent, Blockwise, Permuted, Forward, Cong, Pow, Pow2, TwiddleOf;
      ghost var x := xs[..];
      Passes(g, xs, false);
      ForwardTwiddles(ws[..], w, n, bitN, p);
      PassesAreDft(g, x, bitN, TwiddleOf(ws[..], false), w, n, p);
      ForwardIs(g, x, xs[..], w);
    }

    method Intt<P(!new)>(g: Group<P>, xs: array<P>, ghost w: int)
      requires Abelian(g) && Exponent(g, p) && Ready(w) && xs as object != ws && xs.Length == n
      modifies xs
      ensures xs[..] == Backward(g, old(xs[..]), w, invN)
    {
      hide Abelian, Exponent, Blockwise, Permuted, Backward, Cong, Pow, Pow2, TwiddleOf, Dft, Mult;
      ghost var x := xs[..];
      Passes(g, xs, true);
      BackwardTwiddles(ws[..], w, n, bitN, p);
      ghost var v := Pow(w, n - 1);
      PassesAreDft(g, x, bitN, TwiddleOf(ws[..], true), v, n, p);
      ghost var y := xs[..];
      for i := 0 to n
        invariant forall k :: i <= k < n ==> xs[k] == y[k]
        invariant forall k :: 0 <= k < i ==> xs[k] == Mult(g, invN, y[k])
      {
        xs[i] := Mult(g, invN, xs[i]);
      }
      BackwardIs(g, x, y, xs[..], w, invN);
    }
  }

  /** The first t butterflies of a column are done, the rest of the array is untouched. */
  ghost predicate Halfway<P>(g: Group<P>, x: seq<P>, y: seq<P>, i: nat, half: nat, t: nat, tw: nat -> int, h: nat)
    requires i + 2 * half <= |x|
  {
    && |y| == |x| && t <= half
    && (forall k {:trigger y[k]} :: 0 <= k < |x| && !(i <= k < i + t) && !(i + half <= k < i + half + t) ==> y[k] == x[k])
    && (forall k {:trigger y[k]} :: i <= k < i + t ==>
          y[k] == g.add(x[k], Mult(g, tw(NatMul(h, k - i)), x[k + half])))
    && (forall k {:trigger y[k]} :: i + half <= k < i + half + t ==>
          y[k] == g.add(x[k - half], g.neg(Mult(g, tw(NatMul(h, k - half - i)), x[k]))))
  }

  lemma HalfwayStart<P>(g: Group<P>, x: seq<P>, i: nat, half: nat, tw: nat -> int, h: nat)
    requires i + 2 * half <= |x|
    ensures Halfway(g, x, x, i, half, 0, tw, h)
  {
    hide Mult, NatMul;
  }

  lemma HalfwayStep<P>(g: Group<P>, x: seq<P>, y: seq<P>, z: seq<P>, i: nat, half: nat, t: nat, tw: nat -> int, h: nat)
    requires i + 2 * half <= |x| && Halfway(g, x, y, i, half, t, tw, h) && t < half
    requires var tmp := Mult(g, tw(NatMul(h, t)), y[i + t + half]);
             z == y[i + t + half := g.add(y[i + t], g.neg(tmp))][i + t := g.add(y[i + t], tmp)]
    ensures Halfway(g, x, z, i, half, t + 1, tw, h)
  {
    hide Mult, NatMul;
    assert y[i + t] == x[i + t] && y[i + t + half] == x[i + t + half];
  }

  lemma HalfwayDone<P>(g: Group<P>, x: seq<P>, y: seq<P>, i: nat, half: nat, tw: nat -> int, h: nat)
    requires i + 2 * half <= |x| && Halfway(g, x, y, i, half, half, tw, h)
    ensures y[..i] == x[..i] && y[i + 2 * half..] == x[i + 2 * half..]
    ensures y[i..i + 2 * half] == Combine(g, x[i..i + half], x[i + half..i + 2 * half], tw, h)
  {
    hide Mult, NatMul, Combine;
    var a, b := x[i..i + half], x[i + half..i + 2 * half];
    var r, z := Combine(g, a, b, tw, h), y[i..i + 2 * half];
    forall k | 0 <= k < 2 * half
      ensures z[k] == r[k]
    {
      var t := if k < half then k else k - half;
      CombineAt(g, a, b, tw, h, t);
      assert z[k] == y[i + k] && a[t] == x[i + t] && b[t] == x[i + half + t];
    }
  }

  lemma PowSeqStep(a: int, u: int, i: nat, p: nat)
    requires p > 0 && i > 0 && Cong(a, Pow(u, i - 1), p)
    ensures Cong(FMul(a, u, p), Pow(u, i), p)
  {
    hide Cong, Pow, FMul;
    CongRefl(u, p);
    FieldOps(a, Pow(u, i - 1), u, u, p);
    NextPower(u, i);
  }

  lemma FirstPowers(u: int, p: nat)
    ensures Cong(1, Pow(u, 0), p) && Cong(u, Pow(u, 1), p)
  {
    CongRefl(1, p);
    CongRefl(u, p);
  }

  lemma NextPower(u: int, i: nat)
    requires i > 0
    ensures Pow(u, i) == u * Pow(u, i - 1)
  {
  }

  method Bsr(n: nat) returns (k: nat)
    ensures n > 0 ==> Pow2(k) <= n < Pow2(k + 1)
  {
    k := 0;
    var m := n;
    ghost var low := 0;
    while m > 1
      invariant 0 <= low < Pow2(k) && n == m * Pow2(k) + low
      invariant n > 0 ==> m > 0
    {
      MulSwap(2, m / 2, Pow2(k));
      MulDist(2 * (m / 2), m % 2, Pow2(k));
      MulSwap(m / 2, 2, Pow2(k));
      low := low + (m % 2) * Pow2(k);
      m := m / 2;
      k := k + 1;
    }
  }

  lemma NotPower(n: nat, bits: nat)
    requires n > 0 ==> Pow2(bits) <= n < Pow2(bits + 1)
    requires n <= 1 || Pow2(bits) != n
    ensures !IsLength(n)
  {
    hide Pow2;
    forall k: nat | 0 < k
      ensures n != Pow2(k)
    {
      if n <= 1 {
        Pow2Grows(1, k);
        assert Pow2(1) == 2 by {
          RevBit(0);
        }
      } else if k <= bits {
        Pow2Grows(k, bits);
      } else {
        Pow2Grows(bits + 1, k);
      }
    }
  }

  lemma StrideStart(h: nat)
    ensures NatMul(h, 0) == 0
  {
  }

  lemma StrideStep(h: nat, s: nat, half: nat)
    requires s < half
    ensures NatMul(h, s + 1) == NatMul(h, s) + h && NatMul(h, s) <= NatMul(h, half)
  {
    MulDist(s, 1, h);
    MulMono(s, half, h);
  }

  lemma BlockZero(len: nat)
    ensures NatMul(0, len) == 0
  {
  }

  lemma DoneSizes<P>(g: Group<P>, xs: seq<P>, y: seq<P>, k: nat, from: nat, to: nat, tw: nat -> int, h: nat)
    requires Done(g, xs, y, k, from, to, tw, h)
    ensures |xs| == |y|
  {
  }

  lemma DoneNone<P>(g: Group<P>, xs: seq<P>, y: seq<P>, k: nat, tw: nat -> int, h: nat)
    requires |xs| == |y|
    ensures Done(g, xs, y, k, 0, 0, tw, h)
  {
  }

  lemma PassStart<P>(g: Group<P>, y: seq<P>, bitN: nat, tw: nat -> int)
    requires |y| == Pow2(bitN)
    ensures Pow2(0) == 1 && Done(g, y, y, 0, 0, Pow2(bitN), tw, Pow2(bitN))
  {
    hide Done, Blockwise;
    DoneStart(g, y, tw, Pow2(bitN));
  }

  lemma PassSizes(k: nat, bitN: nat)
    requires k <= bitN && Pow2(k) < Pow2(bitN)
    ensures k < bitN && Pow2(bitN - k) == 2 * Pow2(bitN - k - 1) && Pow2(k + 1) == 2 * Pow2(k)
    ensures NatMul(Pow2(bitN - k - 1), Pow2(k + 1)) == Pow2(bitN)
  {
    Pow2Add(bitN - k - 1, k + 1);
  }

  lemma PassBounds(b: nat, h: nat, l: nat, n: nat)
    requires b <= h && NatMul(h, 2 * l) == n && NatMul(b, 2 * l) < n
    ensures b < h && NatMul(b, 2 * l) + 2 * l <= n && NatMul(h, l) <= n
    ensures NatMul(b + 1, 2 * l) == NatMul(b, 2 * l) + 2 * l
  {
    if b < h {
      BlockFits(b, h, 2 * l, n);
    }
    MulDist(b, 1, 2 * l);
    MulMono(l, 2 * l, h);
  }

  lemma PassEnd(b: nat, h: nat, l: nat, n: nat)
    requires b <= h && NatMul(h, 2 * l) == n && NatMul(b, 2 * l) >= n && l > 0
    ensures b == h
  {
    if b < h {
      BlockFits(b, h, 2 * l, n);
    }
  }

  lemma ColumnBlocks<P>(g: Group<P>, xs: seq<P>, xs2: seq<P>, b: nat, h: nat, l: nat, tw: nat -> int)
    requires b < h && NatMul(h, 2 * l) == |xs| == |xs2|
    requires var i := NatMul(b, 2 * l);
             i + 2 * l <= |xs| && xs2[i..i + 2 * l] == Combine(g, xs[i..i + l], xs[i + l..i + 2 * l], tw, h)
    ensures |Block(xs, 2 * b, l)| == |Block(xs, 2 * b + 1, l)|
    ensures Block(xs2, b, 2 * l) == Combine(g, Block(xs, 2 * b, l), Block(xs, 2 * b + 1, l), tw, h)
  {
    hide Combine, NatMul;
    BlockHalves(xs, b, h, l);
    var i := NatMul(b, 2 * l);
    assert xs[i..i + 2 * l][..l] == xs[i..i + l];
    assert xs[i..i + 2 * l][l..] == xs[i + l..i + 2 * l];
  }

  lemma PassDone<P>(g: Group<P>, xs: seq<P>, y: seq<P>, k: nat, bitN: nat, tw: nat -> int, h: nat)
    requires k <= bitN && Pow2(k) >= Pow2(bitN) && h == Pow2(bitN - k) && |y| == Pow2(bitN)
    requires Done(g, xs, y, k, 0, Pow2(bitN - k), tw, h)
    ensures xs == Blockwise(g, y, bitN, tw, 1)
  {
    if k < bitN {
      Pow2Grows(k + 1, bitN);
    }
    assert Pow2(0) == 1;
    hide Pow2, Blockwise;
    assert Block(xs, 0, Pow2(k)) == xs;
    assert Block(y, 0, Pow2(k)) == y;
  }

  lemma ForwardIs<P>(g: Group<P>, x: seq<P>, y: seq<P>, w: int)
    requires |x| == |y| && forall i :: 0 <= i < |x| ==> y[i] == Dft(g, x, w, i, |x|)
    ensures y == Forward(g, x, w)
  {
    hide Dft;
  }

  lemma BackwardIs<P>(g: Group<P>, x: seq<P>, y: seq<P>, z: seq<P>, w: int, invN: int)
    requires |x| == |y| == |z| > 0
    requires forall i :: 0 <= i < |x| ==> y[i] == Dft(g, x, Pow(w, |x| - 1), i, |x|)
    requires forall i :: 0 <= i < |x| ==> z[i] == Mult(g, invN, y[i])
    ensures z == Backward(g, x, w, invN)
  {
    hide Dft, Pow, Mult;
  }

  lemma TwiddleAt(ws: seq<int>, inv: bool, m: nat)
    requires m < |ws|
    ensures TwiddleOf(ws, inv)(m) == if inv then ws[|ws| - 1 - m] else ws[m]
  {
  }

  lemma EvenLength(bitN: nat)
    requires bitN > 0
    ensures Pow2(bitN) > 0 && Pow2(bitN) % 2 == 0
  {
    assert Pow2(bitN) == 2 * Pow2(bitN - 1);
  }

  lemma ForwardTwiddles(ws: seq<int>, w: int, n: nat, bitN: nat, p: nat)
    requires |ws| == n + 1 && forall m :: 0 <= m <= n ==> Cong(ws[m], Pow(w, m), p)
    requires bitN > 0 && n == Pow2(bitN) && Cong(Pow(w, n / 2), -1, p)
    ensures Twiddles(TwiddleOf(ws, false), w, n, p)
  {
    hide Cong, Pow, Pow2, TwiddleOf;
    EvenLength(bitN);
    var tw := TwiddleOf(ws, false);
    forall m: nat | m < n
      ensures Cong(tw(m), Pow(w, m), p)
    {
      TwiddleAt(ws, false, m);
    }
  }

  lemma FullTurn(w: int, n: nat, p: nat)
    requires n % 2 == 0 && Cong(Pow(w, n / 2), -1, p)
    ensures Cong(Pow(w, n), 1, p)
  {
    hide Cong, Pow;
    PowAdd(w, n / 2, n / 2);
    CongMul(Pow(w, n / 2), -1, Pow(w, n / 2), -1, p);
  }

  /** The powers of w^(n-1) run through the powers of w backwards. */
  lemma InversePower(w: int, n: nat, m: nat, p: nat)
    requires 0 < n && m <= n && Cong(Pow(w, n), 1, p)
    ensures Cong(Pow(w, n - m), Pow(Pow(w, n - 1), m), p)
  {
    hide Cong, Pow, NatMul;
    if m == 0 {
      ZeroPower(Pow(w, n - 1));
    } else {
      InverseIndex(n, m);
      PowerOfPower(w, n - 1, m);
      PowerOfPower(w, n, m - 1);
      PowAdd(w, NatMul(n, m - 1), n - m);
      FullTurns(Pow(w, n), Pow(w, n - m), m - 1, p);
    }
  }

  lemma FullTurns(t: int, z: int, k: nat, p: nat)
    requires Cong(t, 1, p)
    ensures Cong(z, Pow(t, k) * z, p)
  {
    hide Cong, Pow;
    CongPow(t, 1, k, p);
    PowOne(k);
    CongScale(Pow(t, k), 1, z, p);
    CongSym(z * Pow(t, k), z, p);
  }

  lemma InverseIndex(n: nat, m: nat)
    requires 0 < m <= n
    ensures NatMul(n - 1, m) == NatMul(n, m - 1) + (n - m)
  {
    MulDist(n, 1, m);
    MulDist(m, 1, n);
  }

  lemma PowerOfPower(v: int, i: nat, k: nat)
    ensures Pow(v, NatMul(i, k)) == Pow(Pow(v, i), k)
  {
    hide Pow;
    PowMul(v, i, k);
  }

  lemma ZeroPower(z: int)
    ensures Pow(z, 0) == 1
  {
  }

  lemma {:induction false} PowOne(e: nat)
    ensures Pow(1, e) == 1
  {
    if e > 0 {
      PowOne(e - 1);
    }
  }

  lemma BackwardTwiddles(ws: seq<int>, w: int, n: nat, bitN: nat, p: nat)
    requires |ws| == n + 1 && forall m :: 0 <= m <= n ==> Cong(ws[m], Pow(w, m), p)
    requires bitN > 0 && n == Pow2(bitN) && Cong(Pow(w, n / 2), -1, p)
    ensures Twiddles(TwiddleOf(ws, true), Pow(w, n - 1), n, p)
  {
    hide Cong, Pow, Pow2, TwiddleOf;
    EvenLength(bitN);
    var v, tw := Pow(w, n - 1), TwiddleOf(ws, true);
    FullTurn(w, n, p);
    forall m: nat | m < n
      ensures Cong(tw(m), Pow(v, m), p)
    {
      TwiddleAt(ws, true, m);
      InversePower(w, n, m, p);
      CongTrans(tw(m), Pow(w, n - m), Pow(v, m), p);
    }
    HalfTurn(w, n, p);
  }

  lemma HalfTurn(w: int, n: nat, p: nat)
    requires 0 < n && n % 2 == 0 && Cong(Pow(w, n / 2), -1, p) && Cong(Pow(w, n), 1, p)
    ensures Cong(Pow(Pow(w, n - 1), n / 2), -1, p)
  {
    hide Cong, Pow;
    InversePower(w, n, n / 2, p);
    assert n - n / 2 == n / 2;
    CongSym(Pow(w, n / 2), Pow(Pow(w, n - 1), n / 2), p);
    CongTrans(Pow(Pow(w, n - 1), n / 2), Pow(w, n / 2), -1, p);
  }

  /** All passes together compute the sum of the specification. */
  lemma PassesAreDft<P(!new)>(g: Group<P>, x: seq<P>, k: nat, tw: nat -> int, w: int, n: nat, p: nat)
    requires Abelian(g) && Exponent(g, p)
    requires k > 0 && |x| == Pow2(k) == n && Twiddles(tw, w, n, p)
    ensures forall t :: 0 <= t < n ==> Blockwise(g, Permuted(x, k), k, tw, 1)[t] == Dft(g, x, w, t, n)
  {
    hide Abelian, Exponent, Pow, Pow2, Blockwise, Permuted, Twiddles, Dft, ValueAt;
    forall t | 0 <= t < n
      ensures Blockwise(g, Permuted(x, k), k, tw, 1)[t] == Dft(g, x, w, t, n)
    {
      BlockIsValue(g, x, k, tw, w, 1, n, p, t);
      DftIsValue(g, x, w, t, n);
      assert x[..n] == x;
    }
  }

  // ---------- The inverse undoes the transform ----------

  /** 1 + z + ... + z^(n-1) */
  function Geo(n: nat, z: int): int {
    if n == 0 then 0 else Geo(n - 1, z) + Pow(z, n - 1)
  }

  lemma {:induction false} GeoAdd(a: nat, b: nat, z: int)
    ensures Geo(a + b, z) == Geo(a, z) + Pow(z, a) * Geo(b, z)
  {
    if b > 0 {
      GeoAdd(a, b - 1, z);
      PowAdd(z, a, b - 1);
      MulDist(Geo(b - 1, z), Pow(z, b - 1), Pow(z, a));
    }
  }

  lemma {:induction false} MinusOnePower(d: nat)
    ensures Pow(-1, d) == if d % 2 == 0 then 1 else -1
  {
    if d > 0 {
      MinusOnePower(d - 1);
    }
  }

  /** Orthogonality: over a full period the powers of w^d cancel unless w^d is one. Only
      w^(n/2) = -1 is used, no division. */
  lemma {:induction false} GeoRoot(k: nat, w: int, d: nat, p: nat)
    requires k > 0 ==> Cong(Pow(w, Pow2(k - 1)), -1, p)
    ensures Cong(Geo(Pow2(k), Pow(w, d)), if d % Pow2(k) == 0 then Pow2(k) else 0, p)
  {
    if k == 0 {
      GeoRootBase(Pow(w, d), d, p);
    } else {
      var m := Pow2(k - 1);
      assert Pow2(k) == 2 * m;
      var z := Pow(w, d);
      assert k > 1 ==> m == 2 * Pow2(k - 2);
      hide Pow2, Pow, Geo, Cong;
      GeoHalves(w, d, m, p);
      HalfMultiple(d, m);
      if d % 2 == 0 {
        SquareRoot(w, d, m, k);
        GeoRoot(k - 1, w * w, d / 2, p);
        var c := if (d / 2) % m == 0 then m else 0;
        CongScale(Geo(m, z), c, 2, p);
        CongTrans(Geo(2 * m, z), 2 * Geo(m, z), 2 * c, p);
      }
    }
  }

  lemma GeoHalves(w: int, d: nat, m: nat, p: nat)
    requires Cong(Pow(w, m), -1, p)
    ensures Cong(Geo(2 * m, Pow(w, d)), if d % 2 == 0 then 2 * Geo(m, Pow(w, d)) else 0, p)
  {
    hide Pow, Geo, Cong;
    var z := Pow(w, d);
    var s := if d % 2 == 0 then 1 else -1;
    GeoAdd(m, m, z);
    PowMul(w, d, m);
    PowMul(w, m, d);
    CongPow(Pow(w, m), -1, d, p);
    MinusOnePower(d);
    assert d * m == m * d;
    SecondHalf(Geo(m, z), Pow(z, m), s, p);
    assert Geo(2 * m, z) == Geo(m, z) + Pow(z, m) * Geo(m, z);
  }

  lemma SecondHalf(a: int, q: int, s: int, p: nat)
    requires Cong(q, s, p) && (s == 1 || s == -1)
    ensures Cong(a + q * a, if s == 1 then 2 * a else 0, p)
  {
    hide Cong;
    CongScale(q, s, a, p);
    CongRefl(a, p);
    CongAdd(a, a, a * q, a * s, p);
  }

  lemma GeoRootBase(z: int, d: nat, p: nat)
    ensures Pow2(0) == 1 && Cong(Geo(Pow2(0), z), if d % Pow2(0) == 0 then Pow2(0) else 0, p)
  {
    assert Geo(1, z) == Geo(0, z) + Pow(z, 0);
    CongRefl(1, p);
  }

  lemma SquareRoot(w: int, d: nat, m: nat, k: nat)
    requires d % 2 == 0 && k > 0 && m == Pow2(k - 1)
    ensures Pow(w, d) == Pow(w * w, d / 2)
    ensures k > 1 ==> Pow(w * w, Pow2(k - 2)) == Pow(w, m)
  {
    assert k > 1 ==> m == 2 * Pow2(k - 2);
    assert Pow(w, 2) == w * Pow(w, 1) && Pow(w, 1) == w * Pow(w, 0);
    hide Pow, Pow2;
    PowMul(w, 2, d / 2);
    if k > 1 {
      PowMul(w, 2, Pow2(k - 2));
    }
  }

  lemma HalfMultiple(d: nat, m: nat)
    requires m > 0
    ensures d % (2 * m) == 0 <==> d % 2 == 0 && (d / 2) % m == 0
  {
    var q, r := d / (2 * m), d % (2 * m);
    MulSwap(q, 2, m);
    assert d == 2 * (q * m) + r;
    QuotientIs(d / 2, q, r / 2, m);
  }

  /** The sum over k < n of u^k x(w^k). */
  function Weighted<P>(g: Group<P>, x: seq<P>, w: int, n: nat, u: int): P {
    if n == 0 then g.zero
    else g.add(Weighted(g, x, w, n - 1, u), Mult(g, Pow(u, n - 1), ValueAt(g, x, Pow(w, n - 1))))
  }

  /** The same sum with the order of summation exchanged. */
  function Spread<P>(g: Group<P>, x: seq<P>, w: int, n: nat, u: int): P {
    if x == [] then g.zero else g.add(Mult(g, Geo(n, u), x[0]), Spread(g, x[1..], w, n, u * w))
  }

  lemma WeightedUnfold<P>(g: Group<P>, x: seq<P>, w: int, n: nat, u: int)
    ensures Weighted(g, x, w, n, u) ==
            if n == 0 then g.zero
            else g.add(Weighted(g, x, w, n - 1, u), Mult(g, Pow(u, n - 1), ValueAt(g, x, Pow(w, n - 1))))
  {
    hide Mult, Pow, ValueAt;
  }

  lemma {:induction false} WeightedPeel<P(!new)>(g: Group<P>, x: seq<P>, w: int, n: nat, u: int)
    requires Abelian(g) && x != []
    ensures Weighted(g, x, w, n, u) == g.add(Mult(g, Geo(n, u), x[0]), Weighted(g, x[1..], w, n, u * w))
  {
    hide Abelian, Mult, Pow, Weighted, Geo, ValueAt;
    WeightedUnfold(g, x, w, n, u);
    WeightedUnfold(g, x[1..], w, n, u * w);
    GeoUnfold(n, u);
    if n == 0 {
      TimesZero(g, x[0]);
      Unit(g, g.zero);
    } else {
      WeightedPeel(g, x, w, n - 1, u);
      PowProduct(u, w, n - 1);
      PeelTerm(g, Pow(u, n - 1), x, Pow(w, n - 1));
      var c := Pow(u, n - 1);
      MultAdd(g, Geo(n - 1, u), c, x[0]);
      Exchange(g, Mult(g, Geo(n - 1, u), x[0]), Weighted(g, x[1..], w, n - 1, u * w),
               Mult(g, c, x[0]), Mult(g, c * Pow(w, n - 1), ValueAt(g, x[1..], Pow(w, n - 1))));
    }
  }

  lemma GeoUnfold(n: nat, z: int)
    ensures Geo(n, z) == if n == 0 then 0 else Geo(n - 1, z) + Pow(z, n - 1)
  {
  }

  lemma {:induction false} WeightedIsSpread<P(!new)>(g: Group<P>, x: seq<P>, w: int, n: nat, u: int)
    requires Abelian(g)
    ensures Weighted(g, x, w, n, u) == Spread(g, x, w, n, u)
  {
    hide Abelian, Mult;
    if x == [] {
      WeightedEmpty(g, w, n, u);
    } else {
      WeightedPeel(g, x, w, n, u);
      WeightedIsSpread(g, x[1..], w, n, u * w);
    }
  }

  lemma {:induction false} WeightedEmpty<P(!new)>(g: Group<P>, w: int, n: nat, u: int)
    requires Abelian(g)
    ensures Weighted(g, [], w, n, u) == g.zero
  {
    hide Abelian, Mult;
    if n > 0 {
      WeightedEmpty(g, w, n - 1, u);
      MultiplesOfZero(g, Pow(u, n - 1));
      Unit(g, g.zero);
    }
  }

  /** Index arithmetic: (n-1) * i + j is a multiple of n exactly when i = j. */
  lemma OnlyDiagonal(n: nat, i: nat, j: nat)
    requires i < n && j < n
    ensures (NatMul(n - 1, i) + j) % n == 0 <==> i == j
  {
    MulDist(n, 1, i);
    var e := NatMul(n - 1, i) + j;
    assert e == i * n + (j - i);
    if j >= i {
      QuotientIs(e, i, j - i, n);
    } else {
      MulDist(i, 1, n);
      QuotientIs(e, i - 1, n + j - i, n);
    }
  }

  /** Against the inverse powers only entry i of x survives, n times. */
  lemma {:induction false} SpreadPicks<P(!new)>(g: Group<P>, x: seq<P>, k: nat, w: int, n: nat, i: nat, j: nat, p: nat)
    requires Abelian(g) && Exponent(g, p)
    requires k > 0 && |x| == n == Pow2(k) && i < n && j <= n && Cong(Pow(w, n / 2), -1, p)
    ensures Spread(g, x[j..], w, n, Pow(w, NatMul(n - 1, i) + j)) == if j <= i then Mult(g, n, x[i]) else g.zero
    decreases n - j
  {
    hide Abelian, Exponent, Mult, Geo, NatMul, Pow, Cong, Pow2;
    if j < n {
      hide Spread;
      var e := NatMul(n - 1, i) + j;
      SpreadStep(g, x, w, n, e, j);
      SpreadPicks(g, x, k, w, n, i, j + 1, p);
      OneGeo(g, x[j], k, w, n, i, j, p);
      Picked(g, Mult(g, Geo(n, Pow(w, e)), x[j]), Spread(g, x[j + 1..], w, n, Pow(w, e + 1)), Mult(g, n, x[i]), i, j);
    }
  }

  lemma Picked<P(!new)>(g: Group<P>, a: P, b: P, m: P, i: nat, j: nat)
    requires Abelian(g) && a == (if i == j then m else g.zero) && b == (if j + 1 <= i then m else g.zero)
    ensures g.add(a, b) == if j <= i then m else g.zero
  {
    hide Abelian;
    Unit(g, m);
    Unit(g, g.zero);
  }

  lemma SpreadStep<P>(g: Group<P>, x: seq<P>, w: int, n: nat, e: nat, j: nat)
    requires j < |x|
    ensures Spread(g, x[j..], w, n, Pow(w, e)) ==
            g.add(Mult(g, Geo(n, Pow(w, e)), x[j]), Spread(g, x[j + 1..], w, n, Pow(w, e + 1)))
  {
    hide Mult, Geo;
    assert x[j..][1..] == x[j + 1..];
    assert Pow(w, e + 1) == w * Pow(w, e);
  }

  /** The geometric sum at place j is the length on the diagonal and nothing elsewhere. */
  lemma OneGeo<P(!new)>(g: Group<P>, a: P, k: nat, w: int, n: nat, i: nat, j: nat, p: nat)
    requires Abelian(g) && Exponent(g, p)
    requires k > 0 && n == Pow2(k) && i < n && j < n && Cong(Pow(w, n / 2), -1, p)
    ensures Mult(g, Geo(n, Pow(w, NatMul(n - 1, i) + j)), a) == if i == j then Mult(g, n, a) else g.zero
  {
    hide Abelian, Exponent, Mult, Geo, NatMul, Pow, Cong, Pow2;
    var e := NatMul(n - 1, i) + j;
    Pow2Twice(k);
    GeoRoot(k, w, e, p);
    OnlyDiagonal(n, i, j);
    ScalarCong(g, p, a, Geo(n, Pow(w, e)), if i == j then n else 0);
    TimesZero(g, a);
  }

  lemma ForwardAt<P(!new)>(g: Group<P>, x: seq<P>, w: int, k: nat)
    requires Abelian(g) && k < |x|
    ensures Forward(g, x, w)[k] == ValueAt(g, x, Pow(w, k))
  {
    hide Abelian, Mult, Pow, Dft, ValueAt;
    DftIsValue(g, x, w, k, |x|);
    assert x[..|x|] == x;
  }

  lemma {:induction false} DftOfForward<P(!new)>(g: Group<P>, x: seq<P>, w: int, v: int, i: nat, n: nat)
    requires Abelian(g) && n <= |x|
    ensures Dft(g, Forward(g, x, w), v, i, n) == Weighted(g, x, w, n, Pow(v, i))
  {
    hide Abelian, Mult, Pow, NatMul, ValueAt, Forward, Dft, Weighted;
    DftUnfold(g, Forward(g, x, w), v, i, n);
    WeightedUnfold(g, x, w, n, Pow(v, i));
    if n > 0 {
      DftOfForward(g, x, w, v, i, n - 1);
      ForwardAt(g, x, w, n - 1);
      PowerOfPower(v, i, n - 1);
    }
  }

  /** The inverse transform restores every array. */
  lemma RoundTrip<P(!new)>(g: Group<P>, x: seq<P>, k: nat, w: int, invN: int, p: nat)
    requires Abelian(g) && Exponent(g, p)
    requires k > 0 && |x| == Pow2(k) && Cong(Pow(w, |x| / 2), -1, p) && Cong(|x| * invN, 1, p)
    ensures Backward(g, Forward(g, x, w), w, invN) == x
  {
    hide Abelian, Exponent, Cong, Pow, Pow2, Forward, Dft, Mult;
    var z := Backward(g, Forward(g, x, w), w, invN);
    forall i | 0 <= i < |x|
      ensures z[i] == x[i]
    {
      EntryRestored(g, x, k, w, invN, p, i);
    }
  }

  lemma EntryRestored<P(!new)>(g: Group<P>, x: seq<P>, k: nat, w: int, invN: int, p: nat, i: nat)
    requires Abelian(g) && Exponent(g, p) && i < |x|
    requires k > 0 && |x| == Pow2(k) && Cong(Pow(w, |x| / 2), -1, p) && Cong(|x| * invN, 1, p)
    ensures Mult(g, invN, Dft(g, Forward(g, x, w), Pow(w, |x| - 1), i, |x|)) == x[i]
  {
    hide Abelian, Exponent, Cong, Pow, Pow2, Forward, Dft, Weighted, Spread, Mult, NatMul;
    var n := |x|;
    var v := Pow(w, n - 1);
    DftOfForward(g, x, w, v, i, n);
    WeightedIsSpread(g, x, w, n, Pow(v, i));
    PowerOfPower(w, n - 1, i);
    SpreadPicks(g, x, k, w, n, i, 0, p);
    assert x[0..] == x;
    MultMul(g, invN, n, x[i]);
    ScalarCong(g, p, x[i], invN * n, 1);
    MultOne(g, x[i]);
  }

  // ---------- Where `init` finds a root of the right order ----------

  lemma RootExponent(k: nat)
    ensures 0x1_0000_0000 / Pow2(k) == if k <= 32 then Pow2(32 - k) else 0
  {
    PowerLiterals();
    hide Pow2;
    if k <= 32 {
      Pow2Add(32 - k, k);
      QuotientIs(Pow2(32), Pow2(32 - k), 0, Pow2(k));
    } else {
      Pow2Grows(33, k);
      Pow2Twice(33);
      QuotientIs(Pow2(32), 0, Pow2(32), Pow2(k));
    }
  }

  lemma ShortRoot(root: int, k: nat, p: nat)
    requires p > 2 && 0 < k <= 32 && Cong(Pow(root, Pow2(31)), -1, p)
    ensures Cong(Pow(RootFor(root, Pow2(k), p), Pow2(k - 1)), -1, p)
  {
    hide Pow2, Cong, Pow, RootFor;
    RootAt(root, k, p);
    var e, m, w := Pow2(32 - k), Pow2(k - 1), RootFor(root, Pow2(k), p);
    Pow2Add(32 - k, k - 1);
    CongPow(w, Pow(root, e), m, p);
    PowMul(root, e, m);
    CongTrans(Pow(w, m), Pow(root, Pow2(31)), -1, p);
  }

  /** The root for the longest length is the given one. */
  lemma LongestRoot(root: int, p: nat)
    requires p > 0
    ensures Cong(RootFor(root, Pow2(32), p), root, p)
  {
    assert Pow2(0) == 1 && Pow(root, 1) == root * Pow(root, 0) == root;
    hide Pow2, Cong, Pow, RootFor;
    RootAt(root, 32, p);
  }

  /** The root for half a length is the square of the root for the length. */
  lemma RootHalved(root: int, k: nat, p: nat)
    requires p > 0 && k < 32
    ensures Cong(RootFor(root, Pow2(k), p), Pow(RootFor(root, Pow2(k + 1), p), 2), p)
  {
    hide Pow2, Cong, Pow, RootFor;
    RootAt(root, k, p);
    RootAt(root, k + 1, p);
    Pow2Twice(32 - k);
    SquareOf(RootFor(root, Pow2(k + 1), p), root, Pow2(31 - k), p);
    CongTrans(RootFor(root, Pow2(k), p), Pow(root, 2 * Pow2(31 - k)), Pow(RootFor(root, Pow2(k + 1), p), 2), p);
  }

  lemma SquareOf(w: int, root: int, e: nat, p: nat)
    requires Cong(w, Pow(root, e), p)
    ensures Cong(Pow(root, 2 * e), Pow(w, 2), p)
  {
    hide Cong, Pow;
    PowMul(root, e, 2);
    CongPow(w, Pow(root, e), 2, p);
    CongSym(Pow(w, 2), Pow(root, e * 2), p);
  }

  lemma RootAt(root: int, k: nat, p: nat)
    requires p > 0 && k <= 32
    ensures Cong(RootFor(root, Pow2(k), p), Pow(root, Pow2(32 - k)), p)
  {
    hide Pow2, Cong, Pow;
    RootExponent(k);
    CongMod(Pow(root, Pow2(32 - k)), p);
  }

  lemma LongRoot(root: int, k: nat, p: nat)
    requires p > 2 && k > 32
    ensures !Cong(Pow(RootFor(root, Pow2(k), p), Pow2(k - 1)), -1, p)
  {
    hide Pow2, Cong, Pow;
    RootExponent(k);
    ZeroPower(root);
    QuotientIs(1, 0, 1, p);
    PowOne(Pow2(k - 1));
    if Cong(1, -1, p) {
      var c := CongElim(1, -1, p);
      QuotientIs(2, 0, 2, p);
      ExactQuotient(2, c, p);
    }
  }

  /** From a root of order 2^32 the derived w has order n exactly for n up to 2^32; for longer
      arrays the exponent is zero and w is one, though `init` reports success. */
  lemma RootOrder(root: int, k: nat, p: nat)
    requires p > 2 && 0 < k < 64 && Cong(Pow(root, Pow2(31)), -1, p)
    ensures Cong(Pow(RootFor(root, Pow2(k), p), Pow2(k) / 2), -1, p) <==> k <= 32
  {
    hide Pow2, Cong, Pow, RootFor;
    Pow2Twice(k);
    if k <= 32 {
      ShortRoot(root, k, p);
    } else {
      LongRoot(root, k, p);
    }
  }
}
