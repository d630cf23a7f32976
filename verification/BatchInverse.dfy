/** Inversion of many field elements with one field inversion (`mcl/operator.hpp`): every element comes
    out as its own inverse would, zero as zero, and the array may be inverted in place. */
module BatchInverse {
  import opened Arith
  import opened Field

  /** Zero and one are copied. */
  predicate Plain(x: int) {
    x == 0 || x == 1
  }

  /** The elements that are inverted. */
  function Kept(xs: seq<int>): (r: seq<int>)
    ensures |r| <= |xs|
  {
    if xs == [] then []
    else if Plain(xs[|xs| - 1]) then Kept(xs[..|xs| - 1])
    else Kept(xs[..|xs| - 1]) + [xs[|xs| - 1]]
  }

  lemma KeptNext(xs: seq<int>, i: nat)
    requires i < |xs|
    ensures Kept(xs[..i + 1]) == if Plain(xs[i]) then Kept(xs[..i]) else Kept(xs[..i]) + [xs[i]]
  {
    assert xs[..i + 1][..i] == xs[..i];
  }

  lemma {:induction false} KeptPrefix(xs: seq<int>, i: nat)
    requires i <= |xs|
    ensures Kept(xs[..i]) <= Kept(xs)
  {
    if i == |xs| {
      assert xs[..i] == xs;
    } else {
      KeptPrefix(xs[..|xs| - 1], i);
      assert xs[..|xs| - 1][..i] == xs[..i];
    }
  }

  lemma {:induction false} KeptAppend(a: seq<int>, b: seq<int>)
    ensures Kept(a + b) == Kept(a) + Kept(b)
  {
    if b == [] {
      assert a + b == a;
    } else {
      var n := |b| - 1;
      KeptAppend(a, b[..n]);
      assert (a + b)[..|a + b| - 1] == a + b[..n];
    }
  }

  lemma PlainInverse(x: int, p: nat)
    requires Prime(p) && Plain(x)
    ensures Inverse(x, p) == x
  {
    hide Cong, Prime, FInv;
    if x == 1 {
      PrimeAboveOne(p);
      CongRefl(1, p);
      InverseUnique(1, 1, p);
    }
  }

  /** t holds the running products of q. */
  ghost predicate Running(t: seq<int>, q: seq<int>, p: nat) {
    && |q| <= |t|
    && forall j {:trigger t[j]} :: 0 <= j < |q| ==> 0 <= t[j] < p && Cong(t[j], Prod(q[..j + 1]), p)
  }

  lemma RunningNext(t: seq<int>, t': seq<int>, q: seq<int>, x: int, p: nat)
    requires p > 0 && Running(t, q, p) && |q| < |t| && 0 <= x < p
    requires t' == t[|q| := if q == [] then x else FMul(t[|q| - 1], x, p)]
    ensures Running(t', q + [x], p)
  {
    hide Cong, FMul, Prod;
    var r, n := q + [x], |q|;
    forall j | 0 <= j < |r|
      ensures 0 <= t'[j] < p && Cong(t'[j], Prod(r[..j + 1]), p)
    {
      if j < n {
        assert r[..j + 1] == q[..j + 1] && t'[j] == t[j];
      } else {
        assert r[..j + 1] == r && r[..n] == q && q[..n] == q;
        ProdNext(q, x);
        if n == 0 {
          CongRefl(x, p);
        } else {
          CongRefl(x, p);
          FieldOps(t[n - 1], Prod(q), x, x, p);
        }
      }
    }
  }

  lemma ProdNext(q: seq<int>, x: int)
    ensures Prod(q + [x]) == Prod(q) * x && (q == [] ==> Prod(q + [x]) == x)
  {
    assert (q + [x])[..|q|] == q;
  }

  /** inv inverts the product of q. */
  ghost predicate Inverts(inv: int, q: seq<int>, p: nat) {
    q != [] ==> 0 <= inv < p && Cong(inv * Prod(q), 1, p)
  }

  lemma InvertsAll(t: int, q: seq<int>, p: nat)
    requires Prime(p) && q != [] && 0 <= t < p && Cong(t, Prod(q), p) && forall k :: 0 <= k < |q| ==> 0 < q[k] < p
    ensures Inverts(Inverse(t, p), q, p)
  {
    hide Cong, Prime, Prod;
    ProdUnit(q, p);
    ReducedUnit(t, p);
    if t == 0 {
      CongSym(t, Prod(q), p);
    }
    InverseWorks(t, p);
    CongSym(t, Prod(q), p);
    CongScale(Prod(q), t, Inverse(t, p), p);
    CongTrans(Inverse(t, p) * Prod(q), Inverse(t, p) * t, 1, p);
  }

  /** The last element of q + [x] from the inverse of the whole product. */
  lemma TakeLast(inv: int, q: seq<int>, x: int, t: int, p: nat)
    requires Prime(p) && Inverts(inv, q + [x], p) && 0 < x < p
    requires q != [] ==> 0 <= t < p && Cong(t, Prod(q), p)
    ensures q == [] ==> inv == Inverse(x, p)
    ensures q != [] ==> FMul(inv, t, p) == Inverse(x, p) && Inverts(FMul(inv, x, p), q, p)
  {
    hide Cong, Prime, Prod, FMul;
    PrimeAboveOne(p);
    ProdNext(q, x);
    if q == [] {
      InverseUnique(inv, x, p);
    } else {
      var r := Prod(q);
      MulAssoc(inv, r, x);
      FieldCong(inv, t, p);
      CongScale(t, r, inv, p);
      CongTrans(FMul(inv, t, p), inv * t, inv * r, p);
      CongScale(FMul(inv, t, p), inv * r, x, p);
      CongTrans(x * FMul(inv, t, p), x * (inv * r), 1, p);
      InverseUnique(FMul(inv, t, p), x, p);
      FieldCong(inv, x, p);
      CongScale(FMul(inv, x, p), inv * x, r, p);
      MulSwap(inv, x, r);
      CongTrans(r * FMul(inv, x, p), r * (inv * x), 1, p);
    }
  }

  /** The running product still needed when the elements of q are left. */
  function Left(q: seq<int>): nat {
    if q == [] then 0 else |q| - 1
  }

  /** One element, from the inverse of the product of what is left and the running product below it;
      x[at] is read before y[at] is written. */
  method InvertAt(y: array<int>, x: array<int>, at: nat, t: array<int>, inv0: int, pos0: nat, p: nat)
    returns (inv: int, pos: nat)
    requires p > 0 && at < x.Length && at < y.Length && pos0 <= t.Length && t != y
    modifies y
    ensures Plain(old(x[at])) ==> y[at] == old(x[at]) && inv == inv0 && pos == pos0
    ensures !Plain(old(x[at])) && pos0 > 0 ==>
              y[at] == FMul(inv0, t[pos0 - 1], p) && inv == FMul(inv0, old(x[at]), p) && pos == pos0 - 1
    ensures !Plain(old(x[at])) && pos0 == 0 ==> y[at] == inv0 && pos == 0
    ensures forall k :: 0 <= k < y.Length && k != at ==> y[k] == old(y[k])
  {
    hide FMul;
    inv, pos := inv0, pos0;
    if x[at] == 0 || x[at] == 1 {
      if x != y {
        y[at] := x[at];
      }
    } else if pos > 0 {
      if x == y {
        var tmp := x[at];
        y[at] := FMul(inv, t[pos - 1], p);
        inv := FMul(inv, tmp, p);
      } else {
        y[at] := FMul(inv, t[pos - 1], p);
        inv := FMul(inv, x[at], p);
      }
      pos := pos - 1;
    } else {
      y[at] := inv;
    }
  }

  /** What that leaves: the element's inverse, and the inverse of the product of the elements before. */
  lemma InvertedAt(xs: seq<int>, idx: nat, t: seq<int>, inv0: int, inv: int, pos: nat, r: int, p: nat)
    requires Prime(p) && p > 0 && idx < |xs| && 0 <= xs[idx] < p && Running(t, Kept(xs), p)
    requires Inverts(inv0, Kept(xs[..idx + 1]), p)
    requires var pos0 := Left(Kept(xs[..idx + 1]));
             if Plain(xs[idx]) then r == xs[idx] && inv == inv0 && pos == pos0
             else if pos0 > 0 then
               pos0 <= |t| && r == FMul(inv0, t[pos0 - 1], p) && inv == FMul(inv0, xs[idx], p) && pos == pos0 - 1
             else r == inv0 && pos == 0
    ensures r == Inverse(xs[idx], p) && Inverts(inv, Kept(xs[..idx]), p) && pos == Left(Kept(xs[..idx]))
  {
    hide Cong, Prime, Inverse, FMul, Running, Inverts, Kept, Prod;
    KeptNext(xs, idx);
    if Plain(xs[idx]) {
      PlainInverse(xs[idx], p);
    } else {
      var q := Kept(xs[..idx]);
      if q == [] {
        NothingKept(q, p);
        TakeLast(inv0, q, xs[idx], 0, p);
      } else {
        KeptPrefix(xs, idx + 1);
        RunningAt(t, Kept(xs), |q| - 1, p);
        assert Kept(xs)[..|q|] == q;
        TakeLast(inv0, q, xs[idx], t[|q| - 1], p);
      }
    }
  }

  /** The elements from the last to the first. */
  method Unwind(y: array<int>, x: array<int>, lo: nat, n: nat, t: array<int>, inv0: int, pos0: nat, p: nat,
                ghost xs: seq<int>)
    requires Prime(p) && p > 0 && lo + n <= x.Length && lo + n <= y.Length && t != y && t.Length == n
    requires xs == x[lo..lo + n] && forall k :: 0 <= k < n ==> 0 <= xs[k] < p
    requires Running(t[..], Kept(xs), p) && Inverts(inv0, Kept(xs), p) && pos0 == Left(Kept(xs))
    modifies y
    ensures forall k :: lo <= k < lo + n ==> y[k] == Inverse(xs[k - lo], p)
    ensures forall k :: 0 <= k < y.Length && !(lo <= k < lo + n) ==> y[k] == old(y[k])
  {
    hide Prime, Inverse, FMul, Running, Inverts, Kept, Left;
    assert xs[..n] == xs;
    var inv, pos := inv0, pos0;
    LeftFits(xs);
    for i := 0 to n
      invariant pos == Left(Kept(xs[..n - i])) && pos <= n
      invariant Inverts(inv, Kept(xs[..n - i]), p)
      invariant forall k :: 0 <= k < n - i ==> x[lo + k] == xs[k]
      invariant forall k :: lo + n - i <= k < lo + n ==> y[k] == Inverse(xs[k - lo], p)
      invariant forall k :: 0 <= k < y.Length && !(lo <= k < lo + n) ==> y[k] == old(y[k])
    {
      var idx := n - 1 - i;
      ghost var was := inv;
      inv, pos := InvertAt(y, x, lo + idx, t, inv, pos, p);
      InvertedAt(xs, idx, t[..], was, inv, pos, y[lo + idx], p);
    }
  }

  /** Inverts n elements from position lo on; num counts those that are neither zero nor one. */
  method InvVecWork(y: array<int>, x: array<int>, lo: nat, n: nat, p: nat) returns (num: nat)
    requires Prime(p) && lo + n <= x.Length && lo + n <= y.Length
    requires forall k :: lo <= k < lo + n ==> 0 <= x[k] < p
    modifies y
    ensures forall k :: lo <= k < lo + n ==> y[k] == Inverse(old(x[k]), p)
    ensures forall k :: 0 <= k < y.Length && !(lo <= k < lo + n) ==> y[k] == old(y[k])
    ensures num == |Kept(old(x[lo..lo + n]))|
  {
    hide Cong, Prime, Inverse, Running, Inverts, Kept, Prod;
    ghost var xs := x[lo..lo + n];
    PrimeAboveOne(p);
    var t, pos := RunningProducts(x, lo, n, p);
    num := pos;
    var inv := 0;
    ghost var q := Kept(xs);
    if pos > 0 {
      RunningAt(t[..], q, pos - 1, p);
      assert q[..pos] == q;
      KeptReduced(xs, p);
      InvertsAll(t[pos - 1], q, p);
      inv := Inverse(t[pos - 1], p);
    } else {
      NothingKept(q, p);
    }
    Unwind(y, x, lo, n, t, inv, if pos > 0 then pos - 1 else 0, p, xs);
  }

  lemma LeftFits(xs: seq<int>)
    ensures Left(Kept(xs)) <= |xs|
  {
    hide Kept;
  }

  lemma NothingKept(q: seq<int>, p: nat)
    requires q == []
    ensures forall v :: Inverts(v, q, p)
  {
  }

  lemma RunningAt(t: seq<int>, q: seq<int>, j: nat, p: nat)
    requires Running(t, q, p) && j < |q|
    ensures 0 <= t[j] < p && Cong(t[j], Prod(q[..j + 1]), p)
  {
  }

  lemma {:induction false} KeptReduced(xs: seq<int>, p: nat)
    requires forall k :: 0 <= k < |xs| ==> 0 <= xs[k] < p
    ensures forall k :: 0 <= k < |Kept(xs)| ==> 0 < Kept(xs)[k] < p
  {
    if xs != [] {
      KeptReduced(xs[..|xs| - 1], p);
    }
  }

  method RunningProducts(x: array<int>, lo: nat, n: nat, p: nat) returns (t: array<int>, pos: nat)
    requires p > 0 && lo + n <= x.Length && forall k :: lo <= k < lo + n ==> 0 <= x[k] < p
    ensures fresh(t) && t.Length == n && pos == |Kept(x[lo..lo + n])|
    ensures Running(t[..], Kept(x[lo..lo + n]), p)
  {
    hide Cong, FMul, Running, Kept;
    ghost var xs := x[lo..lo + n];
    t := new int[n];
    pos := 0;
    NoneRunning(t[..], xs, p);
    for i := 0 to n
      invariant pos == |Kept(xs[..i])| && Running(t[..], Kept(xs[..i]), p)
    {
      KeptNext(xs, i);
      ghost var was := t[..];
      ghost var q := Kept(xs[..i]);
      if !(x[lo + i] == 0 || x[lo + i] == 1) {
        if pos == 0 {
          t[pos] := x[lo + i];
        } else {
          t[pos] := FMul(t[pos - 1], x[lo + i], p);
        }
        RunningNext(was, t[..], q, xs[i], p);
        pos := pos + 1;
      }
    }
    assert xs[..n] == xs;
  }

  lemma NoneRunning(t: seq<int>, xs: seq<int>, p: nat)
    ensures Kept(xs[..0]) == [] && Running(t, Kept(xs[..0]), p)
  {
  }

  /** In chunks of at most `chunk` elements; y and x may be the same array. */
  method InvVec(y: array<int>, x: array<int>, n: nat, chunk: nat, p: nat) returns (num: nat)
    requires Prime(p) && chunk > 0 && n <= x.Length && n <= y.Length
    requires forall k :: 0 <= k < n ==> 0 <= x[k] < p
    modifies y
    ensures forall k :: 0 <= k < n ==> y[k] == Inverse(old(x[k]), p)
    ensures forall k :: n <= k < y.Length ==> y[k] == old(y[k])
    ensures num == |Kept(old(x[..n]))|
  {
    hide Inverse, Prime, Kept;
    ghost var xs := x[..n];
    var lo := 0;
    num := 0;
    NothingYet(xs);
    while lo < n
      invariant 0 <= lo <= n && num == |Kept(xs[..lo])|
      invariant forall k :: lo <= k < n ==> x[k] == xs[k]
      invariant forall k :: 0 <= k < lo ==> y[k] == Inverse(xs[k], p)
      invariant forall k :: n <= k < y.Length ==> y[k] == old(y[k])
    {
      var done := if n - lo < chunk then n - lo else chunk;
      assert x[lo..lo + done] == xs[lo..lo + done];
      var some := InvVecWork(y, x, lo, done, p);
      KeptAppend(xs[..lo], xs[lo..lo + done]);
      assert xs[..lo] + xs[lo..lo + done] == xs[..lo + done];
      num := num + some;
      lo := lo + done;
    }
    assert lo == n && xs[..n] == xs;
  }

  lemma NothingYet(xs: seq<int>)
    ensures Kept(xs[..0]) == []
  {
  }
}
