/** Scalar multiplication of `mcl/ec.hpp` in an arbitrary abelian group: fixed windows, signed
    digits and interleaved sums all compute the plain multiple. */
module ScalarMul {
  import opened Arith
  import opened Groups
  import opened Wrappers

  // The group operations on known multiples of one element.

  method Dbl<P(!new)>(g: Group<P>, a: P, ghost n: int, ghost x: P) returns (r: P)
    requires Abelian(g) && a == Mult(g, n, x)
    ensures r == Mult(g, 2 * n, x)
  {
    MultAdd(g, n, n, x);
    r := g.add(a, a);
  }

  method Plus<P(!new)>(g: Group<P>, a: P, b: P, ghost n: int, ghost m: int, ghost x: P) returns (r: P)
    requires Abelian(g) && a == Mult(g, n, x) && b == Mult(g, m, x)
    ensures r == Mult(g, n + m, x)
  {
    MultAdd(g, n, m, x);
    r := g.add(a, b);
  }

  method Minus<P(!new)>(g: Group<P>, a: P, b: P, ghost n: int, ghost m: int, ghost x: P) returns (r: P)
    requires Abelian(g) && a == Mult(g, n, x) && b == Mult(g, m, x)
    ensures r == Mult(g, n - m, x)
  {
    MultAdd(g, n, 0 - m, x);
    MultNeg(g, m, x);
    r := g.add(a, g.neg(b));
  }

  // ---------- Small scalars ----------

  /** Addition chains for scalars up to 16; larger ones are refused. */
  method MulSmallInt<P(!new)>(g: Group<P>, x: P, y: nat, isNegative: bool) returns (ok: bool, z: P)
    requires Abelian(g)
    ensures ok <==> y <= 16
    ensures ok ==> z == Mult(g, if isNegative then 0 - y else y, x)
  {
    hide Abelian, Mult;
    z := x;
    if y > 16 {
      return false, z;
    }
    MultOne(g, x);
    TimesZero(g, x);
    var t, t1, t2;
    if y == 0 {
      return true, g.zero;
    } else if y == 1 {
      z := x;
    } else if y == 2 {
      z := Dbl(g, x, 1, x);
    } else if y == 3 {
      t := Dbl(g, x, 1, x);
      z := Plus(g, t, x, 2, 1, x);
    } else if y == 4 {
      z := Dbl(g, x, 1, x);
      z := Dbl(g, z, 2, x);
    } else if y == 5 {
      t := Dbl(g, x, 1, x);
      t := Dbl(g, t, 2, x);
      z := Plus(g, t, x, 4, 1, x);
    } else if y == 6 {
      t := Dbl(g, x, 1, x);
      z := Plus(g, t, x, 2, 1, x);
      z := Dbl(g, z, 3, x);
    } else if y == 7 {
      t := Dbl(g, x, 1, x);
      t := Dbl(g, t, 2, x);
      t := Dbl(g, t, 4, x);
      z := Minus(g, t, x, 8, 1, x);
    } else if y == 8 {
      z := Dbl(g, x, 1, x);
      z := Dbl(g, z, 2, x);
      z := Dbl(g, z, 4, x);
    } else if y == 9 {
      t := Dbl(g, x, 1, x);
      t := Dbl(g, t, 2, x);
      t := Dbl(g, t, 4, x);
      z := Plus(g, t, x, 8, 1, x);
    } else if y == 10 {
      t := Dbl(g, x, 1, x);
      t := Dbl(g, t, 2, x);
      z := Plus(g, t, x, 4, 1, x);
      z := Dbl(g, z, 5, x);
    } else if y == 11 {
      t1 := Dbl(g, x, 1, x);
      t2 := Dbl(g, t1, 2, x);
      t2 := Dbl(g, t2, 4, x);
      t2 := Plus(g, t2, t1, 8, 2, x);
      z := Plus(g, t2, x, 10, 1, x);
    } else if y == 12 {
      t1 := Dbl(g, x, 1, x);
      t1 := Dbl(g, t1, 2, x);
      t2 := Dbl(g, t1, 4, x);
      z := Plus(g, t1, t2, 4, 8, x);
    } else if y == 13 {
      t1 := Dbl(g, x, 1, x);
      t1 := Dbl(g, t1, 2, x);
      t2 := Dbl(g, t1, 4, x);
      t1 := Plus(g, t1, t2, 4, 8, x);
      z := Plus(g, t1, x, 12, 1, x);
    } else if y == 14 {
      t := Dbl(g, x, 1, x);
      t := Dbl(g, t, 2, x);
      t := Dbl(g, t, 4, x);
      t := Minus(g, t, x, 8, 1, x);
      z := Dbl(g, t, 7, x);
    } else if y == 15 {
      t := Dbl(g, x, 1, x);
      t := Dbl(g, t, 2, x);
      t := Dbl(g, t, 4, x);
      t := Dbl(g, t, 8, x);
      z := Minus(g, t, x, 16, 1, x);
    } else {
      z := Dbl(g, x, 1, x);
      z := Dbl(g, z, 2, x);
      z := Dbl(g, z, 4, x);
      z := Dbl(g, z, 8, x);
    }
    assert z == Mult(g, y, x);
    if isNegative {
      MultNeg(g, y, x);
      z := g.neg(z);
    }
    ok := true;
  }

  // ---------- Fixed windows ----------

  const WORD: nat := 0x1_0000_0000_0000_0000

  /** The number a little-endian word array stands for. */
  function Value(y: seq<nat>): nat {
    if y == [] then 0 else y[0] + WORD * Value(y[1..])
  }

  /** Word i weighs 2^(64 i), and nothing but zeros is zero. */
  lemma {:induction false} ValueWord(y: seq<nat>, i: nat, v: nat)
    requires i < |y|
    ensures Value(y[i := v]) == Value(y) + (v - y[i]) * Pow2(64 * i)
  {
    hide Pow2, Value;
    if i == 0 {
      ValueFirst(y, v);
      NoWeight(v - y[0]);
    } else {
      ValueWord(y[1..], i - 1, v);
      ValueRest(y, i, v, (v - y[i]) * Pow2(64 * (i - 1)));
      NextWeight(v - y[i], i);
    }
  }

  lemma NoWeight(d: int)
    ensures d * Pow2(0) == d
  {
  }

  lemma NextWeight(d: int, i: nat)
    requires i > 0
    ensures WORD * (d * Pow2(64 * (i - 1))) == d * Pow2(64 * i)
  {
    PowerLiterals();
    hide Pow2;
    Pow2Add(64, 64 * (i - 1));
    MulSwap(d, WORD, Pow2(64 * (i - 1)));
  }

  lemma ValueFirst(y: seq<nat>, v: nat)
    requires y != []
    ensures Value(y[0 := v]) == Value(y) + (v - y[0])
  {
    assert y[0 := v][1..] == y[1..];
  }

  lemma ValueRest(y: seq<nat>, i: nat, v: nat, x: int)
    requires 0 < i < |y| && Value(y[1..][i - 1 := v]) == Value(y[1..]) + x
    ensures Value(y[i := v]) == Value(y) + WORD * x
  {
    assert y[i := v][1..] == y[1..][i - 1 := v];
  }

  lemma {:induction false} ValueZero(y: seq<nat>)
    ensures (forall k :: 0 <= k < |y| ==> y[k] == 0) ==> Value(y) == 0
  {
    if y != [] {
      ValueZero(y[1..]);
    }
  }

  lemma ValueTop(y: seq<nat>, k: nat)
    requires k < |y|
    ensures Value(y[k..]) == y[k] + WORD * Value(y[k + 1..])
  {
    assert y[k..][1..] == y[k + 1..];
  }

  /** The leading bits of v below a given shift. */
  function Shifted(v: nat, s: nat): nat {
    Shr(v, s)
  }

  lemma NextNibble(v: nat, s: nat)
    ensures Shifted(v, s) == 16 * Shifted(v, s + 4) + Shifted(v, s) % 16
  {
    hide Pow2;
    FirstPowersOfTwo();
    Pow2Add(4, s);
    QuotientNat(v, Pow2(s));
    NibbleOff(v, Pow2(s), v / Pow2(s), v % Pow2(s));
  }

  lemma NibbleOff(v: nat, p: nat, n: nat, rest: nat)
    requires p > 0 && v == n * p + rest && rest < p
    ensures v / (16 * p) == n / 16
  {
    var q, r := n / 16, n % 16;
    MulDist(16 * q, r, p);
    MulSwap(16, q, p);
    MulAssoc(q, 16, p);
    MulDist(r, 1, p);
    MulMono(r + 1, 16, p);
    QuotientIs(v, q, r * p + rest, 16 * p);
  }

  lemma ShiftedEnds(v: nat)
    requires v < WORD
    ensures Shifted(v, 64) == 0 && Shifted(v, 0) == v
  {
    ShiftNothing(v);
    hide Pow2;
    PowerLiterals();
    QuotientIs(v, 0, v, WORD);
  }

  lemma ShiftNothing(v: nat)
    ensures Shifted(v, 0) == v
  {
  }

  ghost predicate MultipleTable<P>(g: Group<P>, tbl: seq<P>, x: P) {
    forall k :: 0 <= k < |tbl| ==> tbl[k] == Mult(g, k, x)
  }

  method MulArrayCT<P(!new)>(g: Group<P>, x: P, y: seq<nat>, isNegative: bool) returns (z: P)
    requires Abelian(g) && forall i :: 0 <= i < |y| ==> y[i] < 0x1_0000_0000_0000_0000
    ensures z == Mult(g, if isNegative then 0 - Value(y) else Value(y), x)
  {
    hide Abelian, Mult, Value;
    var tbl := new P[16](_ => g.zero);
    TimesZero(g, x);
    MultOne(g, x);
    tbl[1] := x;
    for i := 2 to 16
      invariant forall k :: 0 <= k < i ==> tbl[k] == Mult(g, k, x)
    {
      tbl[i] := Plus(g, tbl[i - 1], x, i - 1, 1, x);
    }
    ghost var t := tbl[..];
    assert MultipleTable(g, t, x);
    hide MultipleTable;
    z := g.zero;
    ghost var n := 0;
    ValueEmpty(y);
    for i := 0 to |y|
      invariant n == Value(y[|y| - i..]) && z == Mult(g, n, x) && tbl[..] == t
    {
      var v := y[|y| - 1 - i];
      ValueTop(y, |y| - 1 - i);
      z := MulWord(g, z, tbl, v, n, x);
      n := n * WORD + v;
    }
    assert y[0..] == y;
    if isNegative {
      MultNeg(g, n, x);
      z := g.neg(z);
    }
  }

  /** Four doublings. */
  method DblWindow<P(!new)>(g: Group<P>, z0: P, ghost m: nat, ghost x: P) returns (z: P)
    requires Abelian(g) && z0 == Mult(g, m, x)
    ensures z == Mult(g, 16 * m, x)
  {
    hide Abelian, Mult, Pow2;
    z := z0;
    ghost var n := m;
    Sixteen();
    TimesOne(m);
    for k := 0 to 4
      invariant n == m * Pow2(k) && z == Mult(g, n, x)
    {
      DoublePower(m, k);
      z := Dbl(g, z, n, x);
      n := 2 * n;
    }
  }

  /** The sixteen windows of one word, most significant first. */
  method MulWord<P(!new)>(g: Group<P>, z0: P, tbl: array<P>, v: nat, ghost top: nat, ghost x: P) returns (z: P)
    requires Abelian(g) && v < WORD && tbl.Length == 16 && MultipleTable(g, tbl[..], x) && z0 == Mult(g, top, x)
    ensures z == Mult(g, top * WORD + v, x)
  {
    hide Abelian, Mult, Shifted, Pow2;
    z := z0;
    ghost var n := top;
    ShiftedEnds(v);
    for j := 0 to 16
      invariant n == Shifted(v, 64 - 4 * j) + top * Power16(j) && z == Mult(g, n, x)
    {
      z := DblWindow(g, z, n, x);
      n := 16 * n;
      NextNibble(v, 60 - 4 * j);
      NextPower16(top, j);
      var d := Shifted(v, 60 - 4 * j) % 16;
      assert tbl[..][d] == tbl[d];
      z := Plus(g, z, tbl[d], n, d, x);
      n := n + d;
    }
    PowerWord();
  }

  lemma DoublePower(m: nat, k: nat)
    ensures 2 * (m * Pow2(k)) == m * Pow2(k + 1)
  {
    MulSwap(m, 2, Pow2(k));
  }

  lemma TimesOne(m: int)
    ensures m * 1 == m && m * Power16(0) == m
  {
  }

  lemma Sixteen()
    ensures Pow2(4) == 16 && Pow2(0) == 1
  {
  }

  lemma NextPower16(top: nat, j: nat)
    ensures top * Power16(j + 1) == 16 * (top * Power16(j))
  {
    MulSwap(top, 16, Power16(j));
  }

  function Power16(j: nat): nat {
    if j == 0 then 1 else 16 * Power16(j - 1)
  }

  lemma PowerWord()
    ensures Power16(16) == WORD
  {
    assert Power16(4) == 0x1_0000;
    assert Power16(8) == 0x1_0000_0000;
    assert Power16(12) == 0x1_0000_0000_0000;
  }

  lemma ValueEmpty(y: seq<nat>)
    ensures Value(y[|y|..]) == 0
  {
  }

  // ---------- Signed digits ----------

  /** The number that the digits from index k on stand for. */
  function Digits(naf: seq<int>, k: nat): int
    decreases |naf| - k
  {
    if k >= |naf| then 0 else naf[k] + 2 * Digits(naf, k + 1)
  }

  function DigitAt(naf: seq<int>, i: nat): int {
    if i < |naf| then naf[i] else 0
  }

  lemma DigitsUnfold(naf: seq<int>, k: nat)
    ensures Digits(naf, k) == 2 * Digits(naf, k + 1) + DigitAt(naf, k)
  {
  }

  /** Width-w non-adjacent form of v: odd or zero digits below 2^(w-1), at most one of any w
      consecutive ones non-zero, adding up to v. */
  ghost predicate IsNaf(naf: seq<int>, v: int, w: nat) {
    && w >= 2
    && Digits(naf, 0) == v
    && SmallOdd(naf, w)
    && Sparse(naf, w)
  }

  ghost predicate SmallOdd(naf: seq<int>, w: nat)
    requires w >= 2
  {
    forall i :: 0 <= i < |naf| ==> naf[i] == 0 || (naf[i] % 2 == 1 && Abs(naf[i]) < Pow2(w - 1))
  }

  ghost predicate Sparse(naf: seq<int>, w: nat) {
    forall i, j :: 0 <= i < j < |naf| && j < i + w && naf[i] != 0 ==> naf[j] == 0
  }

  /** No non-zero digit among the last w - 1 - room ones. */
  ghost predicate Room(naf: seq<int>, w: nat, next: nat) {
    forall i :: 0 <= i < |naf| && naf[i] != 0 ==> i + w <= next
  }

  lemma {:induction false} DigitsSnoc(naf: seq<int>, d: int, k: nat)
    requires k <= |naf|
    ensures Digits(naf + [d], k) == Digits(naf, k) + d * Pow2(|naf| - k)
    decreases |naf| - k
  {
    if k == |naf| {
      assert Digits(naf + [d], k) == d + 2 * Digits(naf + [d], k + 1);
    } else {
      DigitsSnoc(naf, d, k + 1);
      MulSwap(d, 2, Pow2(|naf| - k - 1));
    }
  }

  /** What the loop of `getNAFwidth` has split off: x0 = digits + rest * 2^(pending position). */
  ghost predicate NafInv(x0: nat, naf: seq<int>, x: nat, zeroNum: nat, w: nat) {
    && w >= 2
    && x0 == Digits(naf, 0) + x * Pow2(|naf| + zeroNum)
    && 2 * Abs(Digits(naf, 0)) < Pow2(|naf| + zeroNum)
    && SmallOdd(naf, w) && Sparse(naf, w) && Room(naf, w, |naf| + zeroNum)
  }

  lemma NafStart(x0: nat, w: nat)
    requires w >= 2
    ensures NafInv(x0, [], x0, 0, w)
  {
  }

  /** Trailing zero bits of the rest become pending zero digits. */
  lemma NafShift(x0: nat, naf: seq<int>, x: nat, zeroNum: nat, w: nat, h: nat, z: nat)
    requires NafInv(x0, naf, x, zeroNum, w) && x == h * Pow2(z)
    ensures NafInv(x0, naf, h, zeroNum + z, w)
  {
    hide Pow2, Digits, SmallOdd, Sparse;
    Pow2Add(z, |naf| + zeroNum);
    MulAssoc(h, Pow2(z), Pow2(|naf| + zeroNum));
    Pow2Grows(|naf| + zeroNum, |naf| + zeroNum + z);
  }

  lemma NafZero(x0: nat, naf: seq<int>, x: nat, zeroNum: nat, w: nat)
    requires NafInv(x0, naf, x, zeroNum, w) && zeroNum > 0
    ensures NafInv(x0, naf + [0], x, zeroNum - 1, w)
  {
    hide Pow2, Digits;
    DigitsSnoc(naf, 0, 0);
  }

  /** One digit: v = x mod 2^w, taken negative when its top bit is set. */
  lemma NafDigit(x0: nat, naf: seq<int>, x: nat, w: nat, v: int, x': nat)
    requires NafInv(x0, naf, x, 0, w) && v % 2 == 1 && Abs(v) < Pow2(w - 1)
    requires x == v + x' * Pow2(w)
    ensures NafInv(x0, naf + [v], x', w - 1, w)
  {
    hide Pow2, Digits;
    var n := |naf|;
    var p := Pow2(n);
    DigitsSnoc(naf, v, 0);
    Pow2Add(w, n);
    Pow2Add(w - 1, n);
    Pow2Twice(w - 1 + n + 1);
    Pow2Twice(w - 1 + 1);
    MulDist(v, x' * Pow2(w), p);
    MulAssoc(x', Pow2(w), p);
    // size of the new partial value
    AbsMul(v, p);
    MulMono(Abs(v) + 1, Pow2(w - 1), p);
    MulDist(Abs(v), 1, p);
    assert Abs(p) == p;
    SparseSnoc(naf, v, w);
  }

  lemma SparseSnoc(naf: seq<int>, v: int, w: nat)
    requires Sparse(naf, w) && Room(naf, w, |naf|)
    ensures Sparse(naf + [v], w)
  {
    var t := naf + [v];
    forall i, j | 0 <= i < j < |t| && j < i + w && t[i] != 0
      ensures t[j] == 0
    {
      assert t[i] == naf[i];
    }
  }

  /** While something is left, its position is at most one above the size of the input. */
  lemma NafFits(x0: nat, naf: seq<int>, x: nat, zeroNum: nat, w: nat, bits: nat)
    requires NafInv(x0, naf, x, zeroNum, w) && x > 0 && x0 < Pow2(bits)
    ensures |naf| + zeroNum <= bits
  {
    hide Pow2, Digits, SmallOdd, Sparse, Room;
    var n := |naf| + zeroNum;
    MulMono(1, x, Pow2(n));
    if n > bits {
      Pow2Grows(bits + 1, n);
      Pow2Twice(bits + 1);
    }
  }

  method LowerZeroBits(x: nat) returns (z: nat, h: nat)
    requires x > 0
    ensures x == h * Pow2(z) && h % 2 == 1 && h <= x
  {
    z, h := 0, x;
    while h % 2 == 0
      invariant 0 < h <= x && x == h * Pow2(z)
      decreases h
    {
      MulSwap(h / 2, 2, Pow2(z));
      h := h / 2;
      z := z + 1;
    }
  }

  /** The low w bits, taken as a signed number, and what is left of x. */
  method SplitDigit(x: nat, w: nat) returns (v: int, rest: nat)
    requires x % 2 == 1 && w >= 2
    ensures v % 2 == 1 && Abs(v) < Pow2(w - 1) && x == v + rest * Pow2(w) && rest < x
  {
    hide Pow2, Abs;
    var q, m := LowWindow(x, w);
    HalfWindow(w);
    v, rest := m, q;
    if v >= Pow2(w - 1) {
      HighDigit(x, q, m, Pow2(w), Pow2(w - 1));
      rest := q + 1;
      v := m - Pow2(w);
    } else {
      LowDigit(m, Pow2(w - 1));
    }
    SplitSmaller(x, rest, v, Pow2(w), Pow2(w - 1));
  }

  lemma LowDigit(m: nat, h: nat)
    requires m < h
    ensures Abs(m) < h
  {
  }

  lemma HighDigit(x: nat, q: nat, m: nat, p: nat, h: nat)
    requires x == m + q * p && p == 2 * h && m % 2 == 1 && h % 2 == 0 && h <= m < p
    ensures (m - p) % 2 == 1 && Abs(m - p) < h && x == (m - p) + (q + 1) * p
  {
    MulDist(q, 1, p);
  }

  method LowWindow(x: nat, w: nat) returns (q: nat, m: nat)
    requires x % 2 == 1 && w >= 1
    ensures m < Pow2(w) && x == m + q * Pow2(w) && m % 2 == 1
  {
    var q0: int, m0: int := x / Pow2(w), x % Pow2(w);
    LowBitOdd(x, q0, m0, w);
    q, m := q0, m0;
  }

  lemma HalfWindow(w: nat)
    requires w >= 2
    ensures Pow2(w) == 2 * Pow2(w - 1) && Pow2(w - 1) % 2 == 0 && Pow2(w - 1) >= 2
  {
    assert Pow2(w - 1) == 2 * Pow2(w - 2);
  }

  lemma LowBitOdd(x: nat, q: int, m: int, w: nat)
    requires x % 2 == 1 && w >= 1 && q == x / Pow2(w) && m == x % Pow2(w)
    ensures 0 <= m < Pow2(w) && q >= 0 && x == m + q * Pow2(w) && m % 2 == 1
  {
    EvenMultiple(q, w);
    hide Pow2;
    QuotientNat(x, Pow2(w));
    EvenRest(x, q * Pow2(w), m);
  }

  lemma EvenRest(x: int, e: int, m: int)
    requires x == m + e && e % 2 == 0
    ensures m % 2 == x % 2
  {
  }

  lemma SplitSmaller(x: nat, q: nat, v: int, p: nat, h: nat)
    requires p == 2 * h && h >= 2 && x == v + q * p && Abs(v) < h && x > 0
    ensures q < x
  {
    if q >= 1 {
      MulMono(4, p, q);
      MulMono(1, q, p);
    }
  }

  lemma NafDone(x0: nat, naf: seq<int>, zeroNum: nat, w: nat)
    requires NafInv(x0, naf, 0, zeroNum, w)
    ensures IsNaf(naf, x0, w)
  {
    hide Pow2, Digits;
  }

  lemma NafNegate(naf: seq<int>, v: int, w: nat)
    requires IsNaf(naf, v, w)
    ensures IsNaf(seq(|naf|, i requires 0 <= i < |naf| => 0 - naf[i]), 0 - v, w)
  {
    var t := seq(|naf|, i requires 0 <= i < |naf| => 0 - naf[i]);
    DigitsNegate(naf, t, 0);
    hide Digits, Pow2;
  }

  lemma {:induction false} DigitsNegate(naf: seq<int>, t: seq<int>, k: nat)
    requires |t| == |naf| && forall i :: 0 <= i < |naf| ==> t[i] == 0 - naf[i]
    ensures Digits(t, k) == 0 - Digits(naf, k)
    decreases |naf| - k
  {
    if k < |naf| {
      DigitsNegate(naf, t, k + 1);
    }
  }

  // ---------- Uniqueness of the signed digits ----------

  /** Some width-w form of v has at most c digits. */
  ghost predicate HasNaf(v: int, w: nat, c: nat) {
    exists naf: seq<int> :: IsNaf(naf, v, w) && |naf| <= c
  }

  lemma {:induction false} ZeroRun(naf: seq<int>, k: nat, n: nat)
    requires forall i :: k <= i < k + n && i < |naf| ==> naf[i] == 0
    ensures Digits(naf, k) == Digits(naf, k + n) * Pow2(n)
    decreases n
  {
    if n > 0 {
      ZeroRun(naf, k + 1, n - 1);
      DigitsUnfold(naf, k);
      MulSwap(2, Digits(naf, k + n), Pow2(n - 1));
    }
  }

  /** A non-zero digit stands alone among w positions. */
  lemma DigitAlone(naf: seq<int>, w: nat, k: nat)
    requires w >= 2 && Sparse(naf, w) && DigitAt(naf, k) != 0
    ensures Digits(naf, k) == DigitAt(naf, k) + Digits(naf, k + w) * Pow2(w)
  {
    ZeroRun(naf, k + 1, w - 1);
    MulSwap(2, Digits(naf, k + w), Pow2(w - 1));
    hide Digits, Pow2;
    Pow2Twice(w);
    DigitsUnfold(naf, k);
  }

  lemma EvenDigit(naf: seq<int>, w: nat, k: nat)
    requires w >= 2 && SmallOdd(naf, w)
    ensures DigitAt(naf, k) == 0 <==> Digits(naf, k) % 2 == 0
  {
    DigitsUnfold(naf, k);
    hide Digits, Pow2;
    assert k < |naf| ==> naf[k] == 0 || naf[k] % 2 == 1;
  }

  /** Two small numbers that agree modulo 2^w are equal. */
  lemma SmallEqual(a: int, b: int, s: int, w: nat)
    requires w >= 2 && Abs(a) < Pow2(w - 1) && Abs(b) < Pow2(w - 1) && a - b == s * Pow2(w)
    ensures a == b
  {
    hide Pow2;
    Pow2Twice(w);
    if s >= 1 {
      MulMono(1, s, Pow2(w));
    } else if s <= -1 {
      MulMono(s, -1, Pow2(w));
    }
  }

  /** The next digits agree when the numbers differ by a multiple of 2^n, with n clear of the digit. */
  lemma NextDigit(a: seq<int>, b: seq<int>, t: int, n: nat, w: nat, k: nat)
    requires w >= 2 && SmallOdd(a, w) && Sparse(a, w) && SmallOdd(b, w) && Sparse(b, w)
    requires n > 0 && Digits(a, k) == Digits(b, k) + t * Pow2(n) && (DigitAt(b, k) != 0 ==> w <= n)
    ensures DigitAt(a, k) == DigitAt(b, k)
  {
    hide Digits, Pow2, SmallOdd, Sparse;
    EvenMultiple(t, n);
    EvenDigit(a, w, k);
    EvenDigit(b, w, k);
    EvenRest(Digits(a, k), t * Pow2(n), Digits(b, k));
    if DigitAt(b, k) != 0 {
      SmallDigit(a, w, k);
      SmallDigit(b, w, k);
      DigitAlone(a, w, k);
      DigitAlone(b, w, k);
      Pow2Add(n - w, w);
      MulAssoc(t, Pow2(n - w), Pow2(w));
      SameLow(DigitAt(a, k), DigitAt(b, k), Digits(a, k + w), Digits(b, k + w), t * Pow2(n - w), w);
    }
  }

  lemma SmallDigit(naf: seq<int>, w: nat, k: nat)
    requires w >= 2 && SmallOdd(naf, w) && DigitAt(naf, k) != 0
    ensures Abs(DigitAt(naf, k)) < Pow2(w - 1)
  {
  }

  lemma SameLow(a: int, b: int, e: int, f: int, g: int, w: nat)
    requires w >= 2 && Abs(a) < Pow2(w - 1) && Abs(b) < Pow2(w - 1)
    requires a + e * Pow2(w) == b + f * Pow2(w) + g * Pow2(w)
    ensures a == b
  {
    hide Pow2, Abs;
    MulDist(f, g, Pow2(w));
    MulDist(f + g, e, Pow2(w));
    SmallEqual(a, b, f + g - e, w);
  }

  /** Digits below position m are settled by the number up to a multiple of 2^m. */
  lemma {:induction false} SameDigits(a: seq<int>, b: seq<int>, x: int, m: nat, w: nat, k: nat, c: nat)
    requires w >= 2 && SmallOdd(a, w) && Sparse(a, w) && SmallOdd(b, w) && Sparse(b, w)
    requires Room(b, w, m) && |b| <= m && k <= c <= m
    requires Digits(a, k) == Digits(b, k) + x * Pow2(m - k)
    ensures forall i: nat :: k <= i < c ==> DigitAt(a, i) == DigitAt(b, i)
    ensures Digits(a, c) == Digits(b, c) + x * Pow2(m - c)
    decreases c - k
  {
    if k < c {
      hide Digits, Pow2, SmallOdd, Sparse;
      NextDigit(a, b, x, m - k, w, k);
      DigitsUnfold(a, k);
      DigitsUnfold(b, k);
      Pow2Twice(m - k);
      MulSwap(2, x, Pow2(m - k - 1));
      SameDigits(a, b, x, m, w, k + 1, c);
    }
  }

  lemma NoDigits(naf: seq<int>, k: nat)
    requires |naf| <= k
    ensures Digits(naf, k) == 0
  {
  }

  /** A number has one width-w form, up to zeros at the top. */
  lemma NafUnique(a: seq<int>, b: seq<int>, v: int, w: nat, i: nat)
    requires IsNaf(a, v, w) && IsNaf(b, v, w)
    ensures DigitAt(a, i) == DigitAt(b, i)
  {
    hide Digits, Pow2, SmallOdd, Sparse;
    var m := |b| + w + i + 1;
    SameDigits(a, b, 0, m, w, 0, m);
  }

  /** With a digit still to come once the array is full, no form fits the array. */
  lemma NafOverflow(x0: nat, naf: seq<int>, x: nat, zeroNum: nat, w: nat, capacity: nat)
    requires NafInv(x0, naf, x, zeroNum, w) && x > 0 && |naf| == capacity
    ensures !HasNaf(x0, w, capacity)
  {
    hide Digits, Pow2, SmallOdd, Sparse, Room;
    var m := capacity + zeroNum;
    if HasNaf(x0, w, capacity) {
      var a: seq<int> :| IsNaf(a, x0, w) && |a| <= capacity;
      SameDigits(a, naf, x, m, w, 0, capacity);
      NoDigits(a, capacity);
      NoDigits(naf, capacity);
      MulMono(1, x, Pow2(m - capacity));
      assert false;
    }
  }

  /** One digit more than the number has bits is always enough. */
  lemma NafTooLong(x0: nat, naf: seq<int>, x: nat, zeroNum: nat, w: nat, capacity: nat)
    requires NafInv(x0, naf, x, zeroNum, w) && x > 0 && |naf| == capacity
    ensures capacity > 0 ==> x0 >= Pow2(capacity - 1)
  {
    hide NafInv, Pow2;
    if capacity > 0 && x0 < Pow2(capacity - 1) {
      NafFits(x0, naf, x, zeroNum, w, capacity - 1);
    }
  }

  lemma HasNafNegated(v: int, w: nat, c: nat)
    requires HasNaf(v, w, c)
    ensures HasNaf(0 - v, w, c)
  {
    hide IsNaf;
    var naf: seq<int> :| IsNaf(naf, v, w) && |naf| <= c;
    NafNegate(naf, v, w);
  }

  lemma HasNafAbs(v: int, w: nat, c: nat)
    ensures HasNaf(v, w, c) <==> HasNaf(Abs(v), w, c)
  {
    hide HasNaf;
    if v < 0 {
      if HasNaf(v, w, c) {
        HasNafNegated(v, w, c);
      } else if HasNaf(Abs(v), w, c) {
        HasNafNegated(Abs(v), w, c);
      }
    }
  }

  /** `capacity` is the size of the fixed digit array; pushing past it clears the flag. */
  method GetNafWidth(x0: int, w: nat, capacity: nat) returns (pb: bool, naf: seq<int>)
    requires w >= 2
    ensures pb ==> IsNaf(naf, x0, w) && |naf| <= capacity
    ensures pb <==> HasNaf(x0, w, capacity)
    ensures capacity > 0 && Abs(x0) < Pow2(capacity - 1) ==> pb
  {
    hide Pow2, Digits, SmallOdd, Sparse, Room, NafInv, IsNaf, HasNaf;
    HasNafAbs(x0, w, capacity);
    naf := [];
    var negative := x0 < 0;
    var x: nat := Abs(x0);
    ghost var a: nat := x;
    var zeroNum: nat := 0;
    NafStart(a, w);
    while x != 0
      invariant NafInv(a, naf, x, zeroNum, w) && |naf| <= capacity
      decreases x
    {
      var z, h := LowerZeroBits(x);
      NafShift(a, naf, x, zeroNum, w, h, z);
      x := h;
      zeroNum := zeroNum + z;
      for i := 0 to zeroNum
        invariant NafInv(a, naf, x, zeroNum - i, w) && |naf| <= capacity
      {
        if |naf| == capacity {
          NafOverflow(a, naf, x, zeroNum - i, w, capacity);
          NafTooLong(a, naf, x, zeroNum - i, w, capacity);
          return false, naf;
        }
        NafZero(a, naf, x, zeroNum - i, w);
        naf := naf + [0];
      }
      if |naf| == capacity {
        NafOverflow(a, naf, x, 0, w, capacity);
        NafTooLong(a, naf, x, 0, w, capacity);
        return false, naf;
      }
      var v, rest := SplitDigit(x, w);
      NafDigit(a, naf, x, w, v, rest);
      naf := naf + [v];
      x := rest;
      zeroNum := w - 1;
    }
    NafDone(a, naf, zeroNum, w);
    if negative {
      NafNegate(naf, a, w);
      naf := seq(|naf|, i requires 0 <= i < |naf| => 0 - naf[i]);
    }
    FormFound(naf, x0, w, capacity);
    pb := true;
  }

  lemma FormFound(naf: seq<int>, v: int, w: nat, c: nat)
    requires IsNaf(naf, v, w) && |naf| <= c
    ensures HasNaf(v, w, c)
  {
  }

  /** The odd multiples x, 3x, 5x, ... */
  ghost predicate OddTable<P>(g: Group<P>, tbl: seq<P>, x: P) {
    forall k :: 0 <= k < |tbl| ==> tbl[k] == Mult(g, 2 * k + 1, x)
  }

  method MakeTable<P(!new)>(g: Group<P>, x: P, size: nat) returns (tbl: seq<P>)
    requires Abelian(g) && size > 0
    ensures |tbl| == size && OddTable(g, tbl, x)
  {
    hide Abelian, Mult;
    MultOne(g, x);
    var p2 := Dbl(g, x, 1, x);
    tbl := [x];
    for i := 1 to size
      invariant |tbl| == i && OddTable(g, tbl, x)
    {
      var t := Plus(g, tbl[i - 1], p2, 2 * (i - 1) + 1, 2, x);
      tbl := tbl + [t];
    }
  }

  /** Adds or subtracts the table entry for digit i, if there is one. */
  method AddTbl<P(!new)>(g: Group<P>, q: P, tbl: seq<P>, naf: seq<int>, i: nat, ghost x: P, ghost v: int, w: nat)
    returns (r: P)
    requires Abelian(g) && OddTable(g, tbl, x) && IsNaf(naf, v, w) && |tbl| == Pow2(w - 2)
    ensures r == g.add(q, Mult(g, DigitAt(naf, i), x))
  {
    hide Abelian, Mult, Digits;
    assert Pow2(w - 1) == 2 * Pow2(w - 2);
    hide Pow2;
    TimesZero(g, x);
    Unit(g, q);
    if i >= |naf| {
      return q;
    }
    var n := naf[i];
    if n > 0 {
      r := g.add(q, tbl[(n - 1) / 2]);
    } else if n < 0 {
      var m := 0 - n;
      MultNeg(g, m, x);
      r := g.add(q, g.neg(tbl[(m - 1) / 2]));
    } else {
      r := q;
    }
  }

  method RealSize(y: seq<nat>) returns (n: nat)
    requires |y| > 0
    ensures 1 <= n <= |y| && Value(y[..n]) == Value(y) && (n > 1 ==> y[n - 1] != 0)
  {
    n := |y|;
    assert y[..n] == y;
    while n > 1 && y[n - 1] == 0
      invariant 1 <= n <= |y| && Value(y[..n]) == Value(y)
    {
      TopZero(y[..n]);
      assert y[..n][..n - 1] == y[..n - 1];
      n := n - 1;
    }
  }

  lemma {:induction false} TopZero(y: seq<nat>)
    requires y != [] && y[|y| - 1] == 0
    ensures Value(y[..|y| - 1]) == Value(y)
  {
    if |y| > 1 {
      TopZero(y[1..]);
      assert y[1..][..|y| - 2] == y[..|y| - 1][1..];
    } else {
      assert y[..0] == [] && y[1..] == [];
    }
  }

  lemma WordsForValue(y: seq<nat>)
    requires y != [] && (|y| > 1 ==> y[|y| - 1] != 0) && forall i :: 0 <= i < |y| ==> y[i] < WORD
    ensures |y| == 1 ==> Value(y) == y[0] < WORD
    ensures |y| == 2 ==> WORD <= Value(y) < WORD * WORD
    ensures |y| >= 3 ==> Value(y) >= WORD * WORD
  {
    assert Value(y) == y[0] + WORD * Value(y[1..]);
    if |y| == 1 {
      assert y[1..] == [];
    } else {
      WordsForValue(y[1..]);
    }
  }

  /** Multiplication for any scalar: window method on request, else chains for small scalars
      and signed digits with a table of odd multiples for the rest; their width is 3 up to 2^32, 4 below
      2^128 and 5 from there on. There is no result, where the
      source stops at an assertion, exactly when the scalar has no signed digits that fit. */
  method MulArray<P(!new)>(g: Group<P>, x: P, y: seq<nat>, isNegative: bool, constTime: bool, capacity: nat)
    returns (z: Option<P>)
    requires Abelian(g) && forall i :: 0 <= i < |y| ==> y[i] < 0x1_0000_0000_0000_0000
    ensures z.None? <==>
              !constTime && Value(y) > 16
              && !HasNaf(Value(y), if Value(y) <= 0x1_0000_0000 then 3
                                   else if Value(y) < 0x1_0000_0000_0000_0000_0000_0000_0000_0000 then 4 else 5, capacity)
    ensures z.Some? ==> z.value == Mult(g, if isNegative then 0 - Value(y) else Value(y), x)
    ensures capacity > 0 && Value(y) < Pow2(capacity - 1) ==> z.Some?
  {
    hide Abelian, Mult, Value, IsNaf, HasNaf, Pow2, Digits;
    if constTime {
      var window := MulArrayCT(g, x, y, isNegative);
      return Some(window);
    }
    if |y| == 0 {
      ValueEmpty(y);
      assert y[|y|..] == y;
      TimesZero(g, x);
      return Some(g.zero);
    }
    var yn := RealSize(y);
    assert yn > 1 ==> y[..yn][yn - 1] == y[yn - 1];
    WordsForValue(y[..yn]);
    if yn <= 1 {
      var ok, small := MulSmallInt(g, x, y[0], isNegative);
      if ok {
        return Some(small);
      }
    }
    var v: int := Value(y[..yn]);
    var w := if yn == 1 && y[0] <= 0x1_0000_0000 then 3 else if 8 * yn > 16 then 5 else 4;
    HasNafAbs(0 - v, w, capacity);
    if isNegative {
      v := -v;
    }
    var b, naf := GetNafWidth(v, w, capacity);
    if !b {
      return None;
    }
    var r := SumDigits(g, x, naf, v, w);
    z := Some(r);
  }

  /** Doubles and adds from the top digit down. */
  method SumDigits<P(!new)>(g: Group<P>, x: P, naf: seq<int>, ghost v: int, w: nat) returns (z: P)
    requires Abelian(g) && IsNaf(naf, v, w)
    ensures z == Mult(g, v, x)
  {
    hide Abelian, Mult, Pow2, Digits, SmallOdd, Sparse;
    var tbl := MakeTable(g, x, Pow2(w - 2));
    z := g.zero;
    TimesZero(g, x);
    NoDigits(naf, |naf|);
    for i := 0 to |naf|
      invariant z == Mult(g, Digits(naf, |naf| - i), x)
    {
      var k := |naf| - 1 - i;
      ghost var n := Digits(naf, k + 1);
      z := Dbl(g, z, n, x);
      MultAdd(g, 2 * n, naf[k], x);
      DigitsUnfold(naf, k);
      z := AddTbl(g, z, tbl, naf, k, x, v, w);
    }
  }

  // ---------- Interleaved sums ----------

  /** ks[0] xs[0] + ks[1] xs[1] + ... */
  function Combination<P>(g: Group<P>, xs: seq<P>, ks: seq<int>): P
    requires |xs| == |ks|
  {
    if xs == [] then g.zero else g.add(Mult(g, ks[0], xs[0]), Combination(g, xs[1..], ks[1..]))
  }

  function Doubled(ks: seq<int>): seq<int> {
    seq(|ks|, i requires 0 <= i < |ks| => 2 * ks[i])
  }

  lemma {:induction false} CombinationDouble<P(!new)>(g: Group<P>, xs: seq<P>, ks: seq<int>)
    requires Abelian(g) && |xs| == |ks|
    ensures Combination(g, xs, Doubled(ks)) == g.add(Combination(g, xs, ks), Combination(g, xs, ks))
  {
    hide Abelian, Mult;
    if xs == [] {
      Unit(g, g.zero);
    } else {
      CombinationDouble(g, xs[1..], ks[1..]);
      assert Doubled(ks)[1..] == Doubled(ks[1..]);
      MultAdd(g, ks[0], ks[0], xs[0]);
      var a, b := Mult(g, ks[0], xs[0]), Combination(g, xs[1..], ks[1..]);
      Exchange(g, a, b, a, b);
    }
  }

  lemma {:induction false} CombinationBump<P(!new)>(g: Group<P>, xs: seq<P>, ks: seq<int>, j: nat, d: int)
    requires Abelian(g) && |xs| == |ks| && j < |ks|
    ensures Combination(g, xs, ks[j := ks[j] + d]) == g.add(Combination(g, xs, ks), Mult(g, d, xs[j]))
  {
    hide Abelian, Mult;
    var a, b := Mult(g, ks[0], xs[0]), Combination(g, xs[1..], ks[1..]);
    var m := Mult(g, d, xs[j]);
    if j == 0 {
      assert ks[0 := ks[0] + d][1..] == ks[1..];
      MultAdd(g, ks[0], d, xs[0]);
      Assoc(g, a, m, b);
      Comm(g, m, b);
      Assoc(g, a, b, m);
    } else {
      CombinationBump(g, xs[1..], ks[1..], j - 1, d);
      assert ks[j := ks[j] + d][1..] == ks[1..][j - 1 := ks[j] + d];
      Assoc(g, a, b, m);
    }
  }

  lemma {:induction false} CombinationZero<P(!new)>(g: Group<P>, xs: seq<P>, ks: seq<int>)
    requires Abelian(g) && |xs| == |ks| && forall i :: 0 <= i < |ks| ==> ks[i] == 0
    ensures Combination(g, xs, ks) == g.zero
  {
    hide Abelian, Mult;
    if xs != [] {
      CombinationZero(g, xs[1..], ks[1..]);
      TimesZero(g, xs[0]);
      Unit(g, g.zero);
    }
  }

  /** The coefficients after reading all digits from position k up. */
  function Tops(nafs: seq<seq<int>>, k: nat): seq<int> {
    seq(|nafs|, j requires 0 <= j < |nafs| => Digits(nafs[j], k))
  }

  /** Half way through a digit position: the first j coefficients have their digit. */
  function Partial(nafs: seq<seq<int>>, k: nat, j: nat): seq<int> {
    seq(|nafs|, t requires 0 <= t < |nafs| =>
      2 * Digits(nafs[t], k + 1) + (if t < j then DigitAt(nafs[t], k) else 0))
  }

  const MAX_MUL_VEC_N: nat := 32

  /** There is no result, where the source stops at an assertion, exactly when one of the scalars has
      no signed digits that fit. */
  method MulVecN<P(!new)>(g: Group<P>, xVec: seq<P>, yVec: seq<nat>, capacity: nat) returns (r: Option<P>, n: nat)
    requires Abelian(g) && |xVec| == |yVec|
    ensures n == if |xVec| > 32 then 32 else |xVec|
    ensures r.Some? <==> forall i :: 0 <= i < n ==> HasNaf(yVec[i], 5, capacity)
    ensures r.Some? ==> r.value == Combination(g, xVec[..n], yVec[..n])
  {
    hide Abelian, Mult, IsNaf, HasNaf, Pow2, OddTable, Combination, Digits;
    n := if |xVec| > MAX_MUL_VEC_N then MAX_MUL_VEC_N else |xVec|;
    var w := 5;
    var nafs: seq<seq<int>> := [];
    var tbl: seq<seq<P>> := [];
    var maxBit: nat := 0;
    for i := 0 to n
      invariant |nafs| == |tbl| == i
      invariant forall j :: 0 <= j < i ==> HasNaf(yVec[j], 5, capacity)
      invariant forall j :: 0 <= j < i ==> |nafs[j]| <= maxBit
      invariant forall j :: 0 <= j < i ==>
                  IsNaf(nafs[j], yVec[j], w) && |tbl[j]| == Pow2(w - 2) && OddTable(g, tbl[j], xVec[j])
    {
      var b, naf := GetNafWidth(yVec[i], w, capacity);
      if !b {
        return None, n;
      }
      if |naf| > maxBit {
        maxBit := |naf|;
      }
      var t := MakeTable(g, xVec[i], Pow2(w - 2));
      nafs := nafs + [naf];
      tbl := tbl + [t];
    }
    var z := Interleave(g, xVec[..n], nafs, tbl, maxBit, yVec[..n], w);
    r := Some(z);
  }

  /** One doubling for each digit position, and one table entry for each point. */
  method Interleave<P(!new)>(g: Group<P>, xs: seq<P>, nafs: seq<seq<int>>, tbl: seq<seq<P>>, maxBit: nat,
                             ghost ys: seq<nat>, w: nat)
    returns (z: P)
    requires Abelian(g) && w >= 2 && |xs| == |nafs| == |tbl| == |ys|
    requires forall j :: 0 <= j < |xs| ==> |nafs[j]| <= maxBit
    requires forall j :: 0 <= j < |xs| ==>
               IsNaf(nafs[j], ys[j], w) && |tbl[j]| == Pow2(w - 2) && OddTable(g, tbl[j], xs[j])
    ensures z == Combination(g, xs, ys)
  {
    hide Abelian, Mult, IsNaf, Pow2, OddTable, Combination, Digits;
    z := g.zero;
    TopsStart(nafs, maxBit);
    CombinationZero(g, xs, Tops(nafs, maxBit));
    for i := 0 to maxBit
      invariant z == Combination(g, xs, Tops(nafs, maxBit - i))
    {
      var k := maxBit - 1 - i;
      CombinationDouble(g, xs, Tops(nafs, k + 1));
      PartialStart(nafs, k);
      z := g.add(z, z);
      for j := 0 to |xs|
        invariant z == Combination(g, xs, Partial(nafs, k, j))
      {
        z := AddTbl(g, z, tbl[j], nafs[j], k, xs[j], ys[j], w);
        CombinationBump(g, xs, Partial(nafs, k, j), j, DigitAt(nafs[j], k));
        PartialStep(nafs, k, j);
      }
      PartialEnd(nafs, k);
    }
    TopsEnd(nafs, ys, w);
  }

  lemma TopsStart(nafs: seq<seq<int>>, k: nat)
    requires forall j :: 0 <= j < |nafs| ==> |nafs[j]| <= k
    ensures forall j :: 0 <= j < |nafs| ==> Tops(nafs, k)[j] == 0
  {
  }

  lemma TopsEnd(nafs: seq<seq<int>>, ys: seq<nat>, w: nat)
    requires |nafs| == |ys| && forall j :: 0 <= j < |nafs| ==> IsNaf(nafs[j], ys[j], w)
    ensures Tops(nafs, 0) == ys
  {
    hide Pow2;
  }

  lemma PartialStart(nafs: seq<seq<int>>, k: nat)
    ensures Partial(nafs, k, 0) == Doubled(Tops(nafs, k + 1))
  {
  }

  lemma PartialStep(nafs: seq<seq<int>>, k: nat, j: nat)
    requires j < |nafs|
    ensures Partial(nafs, k, j)[j := Partial(nafs, k, j)[j] + DigitAt(nafs[j], k)] == Partial(nafs, k, j + 1)
  {
  }

  lemma PartialEnd(nafs: seq<seq<int>>, k: nat)
    ensures Partial(nafs, k, |nafs|) == Tops(nafs, k)
  {
    forall t | 0 <= t < |nafs|
      ensures Partial(nafs, k, |nafs|)[t] == Tops(nafs, k)[t]
    {
      DigitsUnfold(nafs[t], k);
    }
  }
}
