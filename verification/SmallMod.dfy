/** Word-level reduction of `mcl/bint.hpp`: the approximate quotient of SmallModP and the
    Montgomery coefficient. */
module SmallMod {
  import opened Arith

  const D: nat := 16
  const MAX_E: nat := 14

  function BitSize(x: nat): (r: nat) {
    if x == 0 then 0 else 1 + BitSize(x / 2)
  }

  lemma {:induction false} BitSizeBounds(x: nat)
    ensures x < Pow2(BitSize(x))
    ensures x > 0 ==> BitSize(x) > 0 && Pow2(BitSize(x) - 1) <= x
  {
    if x > 1 {
      BitSizeBounds(x / 2);
    }
  }

  datatype Quotient = TooLarge | Quot(q: nat)

  /** The true quotient x / p lies one step at most above the approximation. */
  ghost predicate OffByOne(q: nat, x: nat, p: nat) {
    q * p <= x < (q + 2) * p
  }

  /** The scaled reciprocal that `init` computes. */
  function Reciprocal(p: nat): nat
    requires p > 0
  {
    QuotientNat(Pow2(D + BitSize(p) - 1), p);
    Pow2(D + BitSize(p) - 1) / p
  }

  /** The low 32 bits of n, then a quotient. */
  function LowQuotient(n: nat, s: nat): nat
    requires s > 0
  {
    QuotientNat(n % 0x1_0000_0000, s);
    (n % 0x1_0000_0000) / s
  }

  class SmallModP {
    const p: nat
    const l: nat
    const p0: nat

    ghost predicate Valid() {
      && p > 0 && l == BitSize(p)
      && p0 == Reciprocal(p)
    }

    constructor (m: nat)
      requires m > 0
      ensures Valid() && p == m && l == BitSize(m)
      ensures p0 * m <= Pow2(15 + l) < (p0 + 1) * m
      // the table entry fits the 32-bit field
      ensures p0 <= Pow2(D)
    {
      hide Pow2;
      var bits := BitSize(m);
      ReciprocalBound(m);
      p, l := m, bits;
      p0 := Reciprocal(m);
      DivBounds(Pow2(D + bits - 1), m);
    }

    /** 32-bit product, then a shift. */
    function Approx(x0: nat, a: nat): nat
      requires a <= 2 * D + l - 1
    {
      LowQuotient(x0 * p0, Pow2(2 * D + l - 1 - a))
    }

    /** Reads no bits below bit zero of x, which cannot happen for moduli of 16 bits or more. */
    method QuotOf(x: nat) returns (r: Quotient)
      requires Valid() && (BitSize(x) < l || BitSize(x) >= 16 || BitSize(x) > l + 13)
      ensures r.TooLarge? <==> BitSize(x) > l + 13
      ensures r.Quot? ==> OffByOne(r.q, x, p)
      ensures r == QuotSpec(p, x)
    {
      hide Pow2, BitSize, OffByOne;
      var a := BitSize(x);
      if a < l {
        ShortInput(p, x);
        return Quot(0);
      }
      var e := a - l + 1;
      if e > MAX_E {
        return TooLarge;
      }
      var x0 := Shr(x, a - D);
      ApproxRight(p, x, a, l, p0, x0);
      return Quot(Approx(x0, a));
    }

    /** Returns a number congruent to x below 2p, and x mod p itself unless the approximate
        quotient is zero while x is not below p. */
    method Mod(x: nat) returns (r: Quotient)
      requires Valid() && (BitSize(x) < l || BitSize(x) >= 16 || BitSize(x) > l + 13)
      ensures r == ModSpec(p, x)
      ensures r.TooLarge? <==> BitSize(x) > l + 13
      ensures r.Quot? ==> Cong(r.q, x, p) && r.q < 2 * p
      ensures r.Quot? ==> (r.q == x % p <==> QuotSpec(p, x).q >= 1 || x < p)
    {
      hide Pow2, BitSize, Cong, QuotSpec;
      var q := QuotOf(x);
      if q.TooLarge? {
        return TooLarge;
      }
      Remainders(q.q, x, p);
      if q.q == 0 {
        return Quot(x);
      }
      var t: nat := x - q.q * p;
      if t >= p {
        return Quot(t - p);
      }
      return Quot(t);
    }
  }

  /** The quotient as a function of the inputs alone. */
  function QuotSpec(p: nat, x: nat): Quotient
    requires p > 0
  {
    var l, a := BitSize(p), BitSize(x);
    if a < l then Quot(0)
    else if a - l + 1 > MAX_E || a < D then TooLarge
    else
      Quot(LowQuotient(Shr(x, a - D) * Reciprocal(p), Pow2(2 * D + l - 1 - a)))
  }

  /** What `mod` leaves, as a function of the inputs alone. */
  function ModSpec(p: nat, x: nat): Quotient
    requires p > 0
  {
    match QuotSpec(p, x)
    case TooLarge => TooLarge
    case Quot(q) =>
      if q == 0 || x < q * p then Quot(x)
      else if x - q * p >= p then Quot(x - q * p - p)
      else Quot(x - q * p)
  }

  /** 2^(15+l) / p is at most 2^16. */
  lemma ReciprocalBound(m: nat)
    requires m > 0
    ensures BitSize(m) >= 1 && Reciprocal(m) <= Pow2(D)
  {
    hide Pow2, BitSize;
    BitSizeBounds(m);
    var l := BitSize(m);
    Pow2Add(D, l - 1);
    ReciprocalCore(Pow2(D + l - 1), Pow2(l - 1), Pow2(D), m);
  }

  lemma ReciprocalCore(n: nat, a: nat, c: nat, m: nat)
    requires n == c * a && 0 < a <= m
    ensures n / m <= c
  {
    MulMono(a, m, c);
    DivBound(n, c, m);
  }

  lemma DivBound(n: nat, c: nat, m: nat)
    requires m > 0 && n <= c * m
    ensures n / m <= c
  {
    var q := n / m;
    if q > c {
      MulMono(c + 1, q, m);
      MulDist(c, 1, m);
    }
  }

  lemma ShortInput(p: nat, x: nat)
    requires BitSize(x) < BitSize(p)
    ensures x < p && OffByOne(0, x, p)
  {
    BitSizeBounds(p);
    BitSizeBounds(x);
    Pow2Grows(BitSize(x), BitSize(p) - 1);
    hide Pow2, BitSize;
  }

  /** The heart of the bound, on plain numbers: with B S = N, x = x0 B + .., N = p0 p + ..,
      the truncated product x0 p0 / S misses x / p by less than two. */
  lemma ErrorBound(x: nat, p: nat, x0: nat, p0: nat, b: nat, s: nat, q: nat)
    requires p > 0 && b > 0 && s > 0
    requires x0 * b <= x < (x0 + 1) * b
    requires p0 * p <= b * s < (p0 + 1) * p
    requires q * s <= x0 * p0 < (q + 1) * s
    requires p0 + x0 + 1 <= s
    ensures OffByOne(q, x, p)
  {
    UpperSide(x, p, x0, p0, b, s, q);
    LowerSide(x, p, x0, p0, b, s, q);
  }

  lemma UpperSide(x: nat, p: nat, x0: nat, p0: nat, b: nat, s: nat, q: nat)
    requires s > 0 && x0 * b <= x && p0 * p <= b * s && q * s <= x0 * p0
    ensures q * p <= x
  {
    MulMono(q * s, x0 * p0, p);
    MulAssoc(x0, p0, p);
    MulMono(p0 * p, b * s, x0);
    MulAssoc(x0, b, s);
    MulMono(x0 * b, x, s);
    MulSwap(q, s, p);
    CancelLe(q * p, x, s);
  }

  lemma CancelLe(a: int, b: int, s: int)
    requires s > 0 && a * s <= b * s
    ensures a <= b
  {
    if a > b {
      MulMono(b + 1, a, s);
      MulDist(b, 1, s);
    }
  }

  lemma LowerSide(x: nat, p: nat, x0: nat, p0: nat, b: nat, s: nat, q: nat)
    requires s > 0 && p > 0 && x < (x0 + 1) * b && b * s < (p0 + 1) * p && x0 * p0 < (q + 1) * s
    requires p0 + x0 + 1 <= s
    ensures x < (q + 2) * p
  {
    // x s < (x0+1) (b s) < (x0+1) (p0+1) p <= (q+2) s p
    ScaleLt(x, (x0 + 1) * b, s);
    MulAssoc(x0 + 1, b, s);
    ScaleLt(b * s, (p0 + 1) * p, x0 + 1);
    MulAssoc(x0 + 1, p0 + 1, p);
    ProductOfTops(x0, p0, q, s);
    MulMono((x0 + 1) * (p0 + 1), (q + 2) * s, p);
    MulSwap(q + 2, s, p);
    CancelLt(x, (q + 2) * p, s);
  }

  lemma ScaleLt(a: int, b: int, c: int)
    requires a < b && c > 0
    ensures a * c < b * c && c * a < c * b
  {
    MulMono(a + 1, b, c);
    MulDist(a, 1, c);
  }

  lemma ProductOfTops(x0: nat, p0: nat, q: nat, s: nat)
    requires x0 * p0 < (q + 1) * s && p0 + x0 + 1 <= s
    ensures (x0 + 1) * (p0 + 1) <= (q + 2) * s
  {
    MulDist(x0, 1, p0 + 1);
    MulDist(p0, 1, x0);
    MulDist(q + 1, 1, s);
  }

  lemma CancelLt(a: int, b: int, s: int)
    requires s > 0 && a * s < b * s
    ensures a < b
  {
    if a >= b {
      MulMono(b, a, s);
    }
  }

  lemma DivBounds(n: nat, d: nat)
    requires d > 0
    ensures (n / d) * d <= n < (n / d + 1) * d
  {
    MulDist(n / d, 1, d);
  }

  lemma ApproxRight(p: nat, x: nat, a: nat, l: nat, p0: nat, x0: nat)
    requires p > 0 && l == BitSize(p) && a >= D && p0 == Reciprocal(p)
    requires a == BitSize(x) && l <= a && a - l + 1 <= MAX_E && x0 == Shr(x, a - D)
    ensures x0 * p0 < 0x1_0000_0000
    ensures OffByOne(LowQuotient(x0 * p0, Pow2(2 * D + l - 1 - a)), x, p)
  {
    hide OffByOne;
    ShiftSizes(p, x, a, l);
    hide Pow2, BitSize;
    var b, s := Pow2(a - D), Pow2(2 * D + l - 1 - a);
    DivBounds(x, b);
    DivBounds(b * s, p);
    TopBits(x, x0, b);
    ApproxCore(x, p, x0, p0, b, s);
  }

  lemma ShiftSizes(p: nat, x: nat, a: nat, l: nat)
    requires p > 0 && l == BitSize(p) && a >= D && a == BitSize(x) && l <= a && a - l + 1 <= MAX_E
    ensures Pow2(a - D) * Pow2(2 * D + l - 1 - a) == Pow2(D + l - 1)
    ensures x < Pow2(a - D) * 0x1_0000 && Pow2(2 * D + l - 1 - a) >= 0x4_0000
    ensures Pow2(D + l - 1) / p <= 0x1_0000
  {
    hide Pow2, BitSize;
    BitSizeBounds(x);
    ReciprocalBound(p);
    PowerLiterals();
    Pow2Add(a - D, 2 * D + l - 1 - a);
    Pow2Add(a - D, D);
    Pow2Grows(18, 2 * D + l - 1 - a);
  }

  lemma ApproxCore(x: nat, p: nat, x0: nat, p0: nat, b: nat, s: nat)
    requires p > 0 && b > 0 && s >= 0x4_0000
    requires x0 * b <= x < (x0 + 1) * b && x0 <= 0xffff
    requires p0 * p <= b * s < (p0 + 1) * p && p0 <= 0x1_0000
    ensures x0 * p0 < 0x1_0000_0000
    ensures OffByOne(LowQuotient(x0 * p0, s), x, p)
  {
    hide OffByOne;
    Product32(x0, p0);
    var n := x0 * p0;
    DivBounds(n, s);
    QuotientNat(n, s);
    var q := n / s;
    ErrorBound(x, p, x0, p0, b, s, q);
  }

  lemma Product32(x0: nat, p0: nat)
    requires x0 <= 0xffff && p0 <= 0x1_0000
    ensures x0 * p0 < 0x1_0000_0000 && (x0 * p0) % 0x1_0000_0000 == x0 * p0
  {
    MulMono(x0, 0xffff, p0);
    MulMono(0, x0, p0);
    SmallMod32(x0 * p0);
  }

  lemma SmallMod32(n: nat)
    requires n < 0x1_0000_0000
    ensures n % 0x1_0000_0000 == n
  {
  }

  lemma TopBits(x: nat, x0: nat, b: nat)
    requires b > 0 && x0 * b <= x && x < b * 0x1_0000
    ensures x0 <= 0xffff
  {
    if x0 >= 0x1_0000 {
      MulMono(0x1_0000, x0, b);
    }
  }

  lemma Remainders(q: nat, x: nat, p: nat)
    requires p > 0 && OffByOne(q, x, p)
    ensures q * p <= x
    ensures var t := x - q * p;
            && (t < p ==> x % p == t) && (p <= t ==> x % p == t - p && t < 2 * p)
            && (q == 0 ==> x < 2 * p && Cong(x, x, p))
            && Cong(t, x, p) && Cong(t - p, x, p)
  {
    var t := x - q * p;
    hide Cong;
    MulDist(q, 2, p);
    MulDist(q, 1, p);
    MulNeg(q, p);
    MulNeg(q + 1, p);
    CongIntro(t, x, p, 0 - q);
    CongIntro(t - p, x, p, 0 - (q + 1));
    CongRefl(x, p);
    if t < p {
      QuotientIs(x, q, t, p);
    } else {
      QuotientIs(x, q + 1, t - p, p);
    }
  }

  /** The shortcut for a zero quotient does leave unreduced values: 65537 comes out of a reduction
      modulo 65537. */
  lemma UnreducedExample()
    ensures QuotSpec(65537, 65537) == Quot(0) && ModSpec(65537, 65537) == Quot(65537)
    ensures 65537 % 65537 == 0
  {
    hide Pow2, BitSize;
    ExampleSize();
    PowerLiterals();
    Pow2Twice(32);
    assert 65537 / 2 == 32768;
    assert 0x1_0000_0000 / 65537 == 65535;
  }

  lemma ExampleSize()
    ensures BitSize(65537) == 17 && Pow2(1) == 2
  {
    BitSizeDoubled(1, 15);
    hide Pow2;
    FirstPowersOfTwo();
    PowerLiterals();
    Pow2Twice(16);
    assert BitSize(1) == 1;
    assert BitSize(65537) == 1 + BitSize(32768);
  }

  lemma {:induction false} BitSizeDoubled(h: nat, n: nat)
    requires h > 0
    ensures BitSize(h * Pow2(n)) == BitSize(h) + n
  {
    if n > 0 {
      BitSizeDoubled(h, n - 1);
      MulSwap(h, 2, Pow2(n - 1));
      MulMono(1, h, Pow2(n - 1));
    }
  }

  // ---------- Montgomery coefficient ----------

  const WORD: nat := 0x1_0000_0000_0000_0000

  /** After i turns: p pp = 2^i t + 2^i - 1 modulo 2^64, even when t + p has wrapped. */
  ghost predicate MontInv(p: nat, pp: nat, t: nat, i: nat) {
    Cong(p * pp, Pow2(i) * t + Pow2(i) - 1, WORD)
  }

  lemma MontStep(p: nat, pp: nat, t: nat, i: nat, pp': nat, t1: nat)
    requires p % 2 == 1 && MontInv(p, pp, t, i)
    requires t % 2 == 0 ==> pp' == pp + Pow2(i) && t1 == (t + p) % WORD
    requires t % 2 == 1 ==> pp' == pp && t1 == t
    ensures MontInv(p, pp', t1 / 2, i + 1)
  {
    hide Pow2, Cong;
    var x, h := Pow2(i), t1 / 2;
    Pow2Twice(i + 1);
    OddTurn(p, t, t1);
    if t % 2 == 0 {
      MontAdd(p, pp, t, x, t1);
    }
    MulSwap(2, x, h);
    MulDist(2 * h, 1, x);
  }

  lemma OddTurn(p: nat, t: nat, t1: nat)
    requires p % 2 == 1 && t1 == if t % 2 == 0 then (t + p) % WORD else t
    ensures t1 == 2 * (t1 / 2) + 1
  {
    if t % 2 == 0 {
      var q := (t + p) / WORD;
      assert t1 == t + p - 2 * (q * 0x8000_0000_0000_0000);
    }
  }

  /** An even rest takes one more multiple of p. */
  lemma MontAdd(p: nat, pp: nat, t: nat, x: nat, t1: nat)
    requires Cong(p * pp, x * t + x - 1, WORD) && t1 == (t + p) % WORD
    ensures Cong(p * (pp + x), x * t1 + x - 1, WORD)
  {
    hide Cong;
    MulDist(pp, x, p);
    CongRefl(p * x, WORD);
    CongAdd(p * pp, x * t + x - 1, p * x, p * x, WORD);
    CongMod(t + p, WORD);
    CongScale(t + p, t1, x, WORD);
    MulDist(t, p, x);
    CongRefl(x - 1, WORD);
    CongAdd(x * (t + p), x * t1, x - 1, x - 1, WORD);
    CongTrans(p * (pp + x), x * (t + p) + (x - 1), x * t1 + (x - 1), WORD);
  }

  method GetMontgomeryCoeff(pLow: nat, bitSize: nat) returns (pp: nat)
    requires pLow < WORD && pLow % 2 == 1 && bitSize <= 64
    ensures (pLow * pp + 1) % Pow2(bitSize) == 0
    ensures pp < Pow2(bitSize)
  {
    hide Pow2, MontInv, Cong;
    pp := 0;
    var t: nat := 0;
    var x: nat := 1;
    MontStart(pLow);
    for i := 0 to bitSize
      invariant t < WORD && pp < Pow2(i) && x == Pow2(i) % WORD
      invariant MontInv(pLow, pp, t, i)
    {
      ghost var pp0, t0 := pp, t;
      WordPower(i);
      if t % 2 == 0 {
        t := (t + pLow) % WORD;
        pp := pp + x;
      }
      MontStep(pLow, pp0, t0, i, pp, t);
      t := t / 2;
      x := (2 * x) % WORD;
    }
    MontEnd(pLow, pp, t, bitSize);
  }

  lemma MontStart(p: nat)
    ensures Pow2(0) == 1 && MontInv(p, 0, 0, 0)
  {
    CongRefl(0, WORD);
  }

  lemma WordPower(i: nat)
    requires i < 64
    ensures Pow2(i) % WORD == Pow2(i) && Pow2(i + 1) == 2 * Pow2(i)
  {
    hide Pow2;
    Pow2Grows(i + 1, 64);
    PowerLiterals();
    Pow2Twice(i + 1);
    QuotientIs(Pow2(i), 0, Pow2(i), WORD);
  }

  lemma MontEnd(p: nat, pp: nat, t: nat, b: nat)
    requires b <= 64 && MontInv(p, pp, t, b)
    ensures (p * pp + 1) % Pow2(b) == 0
  {
    PowerLiterals();
    hide Pow2, Cong;
    CongPow2Weaken(p * pp, Pow2(b) * t + Pow2(b) - 1, 64, b);
    var k := CongElim(p * pp, Pow2(b) * t + Pow2(b) - 1, Pow2(b));
    MulDist(k + t, 1, Pow2(b));
    MulDist(k, t, Pow2(b));
    ExactQuotient(p * pp + 1, k + t + 1, Pow2(b));
  }
}
