/** Integer facts shared by the arithmetic models: powers, divisibility and congruence.
    Congruence is stated with an explicit multiplier so that proofs can name it. */
module Arith {

  function Abs(x: int): nat {
    if x < 0 then -x else x
  }

  function Max(x: int, y: int): int {
    if x < y then y else x
  }

  function Pow2(n: nat): (r: nat)
    ensures r >= 1
  {
    if n == 0 then 1 else 2 * Pow2(n - 1)
  }

  lemma Pow2Twice(n: nat)
    requires n > 0
    ensures Pow2(n) == 2 * Pow2(n - 1)
  {
  }

  lemma FirstPowersOfTwo()
    ensures Pow2(1) == 2 && Pow2(2) == 4 && Pow2(4) == 16
  {
  }

  lemma PowerLiterals()
    ensures Pow2(2) == 4 && Pow2(4) == 16 && Pow2(8) == 256 && Pow2(16) == 0x1_0000 && Pow2(18) == 0x4_0000
    ensures Pow2(32) == 0x1_0000_0000 && Pow2(62) == 0x4000_0000_0000_0000 && Pow2(64) == 0x1_0000_0000_0000_0000
  {
    hide Pow2;
    FirstPowersOfTwo();
    Pow2Add(4, 4);
    Pow2Add(8, 8);
    Pow2Add(16, 2);
    Pow2Add(16, 16);
    Pow2Add(32, 32);
    Pow2Add(62, 2);
  }

  lemma {:induction false} Pow2Add(a: nat, b: nat)
    ensures Pow2(a + b) == Pow2(a) * Pow2(b)
  {
    if a > 0 {
      Pow2Add(a - 1, b);
      assert Pow2(a + b) == 2 * Pow2(a - 1 + b);
    }
  }

  lemma {:induction false} Pow2Grows(a: nat, b: nat)
    requires a <= b
    ensures Pow2(a) <= Pow2(b)
  {
    if a < b {
      Pow2Grows(a, b - 1);
    }
  }

  /** Powers of two cancel from both sides of an equation. */
  lemma Pow2Cancel(a: int, b: int, z: nat, l: nat)
    requires z <= l && a * Pow2(z) == b * Pow2(l)
    ensures a == b * Pow2(l - z)
  {
    hide Pow2;
    Pow2Add(l - z, z);
    MulAssoc(b, Pow2(l - z), Pow2(z));
    CancelFactor(a, b * Pow2(l - z), Pow2(z));
  }

  lemma EvenPlus(q: int, x: int)
    ensures (2 * q + x) % 2 == x % 2
  {
  }

  lemma EvenMultiple(b: int, n: nat)
    requires n > 0
    ensures (b * Pow2(n)) % 2 == 0
  {
    hide Pow2;
    Pow2Twice(n);
    MulSwap(b, 2, Pow2(n - 1));
    EvenPlus(b * Pow2(n - 1), 0);
  }

  function Pow(b: int, e: nat): int {
    if e == 0 then 1 else b * Pow(b, e - 1)
  }

  lemma {:induction false} PowAdd(b: int, x: nat, y: nat)
    ensures Pow(b, x + y) == Pow(b, x) * Pow(b, y)
  {
    if x > 0 {
      PowAdd(b, x - 1, y);
      MulAssoc(b, Pow(b, x - 1), Pow(b, y));
      assert Pow(b, x + y) == b * Pow(b, x - 1 + y);
    }
  }

  lemma {:induction false} PowMul(b: int, x: nat, y: nat)
    ensures x * y >= 0 && Pow(Pow(b, x), y) == Pow(b, x * y)
  {
    if y > 0 {
      PowMul(b, x, y - 1);
      assert x * y == x + x * (y - 1);
      PowAdd(b, x, x * (y - 1));
    } else {
      assert x * y == 0;
    }
  }

  lemma {:induction false} PowProduct(a: int, b: int, e: nat)
    ensures Pow(a * b, e) == Pow(a, e) * Pow(b, e)
  {
    if e > 0 {
      PowProduct(a, b, e - 1);
      FourFactors(a, b, Pow(a, e - 1), Pow(b, e - 1));
    }
  }

  // ---------- Multiplication ----------

  lemma MulAssoc(x: int, y: int, z: int)
    ensures x * (y * z) == (x * y) * z
  {
  }

  lemma MulDist(x: int, y: int, c: int)
    ensures (x + y) * c == x * c + y * c && (x - y) * c == x * c - y * c
    ensures c * (x + y) == c * x + c * y && c * (x - y) == c * x - c * y
  {
  }

  lemma MulSwap(x: int, y: int, z: int)
    ensures (x * y) * z == (x * z) * y && x * (y * z) == y * (x * z)
  {
  }

  lemma FourFactors(a: int, b: int, c: int, d: int)
    ensures (a * b) * (c * d) == (a * c) * (b * d)
  {
    MulAssoc(a * b, c, d);
    MulSwap(a, b, c);
    MulAssoc(a * c, b, d);
  }

  lemma MulNeg(x: int, y: int)
    ensures (0 - x) * y == 0 - x * y && x * (0 - y) == 0 - x * y
  {
  }

  lemma MulMono(x: int, y: int, c: int)
    requires x <= y && 0 <= c
    ensures x * c <= y * c
  {
  }

  lemma AbsMul(x: int, y: int)
    ensures Abs(x * y) == Abs(x) * Abs(y)
  {
    if x < 0 {
      assert (-x) * y == -(x * y);
    }
    if y < 0 {
      assert Abs(x) * (-y) == -(Abs(x) * y);
    }
    if 0 <= x && 0 <= y {
      MulMono(0, x, y);
    } else if x < 0 && 0 <= y {
      MulMono(0, -x, y);
    } else if 0 <= x {
      MulMono(0, x, -y);
    } else {
      MulMono(0, -x, -y);
    }
  }

  function Times(k: int, m: int): int {
    k * m
  }

  ghost predicate Divides(d: int, a: int) {
    exists k: int :: a == Times(k, d)
  }

  lemma DividesIntro(d: int, a: int, k: int)
    requires a == k * d
    ensures Divides(d, a)
  {
    assert a == Times(k, d);
  }

  lemma DividesElim(d: int, a: int) returns (k: int)
    requires Divides(d, a)
    ensures a == k * d
  {
    k :| a == Times(k, d);
  }

  /** `a` and `b` differ by a multiple of `m`. */
  ghost predicate Cong(a: int, b: int, m: int) {
    exists k: int :: a == b + Times(k, m)
  }

  lemma CongIntro(a: int, b: int, m: int, k: int)
    requires a == b + k * m
    ensures Cong(a, b, m)
  {
    assert a == b + Times(k, m);
  }

  lemma CongElim(a: int, b: int, m: int) returns (k: int)
    requires Cong(a, b, m)
    ensures a == b + k * m
  {
    k :| a == b + Times(k, m);
  }

  lemma CongRefl(a: int, m: int)
    ensures Cong(a, a, m)
  {
    CongIntro(a, a, m, 0);
  }

  lemma CongSym(a: int, b: int, m: int)
    requires Cong(a, b, m)
    ensures Cong(b, a, m)
  {
    var k := CongElim(a, b, m);
    CongIntro(b, a, m, -k);
  }

  lemma CongTrans(a: int, b: int, c: int, m: int)
    requires Cong(a, b, m) && Cong(b, c, m)
    ensures Cong(a, c, m)
  {
    var k := CongElim(a, b, m);
    var l := CongElim(b, c, m);
    assert (k + l) * m == k * m + l * m;
    CongIntro(a, c, m, k + l);
  }

  lemma CongAdd(a: int, b: int, c: int, d: int, m: int)
    requires Cong(a, b, m) && Cong(c, d, m)
    ensures Cong(a + c, b + d, m)
  {
    var k := CongElim(a, b, m);
    var l := CongElim(c, d, m);
    assert (k + l) * m == k * m + l * m;
    CongIntro(a + c, b + d, m, k + l);
  }

  lemma CongSub(a: int, b: int, c: int, d: int, m: int)
    requires Cong(a, b, m) && Cong(c, d, m)
    ensures Cong(a - c, b - d, m)
  {
    var k := CongElim(a, b, m);
    var l := CongElim(c, d, m);
    assert (k - l) * m == k * m - l * m;
    CongIntro(a - c, b - d, m, k - l);
  }

  lemma CongScale(a: int, b: int, c: int, m: int)
    requires Cong(a, b, m)
    ensures Cong(c * a, c * b, m)
  {
    var k := CongElim(a, b, m);
    assert c * (b + k * m) == c * b + (c * k) * m by {
      MulAssoc(c, k, m);
    }
    CongIntro(c * a, c * b, m, c * k);
  }

  lemma CongMul(a: int, b: int, c: int, d: int, m: int)
    requires Cong(a, b, m) && Cong(c, d, m)
    ensures Cong(a * c, b * d, m)
  {
    CongScale(a, b, c, m);
    CongScale(c, d, b, m);
    assert c * a == a * c && c * b == b * c;
    CongTrans(a * c, b * c, b * d, m);
  }

  lemma CongMod(a: int, m: int)
    requires m > 0
    ensures Cong(a % m, a, m) && Cong(a, a % m, m)
  {
    CongIntro(a, a % m, m, a / m);
    CongSym(a, a % m, m);
  }

  /** Two residues in the same range that are congruent are equal. */
  lemma CongUnique(a: int, b: int, m: int)
    requires Cong(a, b, m) && 0 <= a < m && 0 <= b < m
    ensures a == b
  {
    var k := CongElim(a, b, m);
    if k >= 1 {
      MulMono(1, k, m);
    } else if k <= -1 {
      MulMono(k, -1, m);
    }
  }

  lemma CongIffMod(a: int, b: int, m: int)
    requires m > 0
    ensures Cong(a, b, m) <==> a % m == b % m
  {
    CongMod(a, m);
    CongMod(b, m);
    if Cong(a, b, m) {
      CongTrans(a % m, a, b, m);
      CongTrans(a % m, b, b % m, m);
      CongUnique(a % m, b % m, m);
    }
    if a % m == b % m {
      CongTrans(a, a % m, b, m);
    }
  }

  /** A congruence survives passing to a divisor of the modulus. */
  lemma CongWeaken(a: int, b: int, m: int, c: int)
    requires Cong(a, b, c * m)
    ensures Cong(a, b, m)
  {
    var k := CongElim(a, b, c * m);
    MulAssoc(k, c, m);
    CongIntro(a, b, m, k * c);
  }

  lemma CongPow2Weaken(a: int, b: int, i: nat, j: nat)
    requires Cong(a, b, Pow2(i)) && j <= i
    ensures Cong(a, b, Pow2(j))
  {
    Pow2Add(i - j, j);
    CongWeaken(a, b, Pow2(j), Pow2(i - j));
  }

  lemma {:induction false} CongPow(a: int, b: int, e: nat, m: int)
    requires Cong(a, b, m)
    ensures Cong(Pow(a, e), Pow(b, e), m)
  {
    if e == 0 {
      CongRefl(1, m);
    } else {
      CongPow(a, b, e - 1, m);
      CongMul(a, b, Pow(a, e - 1), Pow(b, e - 1), m);
    }
  }

  lemma OddTimesOdd(x: int, y: int)
    requires y % 2 == 1
    ensures (x * y) % 2 == x % 2
  {
    var l := y / 2;
    MulDist(2 * l, 1, x);
    MulSwap(x, 2, l);
    EvenPlus(x * l, x);
  }

  /** A factor of two can be cancelled modulo an odd number. */
  lemma CancelTwo(a: int, m: int)
    requires m % 2 == 1 && Divides(m, 2 * a)
    ensures Divides(m, a)
  {
    hide Divides;
    var k := DividesElim(m, 2 * a);
    OddTimesOdd(k, m);
    EvenPlus(a, 0);
    var h := k / 2;
    MulAssoc(2, h, m);
    DividesIntro(m, a, h);
  }

  lemma {:induction false} CancelPow2(n: nat, a: int, m: int)
    requires m % 2 == 1 && Divides(m, Pow2(n) * a)
    ensures Divides(m, a)
  {
    if n > 0 {
      MulAssoc(2, Pow2(n - 1), a);
      CancelTwo(Pow2(n - 1) * a, m);
      CancelPow2(n - 1, a, m);
    }
  }

  lemma CongZeroMultiple(k: int, m: int)
    ensures Cong(k * m, 0, m)
  {
    CongIntro(k * m, 0, m, k);
  }

  /** Exact division by a positive number. */
  lemma ExactQuotient(a: int, q: int, d: int)
    requires d > 0 && a == q * d
    ensures a / d == q && a % d == 0
  {
    var t := q - a / d;
    assert t * d == a % d;
    if t >= 1 {
      MulMono(1, t, d);
    } else if t <= -1 {
      MulMono(t, -1, d);
    }
  }

  lemma QuotientIs(x: int, q: int, r: int, d: int)
    requires d > 0 && x == q * d + r && 0 <= r < d
    ensures x / d == q && x % d == r
  {
    var t := q - x / d;
    MulDist(q, x / d, d);
    if t >= 1 {
      MulMono(1, t, d);
    } else if t <= -1 {
      MulMono(t, -1, d);
    }
  }

  lemma QuotientNat(x: nat, d: nat)
    requires d > 0
    ensures x / d >= 0 && x == (x / d) * d + x % d && 0 <= x % d < d
  {
    if x / d < 0 {
      MulMono(x / d, -1, d);
    }
  }

  /** A right shift by s bits. */
  function Shr(x: nat, s: nat): nat {
    QuotientNat(x, Pow2(s));
    x / Pow2(s)
  }

  lemma CancelFactor(a: int, b: int, d: int)
    requires d > 0 && a * d == b * d
    ensures a == b
  {
    ExactQuotient(a * d, a, d);
    ExactQuotient(b * d, b, d);
  }
}
