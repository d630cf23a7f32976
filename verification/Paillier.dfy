/** Paillier encryption (`mcl/paillier.hpp`): decryption undoes encryption, and the product of
    ciphertexts decrypts to the sum of their messages. */
module Paillier {
  import opened Arith
  import opened Wrappers

  /** Modular power of the big-integer library. */
  function PowMod(b: int, e: nat, m: nat): (r: int)
    requires m > 0
    ensures 0 <= r < m
  {
    Pow(b, e) % m
  }

  /** Quotient truncated toward zero, as the big-integer library divides. */
  function TruncDiv(a: int, b: nat): int
    requires b > 0
  {
    if a >= 0 then a / b else 0 - (0 - a) / b
  }

  // ---------- Algebra ----------

  /** Powers of 1 + n modulo n squared are linear in the exponent. */
  lemma {:induction false} PowersAreLinear(n: int, k: nat)
    ensures Cong(Pow(1 + n, k), 1 + k * n, n * n)
  {
    hide Cong;
    if k == 0 {
      CongRefl(1, n * n);
    } else {
      PowersAreLinear(n, k - 1);
      CongScale(Pow(1 + n, k - 1), 1 + (k - 1) * n, 1 + n, n * n);
      LinearStep(n, k);
      CongIntro((1 + n) * (1 + (k - 1) * n), 1 + k * n, n * n, k - 1);
      CongTrans(Pow(1 + n, k), (1 + n) * (1 + (k - 1) * n), 1 + k * n, n * n);
    }
  }

  lemma LinearStep(n: int, k: int)
    ensures (1 + n) * (1 + (k - 1) * n) == 1 + k * n + (k - 1) * (n * n)
  {
    var j := (k - 1) * n;
    MulDist(1, n, 1 + j);
    MulDist(1, j, n);
    MulAssoc(k - 1, n, n);
    MulDist(k, 1, n);
  }

  // ---------- Ciphertexts ----------

  /** Blinding that decryption removes: a number whose lambda-th power is 1. */
  ghost predicate Blinds(u: int, n: nat, lambda: nat) {
    Cong(Pow(u, lambda), 1, n * n)
  }

  /** c is (1 + n)^m times some blinding. */
  ghost predicate Hides(c: int, m: nat, n: nat, lambda: nat) {
    exists u: int :: HidesWith(c, m, u, n, lambda)
  }

  ghost predicate HidesWith(c: int, m: nat, u: int, n: nat, lambda: nat) {
    Blinds(u, n, lambda) && Cong(c, Pow(1 + n, m) * u, n * n)
  }

  lemma BlindingsMultiply(u: int, v: int, n: nat, lambda: nat)
    requires Blinds(u, n, lambda) && Blinds(v, n, lambda)
    ensures Blinds(u * v, n, lambda)
  {
    hide Cong, Pow;
    PowProduct(u, v, lambda);
    CongMul(Pow(u, lambda), 1, Pow(v, lambda), 1, n * n);
  }

  lemma HiddenProduct(c: int, x: nat, d: int, y: nat, n: nat, lambda: nat)
    requires n > 0 && Hides(c, x, n, lambda) && Hides(d, y, n, lambda)
    ensures n * n > 0 && Hides((c * d) % (n * n), x + y, n, lambda)
  {
    hide Cong, Pow, Blinds;
    var u: int :| HidesWith(c, x, u, n, lambda);
    var v: int :| HidesWith(d, y, v, n, lambda);
    BlindingsMultiply(u, v, n, lambda);
    var a, b := Pow(1 + n, x), Pow(1 + n, y);
    CongMul(c, a * u, d, b * v, n * n);
    PowAdd(1 + n, x, y);
    FourFactors(a, u, b, v);
    Square(n);
    CongMod(c * d, n * n);
    CongTrans((c * d) % (n * n), c * d, (a * b) * (u * v), n * n);
    assert HidesWith((c * d) % (n * n), x + y, u * v, n, lambda);
  }

  lemma Square(n: nat)
    requires n > 0
    ensures n * n >= n > 0
  {
    MulMono(1, n, n);
  }

  /** The lambda-th power of a ciphertext forgets the blinding. */
  lemma PowerOfHidden(c: int, m: nat, n: nat, lambda: nat)
    requires Hides(c, m, n, lambda)
    ensures m * lambda >= 0 && Cong(Pow(c, lambda), 1 + m * lambda * n, n * n)
  {
    hide Cong, Pow;
    var u: int :| HidesWith(c, m, u, n, lambda);
    var g := Pow(1 + n, m);
    CongPow(c, g * u, lambda, n * n);
    PowProduct(g, u, lambda);
    PowMul(1 + n, m, lambda);
    PowersAreLinear(n, m * lambda);
    CongMul(Pow(g, lambda), 1 + m * lambda * n, Pow(u, lambda), 1, n * n);
    CongTrans(Pow(c, lambda), Pow(g * u, lambda), 1 + m * lambda * n, n * n);
  }

  // ---------- Keys ----------

  /** The decryption formula. */
  function Dec(c: int, n: nat, lambda: nat, invLambda: int): int
    requires n > 0 && n * n > 0
  {
    TruncDiv(PowMod(c, lambda, n * n) - 1, n) % n * invLambda % n
  }

  /** Decryption recovers a hidden message modulo n. */
  lemma DecRecovers(c: int, m: nat, n: nat, lambda: nat, invLambda: int)
    requires n > 1 && Hides(c, m, n, lambda) && Cong(lambda * invLambda, 1, n)
    ensures n * n > 0 && Dec(c, n, lambda, invLambda) == m % n
  {
    hide Cong, Pow, Hides;
    Square(n);
    PowerOfHidden(c, m, n, lambda);
    var w := m * lambda;
    var l := PowMod(c, lambda, n * n);
    CongMod(Pow(c, lambda), n * n);
    CongTrans(l, Pow(c, lambda), 1 + w * n, n * n);
    var t := LinearQuotient(l, w, n);
    MulCong(t, w, m, lambda, invLambda, n);
  }

  /** l - 1 is an exact multiple of n, congruent to w times n. */
  lemma LinearQuotient(l: int, w: int, n: nat) returns (t: int)
    requires n > 1 && l >= 0 && Cong(l, 1 + w * n, n * n)
    ensures TruncDiv(l - 1, n) == t && Cong(t, w, n)
  {
    var k := CongElim(l, 1 + w * n, n * n);
    t := w + k * n;
    MulAssoc(k, n, n);
    MulDist(w, k * n, n);
    assert l - 1 == t * n;
    if t < 0 {
      MulMono(t, -1, n);
    }
    MulMono(0, t, n);
    ExactQuotient(l - 1, t, n);
    CongIntro(t, w, n, k);
  }

  lemma MulCong(t: int, w: int, m: int, lambda: int, invLambda: int, n: nat)
    requires n > 1 && Cong(t, w, n) && w == m * lambda && Cong(lambda * invLambda, 1, n)
    ensures t % n * invLambda % n == m % n
  {
    hide Cong;
    CongMod(t, n);
    CongTrans(t % n, t, w, n);
    CongScale(t % n, w, invLambda, n);
    MulSwap(m, lambda, invLambda);
    MulAssoc(m, lambda, invLambda);
    CongScale(lambda * invLambda, 1, m, n);
    CongTrans(t % n * invLambda, m * (lambda * invLambda), m, n);
    CongIffMod(t % n * invLambda, m, n);
  }

  class PublicKey {
    var primeBitSize: nat
    var g: int
    var n: nat
    var n2: nat

    ghost predicate Valid()
      reads this
    {
      primeBitSize > 0 ==> n > 1 && g == 1 + n && n2 == n * n
    }

    constructor ()
      ensures Valid() && primeBitSize == 0
    {
      primeBitSize, g, n, n2 := 0, 0, 0, 0;
    }

    method Init(bits: nat, modulus: nat)
      requires modulus > 1
      modifies this
      ensures Valid() && primeBitSize == bits && n == modulus
    {
      primeBitSize := bits;
      n := modulus;
      g := 1 + modulus;
      n2 := modulus * modulus;
    }

    /** r is the random number drawn; it blinds when r^n does. */
    method Enc(m: nat, r: nat, ghost lambda: nat) returns (c: Option<int>)
      requires Valid()
      ensures c.None? <==> primeBitSize == 0
      ensures c.Some? && Blinds(Pow(r, n), n, lambda) ==> Hides(c.value, m, n, lambda)
    {
      hide Cong, Pow, Blinds;
      if primeBitSize == 0 {
        return None;
      }
      Square(n);
      var a := PowMod(g, m, n2);
      var b := PowMod(r, n, n2);
      c := Some((a * b) % n2);
      CongMod(Pow(g, m), n2);
      CongMod(Pow(r, n), n2);
      CongMod(a * b, n2);
      CongMul(a, Pow(g, m), b, Pow(r, n), n2);
      CongTrans(c.value, a * b, Pow(g, m) * Pow(r, n), n2);
      if Blinds(Pow(r, n), n, lambda) {
        assert HidesWith(c.value, m, Pow(r, n), n, lambda);
      }
    }

    /** Adding ciphertexts adds messages. */
    method Add(cx: int, cy: int, ghost x: nat, ghost y: nat, ghost lambda: nat) returns (cz: int)
      requires Valid() && primeBitSize > 0
      ensures Hides(cx, x, n, lambda) && Hides(cy, y, n, lambda) ==> Hides(cz, x + y, n, lambda)
    {
      hide Hides;
      Square(n);
      cz := (cx * cy) % n2;
      if Hides(cx, x, n, lambda) && Hides(cy, y, n, lambda) {
        HiddenProduct(cx, x, cy, y, n, lambda);
      }
    }
  }

  class SecretKey {
    var n: nat
    var n2: nat
    var lambda: nat
    var invLambda: int

    /** The state after initialisation from two primes. */
    ghost predicate Valid()
      reads this
    {
      n > 1 && n2 == n * n && Cong(lambda * invLambda, 1, n)
    }

    /** The inverse comes from the big-integer library. */
    constructor (p: nat, q: nat, inverse: int)
      requires p > 1 && q > 1 && Cong((p - 1) * (q - 1) * inverse, 1, p * q)
      ensures Valid() && n == p * q && lambda == (p - 1) * (q - 1)
    {
      MulMono(2, p, q);
      MulMono(0, p - 1, q - 1);
      lambda := (p - 1) * (q - 1);
      n := p * q;
      n2 := (p * q) * (p * q);
      invLambda := inverse;
    }

    method Dec(c: int) returns (m: int)
      requires Valid()
      ensures 0 <= m < n
      ensures forall x: nat :: Hides(c, x, n, lambda) ==> m == x % n
    {
      hide Hides, Cong, Pow;
      Square(n);
      var l := PowMod(c, lambda, n2);
      l := TruncDiv(l - 1, n) % n;
      m := (l * invLambda) % n;
      forall x: nat | Hides(c, x, n, lambda)
        ensures m == x % n
      {
        DecRecovers(c, x, n, lambda, invLambda);
      }
    }
  }

  // ---------- Sums ----------

  function Sum(ms: seq<nat>): nat {
    if ms == [] then 0 else Sum(ms[..|ms| - 1]) + ms[|ms| - 1]
  }

  /** Ciphertexts added from the left. */
  function AddAll(cs: seq<int>, n: nat): int
    requires cs != [] && n * n > 0
  {
    if |cs| == 1 then cs[0] else (AddAll(cs[..|cs| - 1], n) * cs[|cs| - 1]) % (n * n)
  }

  lemma {:induction false} SumIsHidden(cs: seq<int>, ms: seq<nat>, n: nat, lambda: nat)
    requires n > 1 && n * n > 0 && cs != [] && |cs| == |ms|
    requires forall i :: 0 <= i < |cs| ==> Hides(cs[i], ms[i], n, lambda)
    ensures Hides(AddAll(cs, n), Sum(ms), n, lambda)
  {
    hide Hides;
    var k := |cs| - 1;
    if k == 0 {
      assert Sum(ms[..0]) == 0;
    } else {
      SumIsHidden(cs[..k], ms[..k], n, lambda);
      HiddenProduct(AddAll(cs[..k], n), Sum(ms[..k]), cs[k], ms[k], n, lambda);
    }
  }

  /** Any sum of ciphertexts decrypts to the sum of the messages modulo n. */
  lemma SumDecrypts(cs: seq<int>, ms: seq<nat>, n: nat, lambda: nat, invLambda: int)
    requires n > 1 && n * n > 0 && cs != [] && |cs| == |ms| && Cong(lambda * invLambda, 1, n)
    requires forall i :: 0 <= i < |cs| ==> Hides(cs[i], ms[i], n, lambda)
    ensures Dec(AddAll(cs, n), n, lambda, invLambda) == Sum(ms) % n
  {
    hide Hides, Cong, Dec, Sum, AddAll;
    SumIsHidden(cs, ms, n, lambda);
    DecRecovers(AddAll(cs, n), Sum(ms), n, lambda, invLambda);
  }
}
