/** ECDSA of `mcl/ecdsa.hpp` over any abelian group with a base point of prime order: every
    signature made is accepted, and of a signature and its mirror image just one is. */
module Ecdsa {
  import opened Arith
  import opened ByteStrings
  import opened Field
  import opened Groups
  import opened Wrappers

  /** Group, base point, order of the base point, and first coordinates. */
  datatype Curve<!P> = Curve(g: Group<P>, base: P, n: nat, x: P -> int)

  datatype Signature = Signature(r: int, s: int)

  ghost predicate Suitable<P(!new)>(c: Curve<P>) {
    && Abelian(c.g) && Prime(c.n) && c.n % 2 == 1
    && Mult(c.g, c.n, c.base) == c.g.zero
    && forall q: P {:trigger One(q)} :: One(q) ==> c.x(c.g.neg(q)) == c.x(q)
  }

  // ---------- Verification ----------

  predicate Low(s: int, n: nat) {
    s < (n + 1) / 2
  }

  /** The point that verification computes. */
  function Recovered<P>(c: Curve<P>, r: int, s: int, pub: P, z: int): P
    requires c.n > 0
  {
    c.g.add(Mult(c.g, FDiv(z, s, c.n), c.base), Mult(c.g, FDiv(r, s, c.n), pub))
  }

  predicate Matches<P(==)>(c: Curve<P>, q: P, r: int)
    requires c.n > 0
  {
    q != c.g.zero && c.x(q) % c.n == r
  }

  /** What a verifier accepts: low s, and the recovered point has r as its coordinate. */
  predicate Accepts<P(==)>(c: Curve<P>, sig: Signature, pub: P, z: int)
    requires c.n > 0
  {
    && sig.r != 0 && sig.s != 0 && Low(sig.s, c.n)
    && Matches(c, Recovered(c, sig.r, sig.s, pub, z), sig.r)
  }

  /** The recovered point from any two scalars that solve the equations modulo the order. */
  lemma RecoveredAny<P(!new)>(c: Curve<P>, r: int, s: int, pub: P, z: int, u1: int, u2: int)
    requires Suitable(c) && Mult(c.g, c.n, pub) == c.g.zero && 0 < s < c.n
    requires Cong(u1 * s, z, c.n) && Cong(u2 * s, r, c.n)
    ensures Recovered(c, r, s, pub, z) == c.g.add(Mult(c.g, u1, c.base), Mult(c.g, u2, pub))
  {
    hide Abelian, Mult, Cong, Prime, FDiv;
    ReducedUnit(s, c.n);
    SameQuotient(z, s, u1, c.n);
    SameQuotient(r, s, u2, c.n);
    MultCong(c.g, c.n, c.base, FDiv(z, s, c.n), u1);
    MultCong(c.g, c.n, pub, FDiv(r, s, c.n), u2);
  }

  lemma SameQuotient(a: int, s: int, u: int, p: nat)
    requires Prime(p) && !Cong(s, 0, p) && Cong(u * s, a, p)
    ensures Cong(FDiv(a, s, p), u, p)
  {
    hide Cong, Prime, FDiv;
    DivWorks(a, s, p);
    CongSym(u * s, a, p);
    CongTrans(FDiv(a, s, p) * s, a, u * s, p);
    CancelUnit(FDiv(a, s, p), u, s, p);
  }

  // ---------- Signing ----------

  /** Numbers that signing does not have to draw again. */
  predicate Usable<P(==)>(c: Curve<P>, sec: int, z: int, k: int)
    requires c.n > 0
  {
    var q := Mult(c.g, k, c.base);
    q != c.g.zero && c.x(q) % c.n != 0 && FAdd(FMul(c.x(q) % c.n, sec, c.n), z, c.n) != 0
  }

  /** With s k = z + r sec modulo n, up to sign, the recovered point is k times the base, up to sign. */
  lemma SignatureRight<P(!new)>(c: Curve<P>, sec: int, z: int, k: int, r: int, s: int, minus: bool)
    requires Suitable(c) && 0 < s < c.n
    requires Cong(s * k, if minus then 0 - (z + r * sec) else z + r * sec, c.n)
    ensures Recovered(c, r, s, Mult(c.g, sec, c.base), z) == Mult(c.g, if minus then 0 - k else k, c.base)
  {
    hide Abelian, Mult, Cong, Prime, FDiv;
    var n := c.n;
    var pub := Mult(c.g, sec, c.base);
    var u1, u2 := FDiv(z, s, n), FDiv(r, s, n);
    ReducedUnit(s, n);
    DivWorks(z, s, n);
    DivWorks(r, s, n);
    MultBoth(c.g, u1, u2, sec, c.base, n);
    var t := if minus then 0 - k else k;
    SignArithmetic(u1, u2, sec, s, z, r, k, minus, n);
    MultCong(c.g, n, c.base, u1 + u2 * sec, t);
  }

  lemma MultBoth<P(!new)>(g: Group<P>, u1: int, u2: nat, sec: int, q: P, n: nat)
    requires Abelian(g)
    ensures g.add(Mult(g, u1, q), Mult(g, u2, Mult(g, sec, q))) == Mult(g, u1 + u2 * sec, q)
  {
    hide Abelian, Mult;
    MultMul(g, u2, sec, q);
    MultAdd(g, u1, u2 * sec, q);
  }

  lemma SignArithmetic(u1: int, u2: int, sec: int, s: int, z: int, r: int, k: int, minus: bool, n: nat)
    requires Prime(n) && !Cong(s, 0, n) && Cong(u1 * s, z, n) && Cong(u2 * s, r, n)
    requires Cong(s * k, if minus then 0 - (z + r * sec) else z + r * sec, n)
    ensures Cong(u1 + u2 * sec, if minus then 0 - k else k, n)
  {
    hide Cong, Prime;
    var t := if minus then 0 - k else k;
    CongScale(u2 * s, r, sec, n);
    CongAdd(u1 * s, z, sec * (u2 * s), sec * r, n);
    MulDist(u1, u2 * sec, s);
    MulSwap(u2, sec, s);
    assert (u1 + u2 * sec) * s == u1 * s + sec * (u2 * s);
    var e := z + r * sec;
    CongRefl(0, n);
    MulNeg(k, s);
    if minus {
      CongSub(0, 0, s * k, 0 - e, n);
    }
    assert t * s == if minus then 0 - s * k else s * k;
    CongSym(t * s, e, n);
    CongTrans((u1 + u2 * sec) * s, e, t * s, n);
    CancelUnit(u1 + u2 * sec, t, s, n);
  }

  /** Mirrored points share their first coordinate. */
  lemma MatchesNeg<P(!new)>(c: Curve<P>, q: P, r: int)
    requires Suitable(c)
    ensures Matches(c, c.g.neg(q), r) <==> Matches(c, q, r)
  {
    hide Abelian, Mult;
    assert One(q);
    NegZero(c.g);
    Unit(c.g, q);
    if c.g.neg(q) == c.g.zero {
      Unit(c.g, c.g.zero);
      Unit(c.g, q);
    }
    if q == c.g.zero {
    }
  }

  /** Moves s to the lower half. */
  method NormalizeSignature(sig: Signature, n: nat) returns (t: Signature, minus: bool)
    requires 0 < sig.s < n && n % 2 == 1
    ensures t.r == sig.r && t.s == (if minus then n - sig.s else sig.s)
    ensures 0 < t.s && Low(t.s, n)
  {
    t, minus := sig, false;
    if sig.s >= (n + 1) / 2 {
      t, minus := Signature(sig.r, n - sig.s), true;
    }
  }

  /** sig is made with k: its r is the coordinate of k times the base, and its s solves s k = z + r sec
      modulo n, up to sign, in the lower half. */
  ghost predicate MadeWith<P(!new)>(c: Curve<P>, sec: int, z: int, k: int, sig: Signature)
    requires c.n > 0
  {
    var q := Mult(c.g, k, c.base);
    && q != c.g.zero && sig.r == c.x(q) % c.n && sig.r != 0 && 0 < sig.s && 2 * sig.s < c.n
    && (Cong(sig.s * k, z + sig.r * sec, c.n) || Cong(sig.s * k, 0 - (z + sig.r * sec), c.n))
  }

  /** ks are the numbers drawn, in order; the first usable one makes the signature. Every signature
      made is accepted under the signer's public key. */
  method Sign<P(!new,==)>(c: Curve<P>, sec: int, z: int, ks: seq<int>) returns (sig: Option<Signature>, ghost at: nat)
    requires Suitable(c) && 0 <= z < c.n && forall i :: 0 <= i < |ks| ==> 0 <= ks[i] < c.n
    ensures at <= |ks| && (sig.Some? <==> at < |ks|)
    ensures forall i :: 0 <= i < at ==> !Usable(c, sec, z, ks[i])
    ensures sig.Some? ==> Usable(c, sec, z, ks[at]) && MadeWith(c, sec, z, ks[at], sig.value)
    ensures sig.Some? ==> Accepts(c, sig.value, Mult(c.g, sec, c.base), z)
  {
    hide Abelian, Mult, FMul, FAdd, FDiv, Prime, Accepts, Cong, MadeWith;
    var n := c.n;
    at := |ks|;
    for i := 0 to |ks|
      invariant forall j :: 0 <= j < i ==> !Usable(c, sec, z, ks[j])
    {
      var k := ks[i];
      var q := Mult(c.g, k, c.base);
      if q != c.g.zero {
        var r := c.x(q) % n;
        if r != 0 {
          var t := FAdd(FMul(r, sec, n), z, n);
          if t != 0 {
            var s := FDiv(t, k, n);
            SignedNumber(c, sec, z, k, r, t, s);
            var made, minus := NormalizeSignature(Signature(r, s), n);
            SignedAccepted(c, sec, z, k, r, s, made, minus);
            MadeRight(c, sec, z, k, r, s, made, minus);
            return Some(made), i;
          }
        }
      }
    }
    sig := None;
  }

  lemma SignedNumber<P(!new)>(c: Curve<P>, sec: int, z: int, k: int, r: int, t: int, s: int)
    requires Suitable(c) && 0 <= k < c.n && Mult(c.g, k, c.base) != c.g.zero
    requires t == FAdd(FMul(r, sec, c.n), z, c.n) && t != 0 && s == FDiv(t, k, c.n)
    ensures 0 < s < c.n && Cong(s * k, z + r * sec, c.n)
  {
    hide Abelian, Mult, FMul, FAdd, FDiv, Prime, Cong;
    var n := c.n;
    if k == 0 {
      TimesZero(c.g, c.base);
      assert false;
    }
    ReducedUnit(k, n);
    ReducedUnit(t, n);
    DivWorks(t, k, n);
    FieldCong(r, sec, n);
    CongRefl(z, n);
    FieldOps(FMul(r, sec, n), r * sec, z, z, n);
    CongTrans(s * k, t, r * sec + z, n);
    if s == 0 {
      assert s * k == 0;
      CongSym(0, t, n);
    }
  }

  lemma MadeRight<P(!new)>(c: Curve<P>, sec: int, z: int, k: int, r: int, s: int, made: Signature, minus: bool)
    requires Suitable(c) && 0 < s < c.n && Cong(s * k, z + r * sec, c.n) && r != 0
    requires Mult(c.g, k, c.base) != c.g.zero && c.x(Mult(c.g, k, c.base)) % c.n == r
    requires made == Signature(r, if minus then c.n - s else s) && 0 < made.s && Low(made.s, c.n)
    ensures MadeWith(c, sec, z, k, made)
  {
    hide Abelian, Mult, Prime, Cong;
    if minus {
      MirrorEquation(c.n, s, k, z + r * sec);
    }
  }

  lemma MirrorEquation(n: int, s: int, k: int, e: int)
    requires Cong(s * k, e, n)
    ensures Cong((n - s) * k, 0 - e, n)
  {
    hide Cong;
    MulDist(n, s, k);
    CongRefl(0, n);
    CongSub(0, 0, s * k, e, n);
    CongIntro((n - s) * k, 0 - s * k, n, k);
    CongTrans((n - s) * k, 0 - s * k, 0 - e, n);
  }

  lemma SignedAccepted<P(!new)>(c: Curve<P>, sec: int, z: int, k: int, r: int, s: int, made: Signature, minus: bool)
    requires Suitable(c) && 0 < s < c.n && Cong(s * k, z + r * sec, c.n) && r != 0
    requires Matches(c, Mult(c.g, k, c.base), r)
    requires made == Signature(r, if minus then c.n - s else s) && 0 < made.s && Low(made.s, c.n)
    ensures Accepts(c, made, Mult(c.g, sec, c.base), z)
  {
    hide Abelian, Mult, Prime, Cong, Matches, FDiv;
    if minus {
      MirrorEquation(c.n, s, k, z + r * sec);
    }
    SignatureRight(c, sec, z, k, r, made.s, minus);
    MultNeg(c.g, k, c.base);
    MatchesNeg(c, Mult(c.g, k, c.base), r);
  }

  /** Verification computes the point from an inverse of s; for a public key of the same order its
      answer does not depend on which scalars solve the equations. */
  method Verify<P(!new,==)>(c: Curve<P>, sig: Signature, pub: P, z: int) returns (b: bool)
    requires Suitable(c) && Mult(c.g, c.n, pub) == c.g.zero && 0 <= sig.r < c.n && 0 <= sig.s < c.n
    ensures b <==> Accepts(c, sig, pub, z)
    ensures b ==> sig.r != 0 && sig.s != 0
    ensures forall u1, u2 :: sig.s != 0 && Cong(u1 * sig.s, z, c.n) && Cong(u2 * sig.s, sig.r, c.n) ==>
              (b <==> var q := c.g.add(Mult(c.g, u1, c.base), Mult(c.g, u2, pub));
                      sig.r != 0 && 2 * sig.s < c.n && q != c.g.zero && c.x(q) % c.n == sig.r)
  {
    hide Abelian, Mult, Prime, Cong, FMul, FInv;
    forall u1, u2 | sig.s != 0 && Cong(u1 * sig.s, z, c.n) && Cong(u2 * sig.s, sig.r, c.n)
      ensures Recovered(c, sig.r, sig.s, pub, z) == c.g.add(Mult(c.g, u1, c.base), Mult(c.g, u2, pub))
    {
      RecoveredAny(c, sig.r, sig.s, pub, z, u1, u2);
    }
    if sig.r == 0 || sig.s == 0 {
      return false;
    }
    if !Low(sig.s, c.n) {
      return false;
    }
    var w := FInv(sig.s, c.n);
    var u1 := FMul(z, w, c.n);
    var u2 := FMul(sig.r, w, c.n);
    var q := c.g.add(Mult(c.g, u1, c.base), Mult(c.g, u2, pub));
    b := Matches(c, q, sig.r);
  }

  /** Of a signature and its mirror image exactly one is accepted when the point matches, none else. */
  lemma JustOneAccepted<P(!new)>(c: Curve<P>, r: int, s: int, pub: P, z: int)
    requires Suitable(c) && Mult(c.g, c.n, pub) == c.g.zero && 0 < s < c.n && r != 0
    ensures !(Accepts(c, Signature(r, s), pub, z) && Accepts(c, Signature(r, c.n - s), pub, z))
    ensures Accepts(c, Signature(r, s), pub, z) || Accepts(c, Signature(r, c.n - s), pub, z)
            <==> Matches(c, Recovered(c, r, s, pub, z), r)
  {
    hide Abelian, Mult, Prime, Cong, FDiv, Matches, Recovered;
    MirrorPoint(c, r, s, pub, z);
    MatchesNeg(c, Recovered(c, r, s, pub, z), r);
  }

  lemma MirrorPoint<P(!new)>(c: Curve<P>, r: int, s: int, pub: P, z: int)
    requires Suitable(c) && Mult(c.g, c.n, pub) == c.g.zero && 0 < s < c.n
    ensures Recovered(c, r, c.n - s, pub, z) == c.g.neg(Recovered(c, r, s, pub, z))
  {
    hide Abelian, Mult, Prime, Cong, FDiv;
    var n := c.n;
    var u1, u2 := FDiv(z, s, n), FDiv(r, s, n);
    ReducedUnit(s, n);
    DivWorks(z, s, n);
    DivWorks(r, s, n);
    MirrorScalar(u1, s, z, n);
    MirrorScalar(u2, s, r, n);
    RecoveredAny(c, r, n - s, pub, z, 0 - u1, 0 - u2);
    MultNeg(c.g, u1, c.base);
    MultNeg(c.g, u2, pub);
    NegSum(c.g, Mult(c.g, u1, c.base), Mult(c.g, u2, pub));
  }

  lemma MirrorScalar(u: int, s: int, a: int, n: nat)
    requires Cong(u * s, a, n)
    ensures Cong((0 - u) * (n - s), a, n)
  {
    hide Cong;
    MulNeg(u, n - s);
    MulDist(n, s, u);
    CongIntro((0 - u) * (n - s), u * s, n, 0 - u);
    CongTrans((0 - u) * (n - s), u * s, a, n);
  }

  lemma NegSum<P(!new)>(g: Group<P>, a: P, b: P)
    requires Abelian(g)
    ensures g.add(g.neg(a), g.neg(b)) == g.neg(g.add(a, b))
  {
    hide Abelian;
    Exchange(g, a, b, g.neg(a), g.neg(b));
    Unit(g, a);
    Unit(g, b);
    Unit(g, g.zero);
    UniqueNeg(g, g.add(a, b), g.add(g.neg(a), g.neg(b)));
  }
}
