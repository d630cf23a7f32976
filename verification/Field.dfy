/** Arithmetic modulo a number p, and division when p is prime. */
module Field {
  import opened Arith

  function FAdd(x: int, y: int, p: nat): (r: int)
    requires p > 0
    ensures 0 <= r < p
  {
    (x + y) % p
  }

  function FSub(x: int, y: int, p: nat): (r: int)
    requires p > 0
    ensures 0 <= r < p
  {
    (x - y) % p
  }

  function FMul(x: int, y: int, p: nat): (r: int)
    requires p > 0
    ensures 0 <= r < p
  {
    (x * y) % p
  }

  lemma FieldCong(x: int, y: int, p: nat)
    requires p > 0
    ensures Cong(FAdd(x, y, p), x + y, p)
    ensures Cong(FSub(x, y, p), x - y, p)
    ensures Cong(FMul(x, y, p), x * y, p)
  {
    hide Cong;
    CongMod(x + y, p);
    CongMod(x - y, p);
    CongMod(x * y, p);
  }

  /** Field operations respect congruence: operands known up to multiples of p give results
      known up to multiples of p. */
  lemma FieldOps(x: int, a: int, y: int, b: int, p: nat)
    requires p > 0 && Cong(x, a, p) && Cong(y, b, p)
    ensures Cong(FAdd(x, y, p), a + b, p)
    ensures Cong(FSub(x, y, p), a - b, p)
    ensures Cong(FMul(x, y, p), a * b, p)
  {
    hide Cong, FAdd, FSub, FMul;
    FieldCong(x, y, p);
    CongAdd(x, a, y, b, p);
    CongSub(x, a, y, b, p);
    CongMul(x, a, y, b, p);
    CongTrans(FAdd(x, y, p), x + y, a + b, p);
    CongTrans(FSub(x, y, p), x - y, a - b, p);
    CongTrans(FMul(x, y, p), x * y, a * b, p);
  }

  // ---------- Division ----------

  ghost predicate Prime(p: nat) {
    && p > 1
    && forall d: nat :: Divides(d, p) ==> d == 1 || d == p
  }

  lemma PrimeAboveOne(p: nat)
    requires Prime(p)
    ensures p > 1
  {
  }

  /** Extended Euclid: (g, s, t) with g = s * a + t * b. */
  function Egcd(a: nat, b: nat): (nat, int, int)
    decreases b
  {
    if b == 0 then (a, 1, 0)
    else
      var (g, s, t) := Egcd(b, a % b);
      (g, t, s - (a / b) * t)
  }

  lemma {:induction false} EgcdWorks(a: nat, b: nat)
    ensures var (g, s, t) := Egcd(a, b);
            g == s * a + t * b && Divides(g, a) && Divides(g, b)
    decreases b
  {
    if b == 0 {
      DividesIntro(a, a, 1);
      DividesIntro(a, 0, 0);
    } else {
      EgcdWorks(b, a % b);
      var (g, s, t) := Egcd(b, a % b);
      EgcdStep(a, b, g, s, t);
    }
  }

  lemma EgcdStep(a: nat, b: nat, g: nat, s: int, t: int)
    requires b > 0 && g == s * b + t * (a % b) && Divides(g, b) && Divides(g, a % b)
    ensures g == t * a + (s - (a / b) * t) * b && Divides(g, a)
  {
    hide Divides;
    var q, r := a / b, a % b;
    MulDist(q * b, r, t);
    MulDist(s, q * t, b);
    MulSwap(q, t, b);
    MulAssoc(t, q, b);
    var u := DividesElim(g, b);
    var v := DividesElim(g, r);
    MulAssoc(q, u, g);
    MulDist(q * u, v, g);
    DividesIntro(g, a, q * u + v);
  }

  /** The inverse of a unit modulo a prime. */
  function FInv(a: int, p: nat): int
    requires p > 0
  {
    Egcd(a % p, p).1
  }

  function FDiv(x: int, y: int, p: nat): (r: int)
    requires p > 0
    ensures 0 <= r < p
  {
    FMul(x, FInv(y, p), p)
  }

  lemma InvWorks(a: int, p: nat)
    requires Prime(p) && !Cong(a, 0, p)
    ensures Cong(FInv(a, p) * a, 1, p)
  {
    hide Cong, Divides;
    var b := a % p;
    CongMod(a, p);
    EgcdWorks(b, p);
    var (g, s, t) := Egcd(b, p);
    if g == p {
      var k := DividesElim(p, b);
      CongZeroMultiple(k, p);
      CongTrans(a, b, 0, p);
    }
    CongIntro(s * b, 1, p, 0 - t);
    MulNeg(t, p);
    CongScale(a, b, s, p);
    CongTrans(s * a, s * b, 1, p);
  }

  lemma DivWorks(x: int, y: int, p: nat)
    requires Prime(p) && !Cong(y, 0, p)
    ensures Cong(FDiv(x, y, p) * y, x, p)
  {
    hide Cong, FMul, FInv;
    InvWorks(y, p);
    FieldCong(x, FInv(y, p), p);
    CongScale(FDiv(x, y, p), x * FInv(y, p), y, p);
    CongScale(FInv(y, p) * y, 1, x, p);
    MulSwap(y, x, FInv(y, p));
    CongTrans(FDiv(x, y, p) * y, x * (FInv(y, p) * y), x, p);
  }

  /** Units can be cancelled. */
  lemma CancelUnit(a: int, b: int, z: int, p: nat)
    requires Prime(p) && !Cong(z, 0, p) && Cong(a * z, b * z, p)
    ensures Cong(a, b, p)
  {
    hide Cong, FInv;
    InvWorks(z, p);
    var v := FInv(z, p);
    CongScale(a * z, b * z, v, p);
    CongScale(v * z, 1, a, p);
    CongScale(v * z, 1, b, p);
    MulSwap(v, a, z);
    MulSwap(v, b, z);
    CongSym(a * (v * z), a, p);
    CongTrans(a, a * (v * z), b * (v * z), p);
    CongTrans(a, b * (v * z), b, p);
  }

  lemma UnitProduct(a: int, b: int, p: nat)
    requires Prime(p) && !Cong(a, 0, p) && !Cong(b, 0, p)
    ensures !Cong(a * b, 0, p)
  {
    hide Cong;
    if Cong(a * b, 0, p) {
      CancelUnit(a, 0, b, p);
    }
  }

  lemma ReducedUnit(a: int, p: nat)
    requires 0 <= a < p
    ensures Cong(a, 0, p) <==> a == 0
  {
    hide Cong;
    if a == 0 {
      CongRefl(0, p);
    } else if Cong(a, 0, p) {
      CongUnique(a, 0, p);
    }
  }

  lemma UnitDifference(a: int, b: int, p: nat)
    requires 0 <= a < p && 0 <= b < p && a != b
    ensures !Cong(a - b, 0, p)
  {
    if Cong(a - b, 0, p) {
      var k := CongElim(a - b, 0, p);
      CongIntro(a, b, p, k);
      CongUnique(a, b, p);
    }
  }

  lemma NotZeroAlong(a: int, b: int, p: nat)
    requires Cong(a, b, p) && !Cong(b, 0, p)
    ensures !Cong(a, 0, p)
  {
    hide Cong;
    if Cong(a, 0, p) {
      CongSym(a, b, p);
      CongTrans(b, a, 0, p);
    }
  }

  // ---------- Inverses and products ----------

  /** The field's inverse, with zero for zero. */
  function Inverse(x: int, p: nat): (r: int)
    requires p > 0
    ensures 0 <= r < p
  {
    if x == 0 then 0 else FInv(x, p) % p
  }

  lemma InverseWorks(x: int, p: nat)
    requires Prime(p) && 0 < x < p
    ensures Cong(Inverse(x, p) * x, 1, p)
  {
    hide Cong, FInv;
    ReducedUnit(x, p);
    InvWorks(x, p);
    CongMod(FInv(x, p), p);
    CongScale(Inverse(x, p), FInv(x, p), x, p);
    CongTrans(x * Inverse(x, p), x * FInv(x, p), 1, p);
  }

  lemma InverseUnique(y: int, x: int, p: nat)
    requires Prime(p) && 0 < x < p && 0 <= y < p && Cong(y * x, 1, p)
    ensures y == Inverse(x, p)
  {
    hide Cong, Inverse;
    InverseWorks(x, p);
    CongSym(Inverse(x, p) * x, 1, p);
    CongTrans(y * x, 1, Inverse(x, p) * x, p);
    ReducedUnit(x, p);
    CancelUnit(y, Inverse(x, p), x, p);
    CongUnique(y, Inverse(x, p), p);
  }

  function Prod(s: seq<int>): int {
    if s == [] then 1 else Prod(s[..|s| - 1]) * s[|s| - 1]
  }

  lemma {:induction false} ProdUnit(s: seq<int>, p: nat)
    requires Prime(p) && forall i :: 0 <= i < |s| ==> 0 <= s[i] < p
    ensures Cong(Prod(s), 0, p) <==> exists i :: 0 <= i < |s| && s[i] == 0
  {
    hide Cong;
    if s == [] {
      ReducedUnit(1, p);
    } else {
      var n := |s| - 1;
      ProdUnit(s[..n], p);
      ReducedUnit(s[n], p);
      if s[n] == 0 {
        CongRefl(0, p);
        assert s[n] == 0 && Prod(s) == 0;
      } else if Cong(Prod(s[..n]), 0, p) {
        var i :| 0 <= i < n && s[..n][i] == 0;
        assert s[i] == 0;
        CongScale(Prod(s[..n]), 0, s[n], p);
        assert s[n] * Prod(s[..n]) == Prod(s);
      } else {
        UnitProduct(Prod(s[..n]), s[n], p);
        assert forall i :: 0 <= i < n ==> s[i] == s[..n][i];
      }
    }
  }
}
