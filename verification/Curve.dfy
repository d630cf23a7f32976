/** Point addition and doubling of `mcl/ec.hpp`: the affine formulas are the chord-and-tangent
    law, and the Jacobian ones compute the same points without division. */
module Curve {
  import opened Arith
  import opened BatchInverse
  import opened ChordTangent
  import opened Field

  datatype Triple = Triple(x: int, y: int, z: int) {
    predicate In(p: nat) {
      0 <= x < p && 0 <= y < p && 0 <= z < p
    }
  }

  /** The point a Jacobian triple stands for: (x / z^2, y / z^3). */
  function PointOf(t: Triple, p: nat): Affine
    requires p > 0
  {
    if t.z == 0 then Infinity
    else Finite(FDiv(t.x, Sq(t.z, p), p), FDiv(t.y, FMul(Sq(t.z, p), t.z, p), p))
  }

  // ---------- Reading triples as points ----------

  lemma DivUnique(x: int, q: int, z: int, p: nat)
    requires Prime(p) && !Cong(z, 0, p) && Cong(x, q * z, p) && 0 <= q < p
    ensures FDiv(x, z, p) == q
  {
    hide Cong, FDiv;
    DivWorks(x, z, p);
    CongTrans(FDiv(x, z, p) * z, x, q * z, p);
    CancelUnit(FDiv(x, z, p), q, z, p);
    CongUnique(FDiv(x, z, p), q, p);
  }

  /** A triple represents (x, y) when its coordinates are x z^2 and y z^3 modulo p. */
  ghost predicate Represents(t: Triple, x: int, y: int, p: nat) {
    && Cong(t.x, x * (t.z * t.z), p)
    && Cong(t.y, y * ((t.z * t.z) * t.z), p)
  }

  lemma UnitPowers(z: int, p: nat)
    requires Prime(p) && 0 < z < p
    ensures !Cong(z, 0, p)
    ensures !Cong(Sq(z, p), 0, p) && !Cong(FMul(Sq(z, p), z, p), 0, p)
    ensures Cong(Sq(z, p), z * z, p) && Cong(FMul(Sq(z, p), z, p), (z * z) * z, p)
  {
    hide Cong, FMul;
    ReducedUnit(z, p);
    UnitProduct(z, z, p);
    UnitProduct(z * z, z, p);
    FieldCong(z, z, p);
    CongRefl(z, p);
    FieldOps(Sq(z, p), z * z, z, z, p);
    if Cong(Sq(z, p), 0, p) {
      CongSym(Sq(z, p), z * z, p);
      CongTrans(z * z, Sq(z, p), 0, p);
    }
    if Cong(FMul(Sq(z, p), z, p), 0, p) {
      CongSym(FMul(Sq(z, p), z, p), (z * z) * z, p);
      CongTrans((z * z) * z, FMul(Sq(z, p), z, p), 0, p);
    }
  }

  lemma PointRepresented(t: Triple, p: nat)
    requires Prime(p) && t.In(p) && t.z != 0
    ensures PointOf(t, p).Finite? && Represents(t, PointOf(t, p).x, PointOf(t, p).y, p)
  {
    hide Cong, FDiv, FMul, Sq;
    UnitPowers(t.z, p);
    DivWorks(t.x, Sq(t.z, p), p);
    DivWorks(t.y, FMul(Sq(t.z, p), t.z, p), p);
    var q := PointOf(t, p);
    Denominator(t.x, q.x, Sq(t.z, p), t.z * t.z, p);
    Denominator(t.y, q.y, FMul(Sq(t.z, p), t.z, p), (t.z * t.z) * t.z, p);
  }

  lemma Denominator(x: int, q: int, d: int, e: int, p: nat)
    requires Cong(q * d, x, p) && Cong(d, e, p)
    ensures Cong(x, q * e, p)
  {
    hide Cong;
    CongScale(d, e, q, p);
    CongSym(q * d, x, p);
    CongTrans(x, q * d, q * e, p);
  }

  lemma RepresentedPoint(t: Triple, x: int, y: int, p: nat)
    requires Prime(p) && t.In(p) && t.z != 0 && 0 <= x < p && 0 <= y < p && Represents(t, x, y, p)
    ensures PointOf(t, p) == Finite(x, y)
  {
    hide Cong, FDiv, FMul, Sq;
    UnitPowers(t.z, p);
    Numerator(t.x, x, Sq(t.z, p), t.z * t.z, p);
    Numerator(t.y, y, FMul(Sq(t.z, p), t.z, p), (t.z * t.z) * t.z, p);
    DivUnique(t.x, x, Sq(t.z, p), p);
    DivUnique(t.y, y, FMul(Sq(t.z, p), t.z, p), p);
  }

  lemma Numerator(x: int, q: int, d: int, e: int, p: nat)
    requires Cong(x, q * e, p) && Cong(d, e, p)
    ensures Cong(x, q * d, p)
  {
    hide Cong;
    CongSym(d, e, p);
    CongScale(e, d, q, p);
    CongTrans(x, q * e, q * d, p);
  }

  // ---------- The shared line formula ----------

  /** From a slope l, x- and y-values scaled by w = z3^2 and v = z3^3, the projective line
      formula gives the chord point scaled the same way. */
  lemma ChordScaled(l: int, x1: int, y1: int, x2: int, z3: int, m: int, s: int, t: int, u: int,
                    X3: int, Y3: int, p: nat)
    requires p > 0
    requires Cong(m, l * z3, p)
    requires Cong(s, x1 * (z3 * z3), p)
    requires Cong(u, (x1 + x2) * (z3 * z3), p)
    requires Cong(t, y1 * ((z3 * z3) * z3), p)
    requires Cong(X3, m * m - u, p)
    requires Cong(Y3, m * (s - X3) - t, p)
    ensures var c := Chord(l, x1, y1, x2, p);
            Cong(X3, c.x * (z3 * z3), p) && Cong(Y3, c.y * ((z3 * z3) * z3), p)
  {
    hide Cong, FMul, FSub, Sq, Chord;
    var c := Chord(l, x1, y1, x2, p);
    ChordValue(l, x1, y1, x2, p);
    var w := z3 * z3;
    // x
    CongMul(m, l * z3, m, l * z3, p);
    CongSub(m * m, (l * z3) * (l * z3), u, (x1 + x2) * w, p);
    CongTrans(X3, m * m - u, (l * z3) * (l * z3) - (x1 + x2) * w, p);
    ScaleX(l, x1, x2, z3);
    CongScale(c.x, l * l - x1 - x2, w, p);
    CongSym(w * c.x, w * (l * l - x1 - x2), p);
    CongTrans(X3, w * (l * l - x1 - x2), w * c.x, p);
    // y
    CongSub(s, x1 * w, X3, w * c.x, p);
    CongMul(m, l * z3, s - X3, x1 * w - w * c.x, p);
    CongSub(m * (s - X3), (l * z3) * (x1 * w - w * c.x), t, y1 * (w * z3), p);
    CongTrans(Y3, m * (s - X3) - t, (l * z3) * (x1 * w - w * c.x) - y1 * (w * z3), p);
    ScaleY(l, x1, y1, c.x, z3);
    CongScale(c.y, l * (x1 - c.x) - y1, w * z3, p);
    CongSym((w * z3) * c.y, (w * z3) * (l * (x1 - c.x) - y1), p);
    CongTrans(Y3, (w * z3) * (l * (x1 - c.x) - y1), (w * z3) * c.y, p);
  }

  lemma ScaleX(l: int, x1: int, x2: int, z: int)
    ensures (l * z) * (l * z) - (x1 + x2) * (z * z) == (z * z) * (l * l - x1 - x2)
  {
    Squares(l, z);
    MulDist(l * l, x1 + x2, z * z);
  }

  lemma Squares(l: int, z: int)
    ensures (l * z) * (l * z) == (l * l) * (z * z)
  {
    MulAssoc(l * z, l, z);
    MulSwap(l, z, l);
    MulAssoc(l * l, z, z);
  }

  lemma ScaleY(l: int, x1: int, y1: int, x3: int, z: int)
    ensures (l * z) * (x1 * (z * z) - (z * z) * x3) - y1 * ((z * z) * z) == ((z * z) * z) * (l * (x1 - x3) - y1)
  {
    var w := z * z;
    MulDist(x1, x3, w);
    assert x1 * w - w * x3 == w * (x1 - x3);
    MulAssoc(l * z, w, x1 - x3);
    MulSwap(l, z, w);
    assert (l * z) * w == l * (w * z) by {
      MulAssoc(l, w, z);
    }
    MulSwap(l, w * z, x1 - x3);
    MulAssoc(w * z, l, x1 - x3);
    MulDist(l * (x1 - x3), y1, w * z);
  }

  // ---------- Jacobian addition ----------

  /** The parts of `addJacobi` before the equality test. */
  function CrossX(t: Triple, s: Triple, p: nat): int
    requires p > 0
  {
    if s.z == 1 then t.x else FMul(t.x, Sq(s.z, p), p)
  }

  function CrossY(t: Triple, s: Triple, p: nat): int
    requires p > 0
  {
    if s.z == 1 then t.y else FMul(FMul(Sq(s.z, p), s.z, p), t.y, p)
  }

  function CrossZ(t: Triple, s: Triple, h: int, p: nat): (r: int)
    requires p > 0
    ensures 0 <= h < p ==> 0 <= r < p
  {
    if t.z == 1 then (if s.z == 1 then h else FMul(h, s.z, p))
    else (if s.z == 1 then FMul(t.z, h, p) else FMul(FMul(t.z, s.z, p), h, p))
  }

  lemma CrossXValue(t: Triple, s: Triple, x: int, y: int, p: nat)
    requires p > 0 && Represents(t, x, y, p)
    ensures Cong(CrossX(t, s, p), x * ((t.z * s.z) * (t.z * s.z)), p)
  {
    hide Cong, FMul;
    FieldCong(s.z, s.z, p);
    FieldOps(t.x, x * (t.z * t.z), Sq(s.z, p), s.z * s.z, p);
    Squares(t.z, s.z);
    MulAssoc(x, t.z * t.z, s.z * s.z);
  }

  lemma CrossYValue(t: Triple, s: Triple, x: int, y: int, p: nat)
    requires p > 0 && Represents(t, x, y, p)
    ensures Cong(CrossY(t, s, p), y * (((t.z * s.z) * (t.z * s.z)) * (t.z * s.z)), p)
  {
    hide Cong, FMul;
    FieldCong(s.z, s.z, p);
    CongRefl(s.z, p);
    FieldOps(Sq(s.z, p), s.z * s.z, s.z, s.z, p);
    FieldOps(FMul(Sq(s.z, p), s.z, p), (s.z * s.z) * s.z, t.y, y * ((t.z * t.z) * t.z), p);
    Cubes(t.z, s.z);
    MulAssoc(y, (t.z * t.z) * t.z, (s.z * s.z) * s.z);
  }

  lemma Cubes(a: int, b: int)
    ensures ((a * a) * a) * ((b * b) * b) == ((a * b) * (a * b)) * (a * b)
  {
    Squares(a, b);
    MulAssoc((a * a) * a, b * b, b);
    MulSwap(a * a, a, b * b);
    MulAssoc((a * a) * (b * b), a, b);
  }

  lemma CrossZValue(t: Triple, s: Triple, h: int, p: nat)
    requires p > 0
    ensures Cong(CrossZ(t, s, h, p), h * (t.z * s.z), p)
  {
    hide Cong, FMul;
    CongRefl(h, p);
    FieldCong(h, s.z, p);
    FieldCong(t.z, h, p);
    FieldCong(t.z, s.z, p);
    FieldOps(FMul(t.z, s.z, p), t.z * s.z, h, h, p);
  }

  /** What the last lines of `addJacobi` make of U1, S1, H and r. */
  function AddTail(u: int, s: int, h: int, r: int, z3: int, p: nat): Triple
    requires p > 0
  {
    var h2 := Sq(h, p);
    var v := FMul(u, h2, p);
    var h3 := FMul(h2, h, p);
    var x3 := FSub(FSub(FSub(Sq(r, p), v, p), v, p), h3, p);
    Triple(x3, FSub(FMul(FSub(v, x3, p), r, p), FMul(h3, s, p), p), z3)
  }

  lemma AddTailValue(u: int, s: int, h: int, r: int, z3: int, p: nat)
    requires p > 0
    ensures var t := AddTail(u, s, h, r, z3, p);
            && Cong(t.x, r * r - (2 * (u * (h * h)) + (h * h) * h), p)
            && Cong(t.y, r * (u * (h * h) - t.x) - ((h * h) * h) * s, p)
  {
    var t := AddTail(u, s, h, r, z3, p);
    AddTailX(u, h, r, p);
    AddTailY(u, s, h, r, t.x, p);
  }

  lemma AddTailPowers(u: int, h: int, p: nat)
    requires p > 0
    ensures Cong(FMul(u, Sq(h, p), p), u * (h * h), p) && Cong(FMul(Sq(h, p), h, p), (h * h) * h, p)
  {
    hide Cong, FMul;
    FieldCong(h, h, p);
    CongRefl(u, p);
    CongRefl(h, p);
    FieldOps(u, u, Sq(h, p), h * h, p);
    FieldOps(Sq(h, p), h * h, h, h, p);
  }

  lemma AddTailX(u: int, h: int, r: int, p: nat)
    requires p > 0
    ensures var h2 := Sq(h, p);
            var v := FMul(u, h2, p);
            Cong(FSub(FSub(FSub(Sq(r, p), v, p), v, p), FMul(h2, h, p), p), r * r - (2 * (u * (h * h)) + (h * h) * h), p)
  {
    hide Cong, FMul, FSub;
    var v, h3 := FMul(u, Sq(h, p), p), FMul(Sq(h, p), h, p);
    AddTailPowers(u, h, p);
    FieldCong(r, r, p);
    var w := u * (h * h);
    FieldOps(Sq(r, p), r * r, v, w, p);
    FieldOps(FSub(Sq(r, p), v, p), r * r - w, v, w, p);
    FieldOps(FSub(FSub(Sq(r, p), v, p), v, p), r * r - w - w, h3, (h * h) * h, p);
  }

  lemma AddTailY(u: int, s: int, h: int, r: int, x: int, p: nat)
    requires p > 0
    ensures var h2 := Sq(h, p);
            Cong(FSub(FMul(FSub(FMul(u, h2, p), x, p), r, p), FMul(FMul(h2, h, p), s, p), p),
                 r * (u * (h * h) - x) - ((h * h) * h) * s, p)
  {
    hide Cong, FMul, FSub;
    AddTailPowers(u, h, p);
    TailY(FMul(u, Sq(h, p), p), FMul(Sq(h, p), h, p), u * (h * h), (h * h) * h, s, r, x, p);
  }

  lemma TailY(v: int, h3: int, w: int, c: int, s: int, r: int, x: int, p: nat)
    requires p > 0 && Cong(v, w, p) && Cong(h3, c, p)
    ensures Cong(FSub(FMul(FSub(v, x, p), r, p), FMul(h3, s, p), p), r * (w - x) - c * s, p)
  {
    hide Cong, FMul, FSub;
    CongRefl(s, p);
    CongRefl(r, p);
    CongRefl(x, p);
    FieldOps(v, w, x, x, p);
    FieldOps(FSub(v, x, p), w - x, r, r, p);
    FieldOps(h3, c, s, s, p);
    FieldOps(FMul(FSub(v, x, p), r, p), (w - x) * r, FMul(h3, s, p), c * s, p);
  }

  /** The generic case of the addition: different x. */
  lemma AddGeneric(c: Params, t: Triple, s: Triple, a: Affine, b: Affine, u: int, S: int, h: int, r: int)
    requires c.Valid() && t.In(c.p) && s.In(c.p) && t.z != 0 && s.z != 0
    requires a.Finite? && b.Finite? && Represents(t, a.x, a.y, c.p) && Represents(s, b.x, b.y, c.p)
    requires 0 <= a.x < c.p && 0 <= b.x < c.p && a.x != b.x
    requires u == CrossX(t, s, c.p) && S == CrossY(t, s, c.p)
    requires h == FSub(CrossX(s, t, c.p), u, c.p) && r == FSub(CrossY(s, t, c.p), S, c.p)
    ensures var z3 := CrossZ(t, s, h, c.p);
            PointOf(AddTail(u, S, h, r, z3, c.p), c.p) == Plus(c, a, b)
  {
    hide Cong, FMul, FSub, FDiv, CrossX, CrossY, CrossZ, AddTail, PointOf, Chord, Prime;
    var p := c.p;
    var z := t.z * s.z;
    var w, w3 := z * z, (z * z) * z;
    var d, e := b.x - a.x, b.y - a.y;
    var l := FDiv(e, d, p);
    CrossDifference(t, s, a.x, a.y, b.x, b.y, p, u, S, h, r);
    UnitDifference(b.x, a.x, p);
    SlopeFact(l, d, e, h, r, z, p);
    var z3 := CrossZ(t, s, h, p);
    CrossZValue(t, s, h, p);
    AddTailValue(u, S, h, r, z3, p);
    var R := AddTail(u, S, h, r, z3, p);
    ScaledTerms(a.x, a.y, d, z, u, S, h, z3, p);
    SlopeToZ(l, r, h, z, z3, p);
    var uh := u * (h * h);
    ChordScaled(l, a.x, a.y, b.x, z3, r, uh, ((h * h) * h) * S, 2 * uh + (h * h) * h, R.x, R.y, p);
    CrossUnit(t.z, s.z, d, h, z3, p);
    AddTailIn(u, S, h, r, z3, p);
    ChordValue(l, a.x, a.y, b.x, p);
    RepresentedPoint(R, Chord(l, a.x, a.y, b.x, p).x, Chord(l, a.x, a.y, b.x, p).y, p);
  }

  lemma AddTailIn(u: int, s: int, h: int, r: int, z3: int, p: nat)
    requires p > 0 && 0 <= z3 < p
    ensures AddTail(u, s, h, r, z3, p).In(p) && AddTail(u, s, h, r, z3, p).z == z3
  {
    hide FMul, FSub;
  }

  lemma CrossDifference(t: Triple, s: Triple, x1: int, y1: int, x2: int, y2: int, p: nat, u: int, S: int, h: int, r: int)
    requires p > 0 && Represents(t, x1, y1, p) && Represents(s, x2, y2, p)
    requires u == CrossX(t, s, p) && S == CrossY(t, s, p)
    requires h == FSub(CrossX(s, t, p), u, p) && r == FSub(CrossY(s, t, p), S, p)
    ensures var z := t.z * s.z;
            && Cong(u, x1 * (z * z), p) && Cong(S, y1 * ((z * z) * z), p)
            && Cong(h, (x2 - x1) * (z * z), p) && Cong(r, (y2 - y1) * ((z * z) * z), p)
  {
    hide Cong, FSub, CrossX, CrossY, Represents;
    var z := t.z * s.z;
    assert s.z * t.z == z;
    CrossXValue(t, s, x1, y1, p);
    CrossXValue(s, t, x2, y2, p);
    CrossYValue(t, s, x1, y1, p);
    CrossYValue(s, t, x2, y2, p);
    FieldOps(CrossX(s, t, p), x2 * (z * z), u, x1 * (z * z), p);
    FieldOps(CrossY(s, t, p), y2 * ((z * z) * z), S, y1 * ((z * z) * z), p);
    MulDist(x2, x1, z * z);
    MulDist(y2, y1, (z * z) * z);
  }

  /** l is the slope e / d; then r = e z^3 equals l times h z for h = d z^2. */
  lemma SlopeFact(l: int, d: int, e: int, h: int, r: int, z: int, p: nat)
    requires Prime(p) && !Cong(d, 0, p) && l == FDiv(e, d, p)
    requires Cong(h, d * (z * z), p) && Cong(r, e * ((z * z) * z), p)
    ensures Cong(r, l * (h * z), p)
  {
    hide Cong, FDiv, Prime;
    DivWorks(e, d, p);
    SlopeScaled(l, d, e, h, r, z, z * z, p);
  }

  lemma SlopeScaled(l: int, d: int, e: int, h: int, r: int, z: int, w: int, p: nat)
    requires Cong(l * d, e, p) && Cong(h, d * w, p) && Cong(r, e * (w * z), p)
    ensures Cong(r, l * (h * z), p)
  {
    hide Cong;
    CongSym(l * d, e, p);
    CongScale(e, l * d, w * z, p);
    CongTrans(r, (w * z) * e, (w * z) * (l * d), p);
    CongScale(h, d * w, l * z, p);
    CongSym((l * z) * h, (l * z) * (d * w), p);
    SlopeRegroup(l, d, w, z, h);
    CongTrans(r, (w * z) * (l * d), l * (h * z), p);
  }

  lemma SlopeRegroup(l: int, d: int, w: int, z: int, h: int)
    ensures (w * z) * (l * d) == (l * z) * (d * w) && (l * z) * h == l * (h * z)
  {
    MulAssoc(w * z, l, d);
    MulSwap(w, z, l);
    MulSwap(w * l, z, d);
    MulAssoc(l * z, d, w);
    MulSwap(l * z, d, w);
    assert (w * l) * z == w * (l * z) by {
      MulAssoc(w, l, z);
    }
    MulSwap(l, z, h);
    MulAssoc(l, h, z);
  }

  lemma SlopeToZ(l: int, r: int, h: int, z: int, z3: int, p: nat)
    requires Cong(r, l * (h * z), p) && Cong(z3, h * z, p)
    ensures Cong(r, l * z3, p)
  {
    hide Cong;
    CongSym(z3, h * z, p);
    CongScale(h * z, z3, l, p);
    CongTrans(r, l * (h * z), l * z3, p);
  }

  /** U1 H^2, H^3 and S1 H^3 in units of z3^2 and z3^3. */
  lemma ScaledTerms(x1: int, y1: int, d: int, z: int, u: int, S: int, h: int, z3: int, p: nat)
    requires Cong(u, x1 * (z * z), p) && Cong(S, y1 * ((z * z) * z), p)
    requires Cong(h, d * (z * z), p) && Cong(z3, h * z, p)
    ensures Cong(u * (h * h), x1 * (z3 * z3), p)
    ensures Cong(2 * (u * (h * h)) + (h * h) * h, (x1 + (x1 + d)) * (z3 * z3), p)
    ensures Cong(((h * h) * h) * S, y1 * ((z3 * z3) * z3), p)
  {
    hide Cong;
    var w := z * z;
    CongSym(z3, h * z, p);
    CongMul(h * z, z3, h * z, z3, p);
    Squares(h, z);
    var zz := z3 * z3;
    // u h^2 = x1 (z^2 h^2)
    CongScale(u, x1 * w, h * h, p);
    MulSwap(h * h, x1, w);
    CongScale((h * h) * w, zz, x1, p);
    CongTrans((h * h) * u, x1 * ((h * h) * w), x1 * zz, p);
    // h^3 = d (z^2 h^2)
    CongScale(h, d * w, h * h, p);
    MulSwap(h * h, d, w);
    CongScale((h * h) * w, zz, d, p);
    CongTrans((h * h) * h, d * ((h * h) * w), d * zz, p);
    CongScale((h * h) * u, x1 * zz, 2, p);
    CongAdd(2 * ((h * h) * u), 2 * (x1 * zz), (h * h) * h, d * zz, p);
    MulDist(x1, x1 + d, zz);
    MulDist(x1, d, zz);
    // S h^3 = y1 (z h)^3
    CongScale(S, y1 * (w * z), (h * h) * h, p);
    CongMul((h * z) * (h * z), zz, h * z, z3, p);
    Cubes(h, z);
    CongScale(((h * h) * h) * (w * z), zz * z3, y1, p);
    MulSwap((h * h) * h, y1, w * z);
    CongTrans(((h * h) * h) * S, y1 * (((h * h) * h) * (w * z)), y1 * (zz * z3), p);
  }

  lemma CrossUnit(tz: int, sz: int, d: int, h: int, z3: int, p: nat)
    requires Prime(p) && 0 < tz < p && 0 < sz < p && !Cong(d, 0, p)
    requires Cong(h, d * ((tz * sz) * (tz * sz)), p) && Cong(z3, h * (tz * sz), p)
    ensures !Cong(h, 0, p) && !Cong(z3, 0, p) && z3 != 0
  {
    hide Cong, Prime;
    ReducedUnit(tz, p);
    ReducedUnit(sz, p);
    var z := tz * sz;
    UnitProduct(tz, sz, p);
    UnitProduct(z, z, p);
    UnitProduct(d, z * z, p);
    NotZeroAlong(h, d * (z * z), p);
    UnitProduct(h, z, p);
    NotZeroAlong(z3, h * z, p);
    CongRefl(0, p);
  }

  /** The equality tests of `addJacobi` decide equality of the affine coordinates. */
  lemma ZeroTests(t: Triple, s: Triple, a: Affine, b: Affine, p: nat, u: int, S: int, h: int, r: int)
    requires Prime(p) && t.In(p) && s.In(p) && t.z != 0 && s.z != 0
    requires a.Finite? && b.Finite? && Represents(t, a.x, a.y, p) && Represents(s, b.x, b.y, p)
    requires 0 <= a.x < p && 0 <= b.x < p && 0 <= a.y < p && 0 <= b.y < p
    requires u == CrossX(t, s, p) && S == CrossY(t, s, p)
    requires h == FSub(CrossX(s, t, p), u, p) && r == FSub(CrossY(s, t, p), S, p)
    ensures h == 0 <==> a.x == b.x
    ensures r == 0 <==> a.y == b.y
  {
    hide Cong, Prime, CrossX, CrossY, FSub, Represents;
    CrossDifference(t, s, a.x, a.y, b.x, b.y, p, u, S, h, r);
    var z := t.z * s.z;
    ReducedUnit(t.z, p);
    ReducedUnit(s.z, p);
    UnitProduct(t.z, s.z, p);
    UnitProduct(z, z, p);
    UnitProduct(z * z, z, p);
    ZeroTest(a.x, b.x, z * z, h, p);
    ZeroTest(a.y, b.y, (z * z) * z, r, p);
  }

  lemma ZeroTest(x1: int, x2: int, w: int, h: int, p: nat)
    requires Prime(p) && 0 <= x1 < p && 0 <= x2 < p && 0 <= h < p && !Cong(w, 0, p)
    requires Cong(h, (x2 - x1) * w, p)
    ensures h == 0 <==> x1 == x2
  {
    hide Cong, Prime;
    ReducedUnit(h, p);
    if x1 == x2 {
      assert (x2 - x1) * w == 0;
    } else {
      UnitDifference(x2, x1, p);
      UnitProduct(x2 - x1, w, p);
      NotZeroAlong(h, (x2 - x1) * w, p);
    }
  }

  // ---------- Jacobian doubling ----------

  /** 4 x y^2 by either branch. */
  function DoubleXY(c: Params, t: Triple): int
    requires c.p > 0
  {
    var p := c.p;
    var x2, y2 := Sq(t.x, p), Sq(t.y, p);
    var xy := if c.small then (var m := FMul(t.x, y2, p); FAdd(m, m, p))
              else FSub(FSub(Sq(FAdd(t.x, y2, p), p), x2, p), Sq(y2, p), p);
    FAdd(xy, xy, p)
  }

  /** 3 x^2 + a z^4 by the branch for the curve's a. */
  function DoubleM(c: Params, t: Triple): int
    requires c.p > 0
  {
    var p := c.p;
    var x2 := Sq(t.x, p);
    match c.special
    case ZeroA => FAdd(x2, FAdd(x2, x2, p), p)
    case Minus3 =>
      var y := FSub(x2, if t.z == 1 then t.z else Sq(Sq(t.z, p), p), p);
      FAdd(y, FAdd(y, y, p), p)
    case GenericA =>
      var s := if t.z == 1 then c.a else FMul(Sq(Sq(t.z, p), p), c.a, p);
      FAdd(FAdd(x2, x2, p), FAdd(s, x2, p), p)
  }

  function DoubleTail(m: int, xy: int, y4: int, z3: int, p: nat): Triple
    requires p > 0
  {
    var x3 := FSub(FSub(Sq(m, p), xy, p), xy, p);
    var y2 := FAdd(y4, y4, p);
    var y3 := FAdd(y2, y2, p);
    Triple(x3, FSub(FMul(FSub(xy, x3, p), m, p), FAdd(y3, y3, p), p), z3)
  }

  function DoubleZ(t: Triple, p: nat): (r: int)
    requires p > 0
    ensures 0 <= r < p
  {
    var y := if t.z == 1 then t.y else FMul(t.y, t.z, p);
    FAdd(y, y, p)
  }

  lemma DoubleXYValue(c: Params, t: Triple)
    requires c.p > 0
    ensures Cong(DoubleXY(c, t), 4 * (t.x * (t.y * t.y)), c.p)
  {
    hide Cong, FMul, FAdd, FSub;
    var p := c.p;
    var x2, y2 := Sq(t.x, p), Sq(t.y, p);
    FieldCong(t.x, t.x, p);
    FieldCong(t.y, t.y, p);
    CongRefl(t.x, p);
    var Y := t.y * t.y;
    FieldOps(t.x, t.x, y2, Y, p);
    if c.small {
      var m := FMul(t.x, y2, p);
      FieldOps(m, t.x * Y, m, t.x * Y, p);
      var n := FAdd(m, m, p);
      FieldOps(n, t.x * Y + t.x * Y, n, t.x * Y + t.x * Y, p);
    } else {
      var b := FAdd(t.x, y2, p);
      FieldOps(b, t.x + Y, b, t.x + Y, p);
      FieldOps(y2, Y, y2, Y, p);
      var q := (t.x + Y) * (t.x + Y);
      FieldOps(Sq(b, p), q, x2, t.x * t.x, p);
      FieldOps(FSub(Sq(b, p), x2, p), q - t.x * t.x, Sq(y2, p), Y * Y, p);
      var e := FSub(FSub(Sq(b, p), x2, p), Sq(y2, p), p);
      SquareOfSum(t.x, Y);
      FieldOps(e, 2 * (t.x * Y), e, 2 * (t.x * Y), p);
    }
  }

  lemma SquareOfSum(x: int, y: int)
    ensures (x + y) * (x + y) - x * x - y * y == 2 * (x * y)
  {
    MulDist(x, y, x + y);
    MulDist(x, y, x);
    MulDist(x, y, y);
  }

  lemma DoubleMValue(c: Params, t: Triple)
    requires c.Valid()
    ensures Cong(DoubleM(c, t), 3 * (t.x * t.x) + c.a * ((t.z * t.z) * (t.z * t.z)), c.p)
  {
    hide Cong, FMul, FAdd, FSub, Prime;
    var p := c.p;
    var x2, X := Sq(t.x, p), t.x * t.x;
    var z4, Z := Sq(Sq(t.z, p), p), (t.z * t.z) * (t.z * t.z);
    FieldCong(t.x, t.x, p);
    FieldCong(t.z, t.z, p);
    FieldOps(Sq(t.z, p), t.z * t.z, Sq(t.z, p), t.z * t.z, p);
    FieldOps(x2, X, x2, X, p);
    match c.special
    case ZeroA =>
      FieldOps(x2, X, FAdd(x2, x2, p), X + X, p);
      assert c.a * Z == 0;
    case Minus3 =>
      var q := if t.z == 1 then t.z else z4;
      CongRefl(t.z, p);
      assert Cong(q, Z, p);
      FieldOps(x2, X, q, Z, p);
      var y := FSub(x2, q, p);
      FieldOps(y, X - Z, y, X - Z, p);
      FieldOps(y, X - Z, FAdd(y, y, p), 2 * (X - Z), p);
      CongSym(c.a, -3, p);
      CongScale(-3, c.a, Z, p);
      CongRefl(3 * X, p);
      CongAdd(3 * X, 3 * X, Z * -3, Z * c.a, p);
      CongTrans(FAdd(y, FAdd(y, y, p), p), 3 * X + Z * -3, 3 * X + Z * c.a, p);
    case GenericA =>
      CongRefl(c.a, p);
      FieldOps(z4, Z, c.a, c.a, p);
      var s := if t.z == 1 then c.a else FMul(z4, c.a, p);
      assert Cong(s, Z * c.a, p);
      FieldOps(s, Z * c.a, x2, X, p);
      FieldOps(FAdd(x2, x2, p), X + X, FAdd(s, x2, p), Z * c.a + X, p);
  }

  lemma DoubleTailValue(m: int, xy: int, y4: int, z3: int, p: nat)
    requires p > 0
    ensures var t := DoubleTail(m, xy, y4, z3, p);
            && Cong(t.x, m * m - 2 * xy, p)
            && Cong(t.y, m * (xy - t.x) - 8 * y4, p)
  {
    hide Cong, FMul, FAdd, FSub;
    var t := DoubleTail(m, xy, y4, z3, p);
    TailX(m, xy, t.x, p);
    TailEight(y4, p);
    CongRefl(xy, p);
    CongRefl(m, p);
    CongRefl(t.x, p);
    FieldOps(xy, xy, t.x, t.x, p);
    FieldOps(FSub(xy, t.x, p), xy - t.x, m, m, p);
    var a := FAdd(y4, y4, p);
    var b := FAdd(a, a, p);
    FieldOps(FMul(FSub(xy, t.x, p), m, p), (xy - t.x) * m, FAdd(b, b, p), 8 * y4, p);
  }

  lemma TailX(m: int, xy: int, x: int, p: nat)
    requires p > 0 && x == FSub(FSub(Sq(m, p), xy, p), xy, p)
    ensures Cong(x, m * m - 2 * xy, p)
  {
    hide Cong, FMul, FSub;
    FieldCong(m, m, p);
    CongRefl(xy, p);
    FieldOps(Sq(m, p), m * m, xy, xy, p);
    FieldOps(FSub(Sq(m, p), xy, p), m * m - xy, xy, xy, p);
  }

  lemma TailEight(y: int, p: nat)
    requires p > 0
    ensures var a := FAdd(y, y, p); var b := FAdd(a, a, p); Cong(FAdd(b, b, p), 8 * y, p)
  {
    hide Cong, FAdd;
    CongRefl(y, p);
    FieldOps(y, y, y, y, p);
    var a := FAdd(y, y, p);
    FieldOps(a, 2 * y, a, 2 * y, p);
    var b := FAdd(a, a, p);
    FieldOps(b, 4 * y, b, 4 * y, p);
  }

  lemma DoubleZValue(t: Triple, p: nat)
    requires p > 0
    ensures Cong(DoubleZ(t, p), 2 * (t.y * t.z), p)
  {
    hide Cong, FMul, FAdd;
    CongRefl(t.y, p);
    FieldCong(t.y, t.z, p);
    var y := if t.z == 1 then t.y else FMul(t.y, t.z, p);
    FieldOps(y, t.y * t.z, y, t.y * t.z, p);
  }

  /** Doubling: the Jacobian formulas give the tangent construction. */
  lemma DoubleRight(c: Params, t: Triple)
    requires c.Valid() && t.In(c.p) && t.z != 0
    ensures var y4 := Sq(Sq(t.y, c.p), c.p);
            PointOf(DoubleTail(DoubleM(c, t), DoubleXY(c, t), y4, DoubleZ(t, c.p), c.p), c.p) ==
            Twice(c, PointOf(t, c.p))
  {
    hide Cong, FMul, FSub, FAdd, FDiv, PointOf, Chord, Prime, DoubleM, DoubleXY, DoubleZ, DoubleTail, Sq, Tangent;
    var p := c.p;
    var y4 := Sq(Sq(t.y, p), p);
    var m, xy, z3 := DoubleM(c, t), DoubleXY(c, t), DoubleZ(t, p);
    var R := DoubleTail(m, xy, y4, z3, p);
    var a := PointOf(t, p);
    PointRepresented(t, p);
    PointIn(t, p);
    DoubleTailIn(m, xy, y4, z3, p);
    DoubleZValue(t, p);
    ReducedUnit(t.z, p);
    DoubleInfinity(t, a, z3, p);
    if a.y != 0 {
      DoubleFinite(c, t, a, m, xy, y4, z3, R);
    } else {
      ZeroIsInfinity(R, p);
    }
  }

  lemma ZeroIsInfinity(t: Triple, p: nat)
    requires p > 0 && t.z == 0
    ensures PointOf(t, p) == Infinity
  {
  }

  lemma PointIn(t: Triple, p: nat)
    requires p > 0 && t.z != 0
    ensures PointOf(t, p).Finite? && 0 <= PointOf(t, p).x < p && 0 <= PointOf(t, p).y < p
  {
    hide FDiv, FMul;
  }

  lemma DoubleTailIn(m: int, xy: int, y4: int, z3: int, p: nat)
    requires p > 0 && 0 <= z3 < p
    ensures DoubleTail(m, xy, y4, z3, p).In(p) && DoubleTail(m, xy, y4, z3, p).z == z3
  {
    hide FMul, FSub, FAdd, Sq;
  }

  /** z3 vanishes exactly on the points of order two. */
  lemma DoubleInfinity(t: Triple, a: Affine, z3: int, p: nat)
    requires p > 2 && Prime(p) && t.In(p) && t.z != 0 && !Cong(t.z, 0, p)
    requires a.Finite? && 0 <= a.y < p && Represents(t, a.x, a.y, p)
    requires 0 <= z3 < p && Cong(z3, 2 * (t.y * t.z), p)
    ensures z3 == 0 <==> a.y == 0
    ensures a.y != 0 ==> !Cong(2 * a.y, 0, p)
  {
    hide Cong, Prime;
    var z := t.z;
    UnitProduct(z, z, p);
    UnitProduct(z * z, z, p);
    ReducedUnit(a.y, p);
    ReducedUnit(z3, p);
    ReducedUnit(2, p);
    if a.y == 0 {
      assert a.y * ((z * z) * z) == 0;
      CongScale(t.y, 0, 2 * z, p);
      assert (2 * z) * t.y == 2 * (t.y * z);
      CongTrans(z3, 2 * (t.y * z), 0, p);
    } else {
      UnitProduct(a.y, (z * z) * z, p);
      NotZeroAlong(t.y, a.y * ((z * z) * z), p);
      UnitProduct(t.y, z, p);
      UnitProduct(2, t.y * z, p);
      NotZeroAlong(z3, 2 * (t.y * z), p);
      UnitProduct(2, a.y, p);
    }
  }

  lemma DoubleFinite(c: Params, t: Triple, a: Affine, m: int, xy: int, y4: int, z3: int, R: Triple)
    requires c.Valid() && t.In(c.p) && t.z != 0 && a.Finite? && Represents(t, a.x, a.y, c.p)
    requires a.y != 0 && !Cong(2 * a.y, 0, c.p) && z3 != 0 && 0 <= z3 < c.p
    requires m == DoubleM(c, t) && xy == DoubleXY(c, t) && y4 == Sq(Sq(t.y, c.p), c.p)
    requires Cong(z3, 2 * (t.y * t.z), c.p)
    requires R == DoubleTail(m, xy, y4, z3, c.p) && R.In(c.p) && R.z == z3
    ensures PointOf(R, c.p) == Twice(c, a)
  {
    hide Cong, FMul, FSub, FAdd, FDiv, PointOf, Chord, Prime, DoubleM, DoubleXY, DoubleTail, Sq, Tangent;
    var p := c.p;
    var l := Tangent(c, a.x, a.y);
    DoubleMValue(c, t);
    DoubleXYValue(c, t);
    DoubleTailValue(m, xy, y4, z3, p);
    FourthPower(t.y, y4, p);
    DoubleScaled(t, a.x, a.y, m, xy, y4, z3, c.a, p);
    TangentSlope(c, a.x, a.y, l, m, (t.z * t.z) * (t.z * t.z), z3);
    ChordScaled(l, a.x, a.y, a.x, z3, m, xy, 8 * y4, 2 * xy, R.x, R.y, p);
    ChordValue(l, a.x, a.y, a.x, p);
    RepresentedPoint(R, Chord(l, a.x, a.y, a.x, p).x, Chord(l, a.x, a.y, a.x, p).y, p);
  }

  lemma FourthPower(y: int, y4: int, p: nat)
    requires p > 0 && y4 == Sq(Sq(y, p), p)
    ensures Cong(y4, (y * y) * (y * y), p)
  {
    hide Cong, FMul;
    FieldCong(y, y, p);
    FieldOps(Sq(y, p), y * y, Sq(y, p), y * y, p);
  }

  /** With X = x z^2 and Y = y z^3: the parts of the doubling in units of z3 = 2 y z^4. */
  lemma DoubleScaled(t: Triple, x: int, y: int, m: int, xy: int, y4: int, z3: int, a: int, p: nat)
    requires Represents(t, x, y, p) && Cong(z3, 2 * (t.y * t.z), p)
    requires Cong(m, 3 * (t.x * t.x) + a * ((t.z * t.z) * (t.z * t.z)), p)
    requires Cong(xy, 4 * (t.x * (t.y * t.y)), p) && Cong(y4, (t.y * t.y) * (t.y * t.y), p)
    ensures var z := t.z;
            && Cong(z3, (2 * y) * ((z * z) * (z * z)), p)
            && Cong(m, (3 * (x * x) + a) * ((z * z) * (z * z)), p)
            && Cong(xy, x * (z3 * z3), p)
            && Cong(2 * xy, (x + x) * (z3 * z3), p)
            && Cong(8 * y4, y * ((z3 * z3) * z3), p)
  {
    hide Cong;
    var z := t.z;
    var w, v := z * z, (z * z) * z;
    // z3
    CongScale(t.y, y * v, 2 * z, p);
    Gather1(y, z, t.y);
    CongTrans(z3, (2 * z) * t.y, (2 * z) * (y * v), p);
    // m
    CongMul(t.x, x * w, t.x, x * w, p);
    CongScale(t.x * t.x, (x * w) * (x * w), 3, p);
    CongRefl(a * (w * w), p);
    CongAdd(3 * (t.x * t.x), 3 * ((x * w) * (x * w)), a * (w * w), a * (w * w), p);
    Squares(x, w);
    MulDist(3 * (x * x), a, w * w);
    CongTrans(m, 3 * (t.x * t.x) + a * (w * w), (3 * (x * x) + a) * (w * w), p);
    // 4 X Y^2 = x (2 Y z)^2
    var q := 2 * (t.y * z);
    CongSym(z3, q, p);
    CongMul(q, z3, q, z3, p);
    CongScale(t.x, x * w, 4 * (t.y * t.y), p);
    Gather2(x, z, t.x, t.y);
    CongScale(q * q, z3 * z3, x, p);
    CongTrans(xy, (4 * (t.y * t.y)) * t.x, x * (q * q), p);
    CongTrans(xy, x * (q * q), x * (z3 * z3), p);
    CongScale(xy, x * (z3 * z3), 2, p);
    MulDist(x, x, z3 * z3);
    // 8 Y^4 = y (2 Y z)^3
    CongMul(q * q, z3 * z3, q, z3, p);
    CongScale(y4, (t.y * t.y) * (t.y * t.y), 8, p);
    CongScale(t.y, y * v, 8 * ((t.y * t.y) * t.y), p);
    Gather3(y, z, t.y);
    CongScale((q * q) * q, (z3 * z3) * z3, y, p);
    CongTrans(8 * y4, (8 * ((t.y * t.y) * t.y)) * t.y, y * ((q * q) * q), p);
    CongTrans(8 * y4, y * ((q * q) * q), y * ((z3 * z3) * z3), p);
  }

  lemma Gather1(y: int, z: int, Y: int)
    ensures (2 * z) * Y == 2 * (Y * z)
    ensures (2 * z) * (y * ((z * z) * z)) == (2 * y) * ((z * z) * (z * z))
  {
    var w := z * z;
    MulSwap(2, z, y * (w * z));
    MulSwap(z, y, w * z);
    MulSwap(z, w, z);
    MulAssoc(2, y, w * w);
    assert z * (y * (w * z)) == y * (w * w);
    assert (2 * z) * (y * (w * z)) == 2 * (z * (y * (w * z))) by {
      MulAssoc(2, z, y * (w * z));
    }
  }

  lemma Gather2(x: int, z: int, X: int, Y: int)
    ensures (4 * (Y * Y)) * X == 4 * (X * (Y * Y))
    ensures var q := 2 * (Y * z); (4 * (Y * Y)) * (x * (z * z)) == x * (q * q)
  {
    var q, w := 2 * (Y * z), z * z;
    MulAssoc(4, Y * Y, X);
    Squares(Y, z);
    assert q * q == 4 * ((Y * z) * (Y * z)) by {
      MulSwap(2, Y * z, q);
    }
    MulAssoc(4, Y * Y, x * w);
    MulSwap(Y * Y, x, w);
    MulSwap(4, x, (Y * Y) * w);
  }

  lemma Gather3(y: int, z: int, Y: int)
    ensures (8 * ((Y * Y) * Y)) * Y == 8 * ((Y * Y) * (Y * Y))
    ensures var q := 2 * (Y * z); (8 * ((Y * Y) * Y)) * (y * ((z * z) * z)) == y * ((q * q) * q)
  {
    var q := 2 * (Y * z);
    var c, v := (Y * Y) * Y, (z * z) * z;
    MulAssoc(8, c, Y);
    MulAssoc(Y * Y, Y, Y);
    Cubes(Y, z);
    assert (q * q) * q == 8 * (((Y * z) * (Y * z)) * (Y * z)) by {
      DoubleCube(Y * z);
    }
    MulAssoc(8, c, y * v);
    MulSwap(c, y, v);
    MulSwap(8, y, c * v);
  }

  lemma DoubleCube(e: int)
    ensures ((2 * e) * (2 * e)) * (2 * e) == 8 * ((e * e) * e)
  {
    Squares(2, e);
    MulAssoc(4, e * e, 2 * e);
    MulSwap(e * e, 2, e);
  }

  lemma TangentSlope(c: Params, x: int, y: int, l: int, m: int, w: int, z3: int)
    requires c.Valid() && !Cong(2 * y, 0, c.p) && l == Tangent(c, x, y)
    requires Cong(m, (3 * (x * x) + c.a) * w, c.p)
    requires Cong(z3, (2 * y) * w, c.p)
    ensures Cong(m, l * z3, c.p)
  {
    hide FDiv, Prime;
    SlopeThrough(3 * (x * x) + c.a, 2 * y, l, m, w, z3, c.p);
  }

  lemma SlopeThrough(e: int, d: int, l: int, m: int, w: int, z3: int, p: nat)
    requires Prime(p) && !Cong(d, 0, p) && l == FDiv(e, d, p)
    requires Cong(m, e * w, p) && Cong(z3, d * w, p)
    ensures Cong(m, l * z3, p)
  {
    hide Cong, FDiv, Prime;
    DivWorks(e, d, p);
    CongSym(l * d, e, p);
    CongScale(e, l * d, w, p);
    CongTrans(m, w * e, w * (l * d), p);
    CongSym(z3, d * w, p);
    CongScale(d * w, z3, l, p);
    MulSwap(w, l, d);
    CongTrans(m, l * (d * w), l * z3, p);
  }

  // ---------- The in-place operations ----------

  class Ec {
    var x: int
    var y: int
    var z: int

    function Val(): Triple
      reads this
    {
      Triple(x, y, z)
    }

    constructor (t: Triple)
      ensures Val() == t
    {
      x, y, z := t.x, t.y, t.z;
    }

    method Clear()
      modifies this
      ensures Val() == Triple(0, 0, 0)
    {
      x, y, z := 0, 0, 0;
    }

    method Copy(q: Ec)
      modifies this
      ensures Val() == old(q.Val())
    {
      x, y, z := q.x, q.y, q.z;
    }
  }

  lemma TwiceStays(c: Params, t: Triple)
    requires c.Valid() && t.In(c.p) && OnCurve(c, PointOf(t, c.p))
    ensures OnCurve(c, Twice(c, PointOf(t, c.p)))
  {
    hide OnCurve, Twice, Prime;
    if t.z != 0 {
      PointIn(t, c.p);
    }
    TwiceOnCurve(c, PointOf(t, c.p));
  }

  lemma PlusStays(c: Params, t: Triple, s: Triple)
    requires c.Valid() && t.In(c.p) && s.In(c.p) && OnCurve(c, PointOf(t, c.p)) && OnCurve(c, PointOf(s, c.p))
    ensures OnCurve(c, Plus(c, PointOf(t, c.p), PointOf(s, c.p)))
  {
    hide OnCurve, Plus, Prime;
    if t.z != 0 {
      PointIn(t, c.p);
    }
    if s.z != 0 {
      PointIn(s, c.p);
    }
    PlusOnCurve(c, PointOf(t, c.p), PointOf(s, c.p));
  }

  /** The result may be the argument itself. */
  method DblJacobi(c: Params, R: Ec, P: Ec)
    requires c.Valid() && P.Val().In(c.p)
    modifies R
    ensures R.Val().In(c.p)
    ensures PointOf(R.Val(), c.p) == Twice(c, PointOf(old(P.Val()), c.p))
    ensures OnCurve(c, PointOf(old(P.Val()), c.p)) ==> OnCurve(c, PointOf(R.Val(), c.p))
  {
    hide FMul, FAdd, FSub, FDiv, Cong, Prime, PointOf, Twice, DoubleTail, OnCurve;
    var p := c.p;
    ghost var t := P.Val();
    if OnCurve(c, PointOf(t, p)) {
      TwiceStays(c, t);
    }
    if P.z == 0 {
      TwiceInfinity(c, t);
      R.Clear();
      return;
    }
    var isPzOne := P.z == 1;
    var x2 := FMul(P.x, P.x, p);
    var y2 := FMul(P.y, P.y, p);
    var xy;
    if c.small {
      xy := FMul(P.x, y2, p);
      xy := FAdd(xy, xy, p);
      y2 := FMul(y2, y2, p);
    } else {
      xy := FAdd(P.x, y2, p);
      y2 := FMul(y2, y2, p);
      xy := FMul(xy, xy, p);
      xy := FSub(xy, x2, p);
      xy := FSub(xy, y2, p);
    }
    xy := FAdd(xy, xy, p);
    assert xy == DoubleXY(c, t);
    var s;
    match c.special {
      case ZeroA =>
        s := FAdd(x2, x2, p);
        x2 := FAdd(x2, s, p);
      case Minus3 =>
        if isPzOne {
          x2 := FSub(x2, P.z, p);
        } else {
          s := FMul(P.z, P.z, p);
          s := FMul(s, s, p);
          x2 := FSub(x2, s, p);
        }
        s := FAdd(x2, x2, p);
        x2 := FAdd(x2, s, p);
      case GenericA =>
        if isPzOne {
          s := c.a;
        } else {
          s := FMul(P.z, P.z, p);
          s := FMul(s, s, p);
          s := FMul(s, c.a, p);
        }
        s := FAdd(s, x2, p);
        x2 := FAdd(x2, x2, p);
        x2 := FAdd(x2, s, p);
    }
    assert x2 == DoubleM(c, t);
    var rx := FMul(x2, x2, p);
    rx := FSub(rx, xy, p);
    R.x := FSub(rx, xy, p);
    if isPzOne {
      R.z := P.y;
    } else {
      R.z := FMul(P.y, P.z, p);
    }
    R.z := FAdd(R.z, R.z, p);
    assert R.z == DoubleZ(t, p);
    R.y := FSub(xy, R.x, p);
    R.y := FMul(R.y, x2, p);
    ghost var y4 := y2;
    y2 := FAdd(y2, y2, p);
    y2 := FAdd(y2, y2, p);
    y2 := FAdd(y2, y2, p);
    R.y := FSub(R.y, y2, p);
    DoubleTailIs(R.Val(), DoubleM(c, t), DoubleXY(c, t), y4, DoubleZ(t, p), p);
    DoubleRight(c, t);
  }

  lemma DoubleTailIs(R: Triple, m: int, xy: int, y4: int, z3: int, p: nat)
    requires p > 0 && R.x == FSub(FSub(Sq(m, p), xy, p), xy, p) && R.z == z3
    requires var y2 := FAdd(y4, y4, p); var y3 := FAdd(y2, y2, p);
             R.y == FSub(FMul(FSub(xy, R.x, p), m, p), FAdd(y3, y3, p), p)
    ensures R == DoubleTail(m, xy, y4, z3, p)
  {
    hide FMul, FAdd, FSub;
  }

  lemma TwiceInfinity(c: Params, t: Triple)
    requires c.p > 0 && t.z == 0
    ensures Triple(0, 0, 0).In(c.p) && PointOf(Triple(0, 0, 0), c.p) == Twice(c, PointOf(t, c.p)) == Infinity
  {
  }

  /** The result may be either argument. */
  method AddJacobi(c: Params, R: Ec, P: Ec, Q: Ec)
    requires c.Valid() && P.Val().In(c.p) && Q.Val().In(c.p)
    modifies R
    ensures R.Val().In(c.p)
    ensures PointOf(R.Val(), c.p) == Plus(c, PointOf(old(P.Val()), c.p), PointOf(old(Q.Val()), c.p))
    ensures OnCurve(c, PointOf(old(P.Val()), c.p)) && OnCurve(c, PointOf(old(Q.Val()), c.p)) ==>
              OnCurve(c, PointOf(R.Val(), c.p))
  {
    hide FMul, FAdd, FSub, FDiv, Cong, Prime, PointOf, Twice, Chord, AddTail, CrossZ, Plus, OnCurve;
    var p := c.p;
    ghost var t, q := P.Val(), Q.Val();
    if OnCurve(c, PointOf(t, p)) && OnCurve(c, PointOf(q, p)) {
      PlusStays(c, t, q);
    }
    PlusCases(c, t, q);
    if P.z == 0 {
      R.Copy(Q);
      return;
    }
    if Q.z == 0 {
      R.Copy(P);
      return;
    }
    var isPzOne := P.z == 1;
    var isQzOne := Q.z == 1;
    var r, U1, S1, H := 0, 0, 0, 0;
    if !isPzOne {
      r := FMul(P.z, P.z, p);
    }
    if isQzOne {
      U1 := P.x;
      if isPzOne {
        H := Q.x;
      } else {
        H := FMul(Q.x, r, p);
      }
      H := FSub(H, U1, p);
      S1 := P.y;
    } else {
      S1 := FMul(Q.z, Q.z, p);
      U1 := FMul(P.x, S1, p);
      if isPzOne {
        H := Q.x;
      } else {
        H := FMul(Q.x, r, p);
      }
      H := FSub(H, U1, p);
      S1 := FMul(S1, Q.z, p);
      S1 := FMul(S1, P.y, p);
    }
    if isPzOne {
      r := Q.y;
    } else {
      r := FMul(r, P.z, p);
      r := FMul(r, Q.y, p);
    }
    r := FSub(r, S1, p);
    assert U1 == CrossX(t, q, p) && S1 == CrossY(t, q, p);
    assert H == FSub(CrossX(q, t, p), U1, p) && r == FSub(CrossY(q, t, p), S1, p);
    ghost var a, b := PointOf(t, p), PointOf(q, p);
    PointRepresented(t, p);
    PointRepresented(q, p);
    PointIn(t, p);
    PointIn(q, p);
    ZeroTests(t, q, a, b, p, U1, S1, H, r);
    if H == 0 {
      if r == 0 {
        DblJacobi(c, R, P);
      } else {
        R.Clear();
        ZeroIsInfinity(Triple(0, 0, 0), p);
      }
      return;
    }
    AddGeneric(c, t, q, a, b, U1, S1, H, r);
    ghost var u0 := U1;
    var rz;
    if isPzOne {
      if isQzOne {
        rz := H;
      } else {
        rz := FMul(H, Q.z, p);
      }
    } else {
      if isQzOne {
        rz := FMul(P.z, H, p);
      } else {
        rz := FMul(P.z, Q.z, p);
        rz := FMul(rz, H, p);
      }
    }
    CrossZIs(t, q, H, rz, p);
    R.z := rz;
    var H3 := FMul(H, H, p);
    R.y := FMul(r, r, p);
    U1 := FMul(U1, H3, p);
    H3 := FMul(H3, H, p);
    R.y := FSub(R.y, U1, p);
    R.y := FSub(R.y, U1, p);
    R.x := FSub(R.y, H3, p);
    ghost var v := U1;
    U1 := FSub(U1, R.x, p);
    U1 := FMul(U1, r, p);
    H3 := FMul(H3, S1, p);
    R.y := FSub(U1, H3, p);
    AddTailIs(R.Val(), u0, S1, H, r, rz, p);
    AddTailIn(u0, S1, H, r, rz, p);
  }

  lemma PlusCases(c: Params, t: Triple, s: Triple)
    requires c.p > 0
    ensures var a, b := PointOf(t, c.p), PointOf(s, c.p);
            && (a.Infinity? <==> t.z == 0) && (b.Infinity? <==> s.z == 0)
            && (t.z == 0 ==> Plus(c, a, b) == b)
            && (s.z == 0 ==> Plus(c, a, b) == a)
            && (t.z != 0 && s.z != 0 && a.x == b.x ==> Plus(c, a, b) == if a.y == b.y then Twice(c, a) else Infinity)
  {
    hide FDiv, FMul, Chord, Twice;
  }

  lemma CrossZIs(t: Triple, s: Triple, h: int, rz: int, p: nat)
    requires p > 0 && 0 <= h < p
    requires rz == if t.z == 1 then (if s.z == 1 then h else FMul(h, s.z, p))
                   else (if s.z == 1 then FMul(t.z, h, p) else FMul(FMul(t.z, s.z, p), h, p))
    ensures rz == CrossZ(t, s, h, p) && 0 <= rz < p
  {
    hide FMul;
  }

  lemma AddTailIs(R: Triple, u: int, s: int, h: int, r: int, z3: int, p: nat)
    requires p > 0 && R.z == z3
    requires var h2 := FMul(h, h, p); var v := FMul(u, h2, p); var h3 := FMul(h2, h, p);
             && R.x == FSub(FSub(FSub(FMul(r, r, p), v, p), v, p), h3, p)
             && R.y == FSub(FMul(FSub(v, R.x, p), r, p), FMul(h3, s, p), p)
    ensures R == AddTail(u, s, h, r, z3, p)
  {
    hide FMul, FAdd, FSub;
  }

  // ---------- Affine mode ----------

  /** In affine mode a point is zero or has z = 1. */
  predicate Normal(t: Triple) {
    t.z == 0 || t.z == 1
  }

  lemma NormalPoint(t: Triple, p: nat)
    requires Prime(p) && t.In(p) && t.z == 1
    ensures PointOf(t, p) == Finite(t.x, t.y)
  {
    hide FDiv, FMul, Prime;
    CongRefl(t.x, p);
    CongRefl(t.y, p);
    hide Cong;
    RepresentedPoint(t, t.x, t.y, p);
  }

  lemma DivReduced(x: int, x': int, y: int, y': int, p: nat)
    requires Prime(p) && Cong(x, x', p) && Cong(y, y', p) && !Cong(y, 0, p)
    ensures FDiv(x, y, p) == FDiv(x', y', p)
  {
    hide FDiv, Cong, Prime;
    CongSym(y, y', p);
    NotZeroAlong(y', y, p);
    DivWorks(x', y', p);
    var q := FDiv(x', y', p);
    CongScale(y', y, q, p);
    CongSym(q * y', q * y, p);
    CongTrans(q * y, q * y', x', p);
    CongSym(x, x', p);
    CongTrans(q * y, x', x, p);
    CongSym(q * y, x, p);
    DivUnique(x, q, y, p);
  }

  method DblAffine(c: Params, R: Ec, P: Ec)
    requires c.Valid() && P.Val().In(c.p) && Normal(P.Val())
    modifies R
    ensures R.Val().In(c.p) && Normal(R.Val())
    ensures PointOf(R.Val(), c.p) == Twice(c, PointOf(old(P.Val()), c.p))
    ensures OnCurve(c, PointOf(old(P.Val()), c.p)) ==> OnCurve(c, PointOf(R.Val(), c.p))
  {
    hide FMul, FAdd, FSub, FDiv, Cong, Prime, PointOf, Chord, Tangent, OnCurve;
    var p := c.p;
    ghost var q := P.Val();
    if OnCurve(c, PointOf(q, p)) {
      TwiceStays(c, q);
    }
    PlusCases(c, q, q);
    ZeroIsInfinity(Triple(0, 0, 0), p);
    if P.z == 0 {
      R.Clear();
      return;
    }
    NormalPoint(q, p);
    if P.y == 0 {
      R.Clear();
      return;
    }
    var t := FMul(P.x, P.x, p);
    var s := FAdd(t, t, p);
    t := FAdd(t, s, p);
    t := FAdd(t, c.a, p);
    s := FAdd(P.y, P.y, p);
    TangentIs(c, q, t, s);
    t := FDiv(t, s, p);
    s := FMul(t, t, p);
    s := FSub(s, P.x, p);
    var x3 := FSub(s, P.x, p);
    s := FSub(P.x, x3, p);
    s := FMul(s, t, p);
    R.y := FSub(s, P.y, p);
    R.x := x3;
    R.z := 1;
    NormalPoint(R.Val(), p);
    ChordIs(t, q.x, q.y, q.x, R.x, R.y, p);
  }

  lemma ChordIs(l: int, x1: int, y1: int, x2: int, x3: int, y3: int, p: nat)
    requires p > 0 && x3 == FSub(FSub(FMul(l, l, p), x1, p), x2, p)
    requires y3 == FSub(FMul(FSub(x1, x3, p), l, p), y1, p)
    ensures Chord(l, x1, y1, x2, p) == Finite(x3, y3)
  {
    hide FSub;
    assert FMul(FSub(x1, x3, p), l, p) == FMul(l, FSub(x1, x3, p), p);
  }

  lemma TangentIs(c: Params, q: Triple, t: int, s: int)
    requires c.Valid() && q.In(c.p) && q.y != 0
    requires var x2 := FMul(q.x, q.x, c.p);
             t == FAdd(FAdd(x2, FAdd(x2, x2, c.p), c.p), c.a, c.p) && s == FAdd(q.y, q.y, c.p)
    ensures FDiv(t, s, c.p) == Tangent(c, q.x, q.y)
  {
    hide FMul, FAdd, FSub, FDiv, Cong, Prime;
    var p := c.p;
    var x2 := FMul(q.x, q.x, p);
    FieldCong(q.x, q.x, p);
    CongRefl(c.a, p);
    var X := q.x * q.x;
    FieldOps(x2, X, x2, X, p);
    FieldOps(x2, X, FAdd(x2, x2, p), X + X, p);
    FieldOps(FAdd(x2, FAdd(x2, x2, p), p), 3 * X, c.a, c.a, p);
    FieldCong(q.y, q.y, p);
    ReducedUnit(q.y, p);
    ReducedUnit(2, p);
    UnitProduct(2, q.y, p);
    NotZeroAlong(s, 2 * q.y, p);
    DivReduced(t, 3 * X + c.a, s, 2 * q.y, p);
  }

  method AddAffine(c: Params, R: Ec, P: Ec, Q: Ec)
    requires c.Valid() && P.Val().In(c.p) && Q.Val().In(c.p) && Normal(P.Val()) && Normal(Q.Val())
    modifies R
    ensures R.Val().In(c.p) && Normal(R.Val())
    ensures PointOf(R.Val(), c.p) == Plus(c, PointOf(old(P.Val()), c.p), PointOf(old(Q.Val()), c.p))
    ensures OnCurve(c, PointOf(old(P.Val()), c.p)) && OnCurve(c, PointOf(old(Q.Val()), c.p)) ==>
              OnCurve(c, PointOf(R.Val(), c.p))
  {
    hide FMul, FAdd, FSub, FDiv, Cong, Prime, PointOf, Chord, Twice, OnCurve;
    var p := c.p;
    ghost var a, b := P.Val(), Q.Val();
    if OnCurve(c, PointOf(a, p)) && OnCurve(c, PointOf(b, p)) {
      PlusStays(c, a, b);
    }
    PlusCases(c, a, b);
    if P.z == 0 {
      R.Copy(Q);
      return;
    }
    if Q.z == 0 {
      R.Copy(P);
      return;
    }
    NormalPoint(a, p);
    NormalPoint(b, p);
    var t := FSub(Q.x, P.x, p);
    SubZero(Q.x, P.x, p);
    if t == 0 {
      if P.y == Q.y {
        DblAffine(c, R, P);
      } else {
        R.Clear();
        ZeroIsInfinity(Triple(0, 0, 0), p);
      }
      return;
    }
    var s := FSub(Q.y, P.y, p);
    ChordSlopeIs(a, b, t, s, p);
    t := FDiv(s, t, p);
    var x3 := FMul(t, t, p);
    x3 := FSub(x3, P.x, p);
    x3 := FSub(x3, Q.x, p);
    s := FSub(P.x, x3, p);
    s := FMul(s, t, p);
    R.y := FSub(s, P.y, p);
    R.x := x3;
    R.z := 1;
    NormalPoint(R.Val(), p);
    ChordIs(t, a.x, a.y, b.x, R.x, R.y, p);
  }

  lemma SubZero(x: int, y: int, p: nat)
    requires 0 <= x < p && 0 <= y < p
    ensures FSub(x, y, p) == 0 <==> x == y
  {
    if x >= y {
      QuotientIs(x - y, 0, x - y, p);
    } else {
      QuotientIs(x - y, -1, x - y + p, p);
    }
  }

  lemma ChordSlopeIs(a: Triple, b: Triple, t: int, s: int, p: nat)
    requires Prime(p) && a.In(p) && b.In(p) && a.x != b.x
    requires t == FSub(b.x, a.x, p) && s == FSub(b.y, a.y, p)
    ensures FDiv(s, t, p) == FDiv(b.y - a.y, b.x - a.x, p)
  {
    hide FDiv, FSub, Cong, Prime;
    FieldCong(b.x, a.x, p);
    FieldCong(b.y, a.y, p);
    UnitDifference(b.x, a.x, p);
    NotZeroAlong(t, b.x - a.x, p);
    DivReduced(s, b.y - a.y, t, b.x - a.x, p);
  }

  // ---------- Normalisation ----------

  function Normalized(t: Triple, inv: int, p: nat): Triple
    requires p > 0
  {
    var inv2 := Sq(inv, p);
    Triple(FMul(t.x, inv2, p), FMul(FMul(t.y, inv2, p), inv, p), 1)
  }

  /** Dividing by z leaves the point as it is. */
  lemma NormalizedPoint(t: Triple, p: nat)
    requires Prime(p) && t.In(p) && t.z != 0
    ensures var n := Normalized(t, Inverse(t.z, p), p);
            n.In(p) && Normal(n) && PointOf(n, p) == PointOf(t, p)
  {
    hide Cong, FMul, Prime, Inverse, PointOf;
    PrimeAboveOne(p);
    var i := Inverse(t.z, p);
    var n := Normalized(t, i, p);
    InverseWorks(t.z, p);
    FieldCong(i, i, p);
    CongRefl(i, p);
    CongRefl(t.x, p);
    CongRefl(t.y, p);
    FieldOps(t.x, t.x, Sq(i, p), i * i, p);
    FieldOps(t.y, t.y, Sq(i, p), i * i, p);
    FieldOps(FMul(t.y, Sq(i, p), p), t.y * (i * i), i, i, p);
    CongMul(i * t.z, 1, i * t.z, 1, p);
    Squares(i, t.z);
    ScaledBack(t.x, n.x, i * i, t.z * t.z, p);
    CongMul((i * t.z) * (i * t.z), 1, i * t.z, 1, p);
    Cubes(i, t.z);
    MulAssoc(t.y, i * i, i);
    ScaledBack(t.y, n.y, (i * i) * i, (t.z * t.z) * t.z, p);
    RepresentedPoint(t, n.x, n.y, p);
    NormalPoint(n, p);
  }

  lemma ScaledBack(x: int, r: int, i: int, z: int, p: nat)
    requires Cong(r, x * i, p) && Cong(i * z, 1, p)
    ensures Cong(x, r * z, p)
  {
    hide Cong;
    CongScale(r, x * i, z, p);
    CongScale(i * z, 1, x, p);
    MulSwap(z, x, i);
    CongTrans(z * r, x * (i * z), x, p);
    CongSym(r * z, x, p);
  }

  /** q is the point of t, normalised. */
  ghost predicate NormalFormOf(q: Triple, t: Triple, p: nat)
    requires p > 0
  {
    q.In(p) && Normal(q) && PointOf(q, p) == PointOf(t, p)
  }

  /** The z coordinates that are inverted. */
  method Depths(P: array<Triple>, lo: nat, n: nat) returns (pz: array<int>)
    requires lo + n <= P.Length
    ensures fresh(pz) && pz.Length == n && forall k :: 0 <= k < n ==> pz[k] == P[lo + k].z
  {
    pz := new int[n](i requires 0 <= i < n && lo + n <= P.Length reads P => P[lo + i].z);
  }

  /** One chunk: a field inversion for all, then every point divided by its z. */
  method NormalizeSome(Q: array<Triple>, P: array<Triple>, lo: nat, n: nat, p: nat)
    requires Prime(p) && p > 0 && lo + n <= P.Length && lo + n <= Q.Length
    requires forall k :: lo <= k < lo + n ==> P[k].In(p)
    modifies Q
    ensures forall k :: lo <= k < lo + n ==> NormalFormOf(Q[k], old(P[k]), p)
    ensures forall k :: 0 <= k < Q.Length && !(lo <= k < lo + n) ==> Q[k] == old(Q[k])
  {
    hide Prime, PointOf, Inverse, Normalized, Kept, NormalFormOf, Normal, Triple.In;
    ghost var ps := P[lo..lo + n];
    ReducedDepths(ps, p);
    var pz := Depths(P, lo, n);
    assert forall k :: 0 <= k < n ==> pz[k] == ps[k].z;
    var inv := new int[n];
    var some := InvVecWork(inv, pz, 0, n, p);
    for i := 0 to n
      invariant forall k :: i <= k < n ==> P[lo + k] == ps[k]
      invariant forall k :: 0 <= k < n ==> inv[k] == Inverse(ps[k].z, p)
      invariant forall k :: lo <= k < lo + i ==> NormalFormOf(Q[k], ps[k - lo], p)
      invariant forall k :: 0 <= k < Q.Length && !(lo <= k < lo + n) ==> Q[k] == old(Q[k])
    {
      NormalizedIs(ps[i], p);
      NormalizeAt(Q, P, lo + i, inv[i], p);
    }
  }

  method NormalizeAt(Q: array<Triple>, P: array<Triple>, at: nat, inv: int, p: nat)
    requires p > 0 && at < P.Length && at < Q.Length
    modifies Q
    ensures Q[at] == if Normal(old(P[at])) then old(P[at]) else Normalized(old(P[at]), inv, p)
    ensures forall k :: 0 <= k < Q.Length && k != at ==> Q[k] == old(Q[k])
  {
    if P[at].z == 0 || P[at].z == 1 {
      if P != Q {
        Q[at] := P[at];
      }
    } else {
      Q[at] := Normalized(P[at], inv, p);
    }
  }

  lemma ReducedDepths(ps: seq<Triple>, p: nat)
    requires forall k :: 0 <= k < |ps| ==> ps[k].In(p)
    ensures forall k :: 0 <= k < |ps| ==> 0 <= ps[k].z < p
  {
  }

  lemma NormalizedIs(t: Triple, p: nat)
    requires Prime(p) && p > 0 && t.In(p)
    ensures NormalFormOf(if Normal(t) then t else Normalized(t, Inverse(t.z, p), p), t, p)
  {
    hide Prime, PointOf, Inverse, Normalized;
    if !Normal(t) {
      NormalizedPoint(t, p);
    }
  }

  /** Q and P may be the same array. */
  method NormalizeVec(Q: array<Triple>, P: array<Triple>, n: nat, chunk: nat, p: nat)
    requires Prime(p) && p > 0 && chunk > 0 && n <= P.Length && n <= Q.Length
    requires forall k :: 0 <= k < n ==> P[k].In(p)
    modifies Q
    ensures forall k :: 0 <= k < n ==> NormalFormOf(Q[k], old(P[k]), p)
    ensures forall k :: n <= k < Q.Length ==> Q[k] == old(Q[k])
  {
    hide Prime, NormalFormOf;
    ghost var ps := P[..n];
    var lo := 0;
    while lo < n
      invariant 0 <= lo <= n
      invariant forall k :: lo <= k < n ==> P[k] == ps[k]
      invariant forall k :: 0 <= k < lo ==> NormalFormOf(Q[k], ps[k], p)
      invariant forall k :: n <= k < Q.Length ==> Q[k] == old(Q[k])
    {
      var done := if n - lo < chunk then n - lo else chunk;
      NormalizeSome(Q, P, lo, done, p);
      lo := lo + done;
    }
  }

  // ---------- The curve test ----------

  /** Y^2 == X (X^2 + a Z^4) + b Z^6 */
  method IsValidJacobi(c: Params, P: Ec) returns (ok: bool)
    requires c.Valid() && P.Val().In(c.p)
    ensures P.z != 0 ==> (ok <==> OnCurve(c, PointOf(P.Val(), c.p)))
    ensures P.z == 0 ==> (ok <==> Cong(P.y * P.y, P.x * P.x * P.x, c.p))
  {
    hide FMul, FAdd, Cong, Prime, PointOf, OnCurve;
    var p := c.p;
    var x2 := FMul(P.x, P.x, p);
    var y2 := FMul(P.y, P.y, p);
    var z2 := FMul(P.z, P.z, p);
    var z4 := FMul(z2, z2, p);
    var t := FMul(z4, c.a, p);
    t := FAdd(t, x2, p);
    t := FMul(t, P.x, p);
    z4 := FMul(z4, z2, p);
    ghost var z6 := z4;
    match c.specialB {
      case Plus1 =>
      case Plus4 =>
        z4 := FAdd(z4, z4, p);
        z4 := FAdd(z4, z4, p);
      case GenericB =>
        z4 := FMul(z4, c.b, p);
    }
    ConstantTerm(c, z6, z4);
    t := FAdd(t, z4, p);
    WeightedSides(c, P.Val(), t, y2, z6, z4);
    ok := y2 == t;
    if P.z == 0 {
      NoWeight(c, P.Val());
    } else {
      PointRepresented(P.Val(), p);
      CurveScaled(c, P.Val(), PointOf(P.Val(), p));
    }
  }

  lemma ConstantTerm(c: Params, z6: int, v: int)
    requires c.Valid() && 0 <= z6 < c.p
    requires match c.specialB
             case Plus1 => v == z6
             case Plus4 => v == FAdd(FAdd(z6, z6, c.p), FAdd(z6, z6, c.p), c.p)
             case GenericB => v == FMul(z6, c.b, c.p)
    ensures Cong(v, z6 * c.b, c.p)
  {
    hide FMul, FAdd, Cong, Prime;
    var p := c.p;
    match c.specialB {
      case Plus1 =>
        CongRefl(z6, p);
      case Plus4 =>
        FieldCong(z6, z6, p);
        var d := FAdd(z6, z6, p);
        FieldOps(d, z6 + z6, d, z6 + z6, p);
        CongSym(c.b, 4, p);
        CongScale(4, c.b, z6, p);
        CongTrans(v, z6 * 4, z6 * c.b, p);
      case GenericB =>
        FieldCong(z6, c.b, p);
    }
  }

  /** Both sides of the test, as integers. */
  function LeftSide(t: Triple): int {
    t.y * t.y
  }

  function RightSide(c: Params, t: Triple): int {
    var w := t.z * t.z;
    ((w * w) * c.a + t.x * t.x) * t.x + ((w * w) * w) * c.b
  }

  lemma WeightedSides(c: Params, t: Triple, r: int, l: int, z6: int, k: int)
    requires c.Valid() && t.In(c.p)
    requires var p := c.p; var z2 := FMul(t.z, t.z, p); var z4 := FMul(z2, z2, p);
             && z6 == FMul(z4, z2, p) && Cong(k, z6 * c.b, p) && l == FMul(t.y, t.y, p)
             && r == FAdd(FMul(FAdd(FMul(z4, c.a, p), FMul(t.x, t.x, p), p), t.x, p), k, p)
    ensures l == r <==> Cong(LeftSide(t), RightSide(c, t), c.p)
  {
    hide FMul, FAdd, Cong, Prime;
    var p := c.p;
    var z2 := FMul(t.z, t.z, p);
    var z4 := FMul(z2, z2, p);
    var w := t.z * t.z;
    FieldCong(t.z, t.z, p);
    FieldOps(z2, w, z2, w, p);
    FieldOps(z4, w * w, z2, w, p);
    CongRefl(c.a, p);
    CongRefl(c.b, p);
    CongRefl(t.x, p);
    FieldOps(z4, w * w, c.a, c.a, p);
    FieldCong(t.x, t.x, p);
    var u := FAdd(FMul(z4, c.a, p), FMul(t.x, t.x, p), p);
    FieldOps(FMul(z4, c.a, p), (w * w) * c.a, FMul(t.x, t.x, p), t.x * t.x, p);
    FieldOps(u, (w * w) * c.a + t.x * t.x, t.x, t.x, p);
    CongMul(z6, (w * w) * w, c.b, c.b, p);
    CongTrans(k, z6 * c.b, ((w * w) * w) * c.b, p);
    FieldOps(FMul(u, t.x, p), ((w * w) * c.a + t.x * t.x) * t.x, k, ((w * w) * w) * c.b, p);
    FieldCong(t.y, t.y, p);
    SameResidue(l, LeftSide(t), r, RightSide(c, t), p);
  }

  lemma SameResidue(l: int, l': int, r: int, r': int, p: nat)
    requires 0 <= l < p && 0 <= r < p && Cong(l, l', p) && Cong(r, r', p)
    ensures l == r <==> Cong(l', r', p)
  {
    hide Cong;
    CongSym(l, l', p);
    CongSym(r, r', p);
    if l == r {
      CongTrans(l', l, r', p);
    } else if Cong(l', r', p) {
      CongTrans(l, l', r', p);
      CongTrans(l, r', r, p);
      CongUnique(l, r, p);
    }
  }

  lemma NoWeight(c: Params, t: Triple)
    requires t.z == 0
    ensures LeftSide(t) == t.y * t.y && RightSide(c, t) == t.x * t.x * t.x
  {
  }

  /** Both sides are those of the affine equation times z^6. */
  lemma CurveScaled(c: Params, t: Triple, s: Affine)
    requires c.Valid() && t.In(c.p) && t.z != 0 && s.Finite? && Represents(t, s.x, s.y, c.p)
    ensures Cong(LeftSide(t), RightSide(c, t), c.p) <==> OnCurve(c, s)
  {
    hide Cong, Prime, Cubic;
    var p := c.p;
    var w := t.z * t.z;
    var v := w * t.z;
    var z6 := (w * w) * w;
    CongMul(t.y, s.y * v, t.y, s.y * v, p);
    Squares(s.y, v);
    Squares(w, t.z);
    CongMul(t.x, s.x * w, t.x, s.x * w, p);
    Squares(s.x, w);
    CongRefl((w * w) * c.a, p);
    CongAdd((w * w) * c.a, (w * w) * c.a, t.x * t.x, (s.x * s.x) * (w * w), p);
    var u, u' := (w * w) * c.a + t.x * t.x, (w * w) * c.a + (s.x * s.x) * (w * w);
    CongMul(u, u', t.x, s.x * w, p);
    CongRefl(z6 * c.b, p);
    CongAdd(u * t.x, u' * (s.x * w), z6 * c.b, z6 * c.b, p);
    CubicScaled(c, s.x, w);
    SixthUnit(t.z, p);
    CancelSides(LeftSide(t), RightSide(c, t), s.y * s.y, Cubic(c, s.x), z6, p);
  }

  lemma CubicScaled(c: Params, x: int, w: int)
    ensures ((w * w) * c.a + (x * x) * (w * w)) * (x * w) + ((w * w) * w) * c.b == Cubic(c, x) * ((w * w) * w)
  {
    var q := w * w;
    MulDist(c.a, x * x, q);
    assert q * c.a + (x * x) * q == (x * x + c.a) * q;
    MulAssoc((x * x + c.a) * q, x, w);
    MulSwap(x * x + c.a, q, x);
    MulAssoc((x * x + c.a) * x, q, w);
    MulDist((x * x + c.a) * x, c.b, q * w);
  }

  lemma SixthUnit(z: int, p: nat)
    requires Prime(p) && 0 < z < p
    ensures !Cong(((z * z) * (z * z)) * (z * z), 0, p)
  {
    hide Cong, Prime;
    ReducedUnit(z, p);
    UnitProduct(z, z, p);
    UnitProduct(z * z, z * z, p);
    UnitProduct((z * z) * (z * z), z * z, p);
  }

  lemma CancelSides(l: int, r: int, l': int, r': int, k: int, p: nat)
    requires Prime(p) && !Cong(k, 0, p) && Cong(l, l' * k, p) && Cong(r, r' * k, p)
    ensures Cong(l, r, p) <==> Cong(l', r', p)
  {
    hide Cong, Prime;
    CongSym(l, l' * k, p);
    CongSym(r, r' * k, p);
    if Cong(l, r, p) {
      CongTrans(l' * k, l, r, p);
      CongTrans(l' * k, r, r' * k, p);
      CancelUnit(l', r', k, p);
    }
    if Cong(l', r', p) {
      CongScale(l', r', k, p);
      assert k * l' == l' * k && k * r' == r' * k;
      CongTrans(l, l' * k, r' * k, p);
      CongTrans(l, r' * k, r, p);
    }
  }

  /** y^2 == (x^2 + a) x + b */
  method IsValidAffine(c: Params, P: Ec) returns (ok: bool)
    requires c.Valid() && P.Val().In(c.p) && P.z == 1
    ensures ok <==> OnCurve(c, PointOf(P.Val(), c.p))
  {
    hide FMul, FAdd, Cong, Prime, PointOf;
    var p := c.p;
    NormalPoint(P.Val(), p);
    var y2 := FMul(P.y, P.y, p);
    var t := FMul(P.x, P.x, p);
    FieldCong(P.y, P.y, p);
    FieldCong(P.x, P.x, p);
    CongRefl(c.a, p);
    CongRefl(c.b, p);
    CongRefl(P.x, p);
    FieldOps(t, P.x * P.x, c.a, c.a, p);
    t := FAdd(t, c.a, p);
    FieldOps(t, P.x * P.x + c.a, P.x, P.x, p);
    t := FMul(t, P.x, p);
    FieldOps(t, (P.x * P.x + c.a) * P.x, c.b, c.b, p);
    t := FAdd(t, c.b, p);
    ok := y2 == t;
    SameResidue(y2, P.y * P.y, t, Cubic(c, P.x), p);
  }

  /** Without the check of the order. In affine mode only normal points are valid. */
  method IsValid(c: Params, P: Ec, affineMode: bool) returns (ok: bool)
    requires c.Valid() && P.Val().In(c.p)
    ensures ok <==> (affineMode ==> Normal(P.Val())) && OnCurve(c, PointOf(P.Val(), c.p))
  {
    if P.z == 0 {
      return true;
    }
    hide FMul, FAdd, Cong, Prime, PointOf, OnCurve;
    if P.z == 1 {
      ok := IsValidAffine(c, P);
    } else if !affineMode {
      ok := IsValidJacobi(c, P);
    } else {
      ok := false;
    }
  }
}
