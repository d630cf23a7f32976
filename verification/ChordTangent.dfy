/** The chord-and-tangent sum of two points of y^2 = x^3 + a x + b over a prime field: the formulas
    give the reflected third intersection of a line with the curve. */
module ChordTangent {
  import opened Arith
  import opened Field

  datatype SpecialA = ZeroA | Minus3 | GenericA

  datatype SpecialB = Plus1 | Plus4 | GenericB

  /** The curve. `small` is the branch taken for fields of at most 32 bytes. */
  datatype Params = Params(p: nat, a: int, b: int, special: SpecialA, specialB: SpecialB, small: bool) {
    ghost predicate Valid() {
      && p > 2 && Prime(p) && 0 <= a < p && 0 <= b < p
      && (special == ZeroA ==> a == 0)
      && (special == Minus3 ==> Cong(a, -3, p))
      && (specialB == Plus1 ==> b == 1)
      && (specialB == Plus4 ==> Cong(b, 4, p))
    }
  }

  datatype Affine = Infinity | Finite(x: int, y: int) {
    predicate In(p: nat) {
      Finite? ==> 0 <= x < p && 0 <= y < p
    }
  }

  function Sq(x: int, p: nat): (r: int)
    requires p > 0
    ensures 0 <= r < p
  {
    FMul(x, x, p)
  }

  /** Third intersection of the line of slope l through (x1, y1) and (x2, _), reflected. */
  function Chord(l: int, x1: int, y1: int, x2: int, p: nat): Affine
    requires p > 0
  {
    var x3 := FSub(FSub(Sq(l, p), x1, p), x2, p);
    Finite(x3, FSub(FMul(l, FSub(x1, x3, p), p), y1, p))
  }

  function Tangent(c: Params, x: int, y: int): int
    requires c.p > 0
  {
    FDiv(3 * (x * x) + c.a, 2 * y, c.p)
  }

  function Twice(c: Params, s: Affine): Affine
    requires c.p > 0
  {
    if s.Infinity? || s.y == 0 then Infinity else Chord(Tangent(c, s.x, s.y), s.x, s.y, s.x, c.p)
  }

  function Plus(c: Params, s: Affine, t: Affine): Affine
    requires c.p > 0
  {
    if s.Infinity? then t
    else if t.Infinity? then s
    else if s.x == t.x then (if s.y == t.y then Twice(c, s) else Infinity)
    else Chord(FDiv(t.y - s.y, t.x - s.x, c.p), s.x, s.y, t.x, c.p)
  }

  lemma ChordValue(l: int, x1: int, y1: int, x2: int, p: nat)
    requires p > 0
    ensures var c := Chord(l, x1, y1, x2, p);
            && c.Finite? && c.In(p)
            && Cong(c.x, l * l - x1 - x2, p)
            && Cong(c.y, l * (x1 - c.x) - y1, p)
  {
    hide Cong, FMul, FSub;
    var c := Chord(l, x1, y1, x2, p);
    FieldCong(l, l, p);
    CongRefl(x1, p);
    CongRefl(x2, p);
    CongRefl(y1, p);
    CongRefl(l, p);
    FieldOps(Sq(l, p), l * l, x1, x1, p);
    FieldOps(FSub(Sq(l, p), x1, p), l * l - x1, x2, x2, p);
    FieldCong(x1, c.x, p);
    FieldOps(l, l, FSub(x1, c.x, p), x1 - c.x, p);
    FieldOps(FMul(l, FSub(x1, c.x, p), p), l * (x1 - c.x), y1, y1, p);
  }

  // ---------- The curve and a line ----------

  function Cubic(c: Params, x: int): int {
    (x * x + c.a) * x + c.b
  }

  ghost predicate OnCurve(c: Params, s: Affine) {
    s.Finite? ==> Cong(s.y * s.y, Cubic(c, s.x), c.p)
  }

  /** The line of slope l through (x1, y1). */
  function Line(l: int, x1: int, y1: int, x: int): int {
    y1 + l * (x - x1)
  }

  /** Zero where the line meets the curve. */
  function Gap(c: Params, l: int, x1: int, y1: int, x: int): int {
    Cubic(c, x) - Line(l, x1, y1, x) * Line(l, x1, y1, x)
  }

  /** What is left of the gap once the factor x - x1 is taken out. */
  function Cofactor(a: int, l: int, x1: int, y1: int, x: int): int {
    x * x + x * x1 + x1 * x1 + a - l * (2 * y1 + l * (x - x1))
  }

  lemma SquareDifference(u: int, v: int)
    ensures u * u - v * v == (u - v) * (u + v)
  {
  }

  lemma CubicDifference(c: Params, x: int, y: int)
    ensures Cubic(c, x) - Cubic(c, y) == (x - y) * (x * x + x * y + y * y + c.a)
  {
    MulDist(x, y, x * x + x * y + y * y + c.a);
    MulDist(x * x, c.a, x);
    MulDist(y * y, c.a, y);
    MulDist(x * x + x * y, y * y + c.a, x);
    MulDist(x * x, x * y, x);
    MulDist(y * y, c.a, x);
    MulDist(x * x + x * y, y * y + c.a, y);
    MulDist(x * x, x * y, y);
    MulAssoc(x, x, y);
    MulSwap(x, y, x);
    MulAssoc(x, y, y);
    MulSwap(x, y, y);
    assert x * (y * y) == (x * y) * y;
    assert x * (x * y) == (x * x) * y;
  }

  lemma GapSplit(c: Params, l: int, x1: int, y1: int, x: int)
    ensures Gap(c, l, x1, y1, x) == (Cubic(c, x1) - y1 * y1) + (x - x1) * Cofactor(c.a, l, x1, y1, x)
  {
    hide Cubic;
    var d := x - x1;
    CubicDifference(c, x, x1);
    SquareDifference(y1 + l * d, y1);
    MulSwap(l, d, 2 * y1 + l * d);
    MulAssoc(l, d, 2 * y1 + l * d);
    assert y1 + l * d + y1 == 2 * y1 + l * d;
    MulDist(x * x + x * x1 + x1 * x1 + c.a, l * (2 * y1 + l * d), d);
  }

  lemma CofactorSplit(a: int, l: int, x1: int, y1: int, x2: int, x: int)
    ensures Cofactor(a, l, x1, y1, x) == Cofactor(a, l, x1, y1, x2) + (x - x2) * (x + x1 + x2 - l * l)
  {
    SquareDifference(x, x2);
    MulDist(x, x2, x1);
    MulDist(2 * y1, l * (x - x1), l);
    MulDist(2 * y1, l * (x2 - x1), l);
    MulAssoc(l, l, x - x1);
    MulAssoc(l, l, x2 - x1);
    MulDist(x - x1, x2 - x1, l * l);
    MulDist(x + x2, x1 - l * l, x - x2);
    MulDist(x1, l * l, x - x2);
  }

  /** A line through (x1, y1) whose cofactor vanishes at x2 meets the curve at x1, x2 and the chord point. */
  lemma LineMeets(c: Params, l: int, x1: int, y1: int, x2: int, x: int)
    requires c.p > 0 && Cong(y1 * y1, Cubic(c, x1), c.p) && Cong(Cofactor(c.a, l, x1, y1, x2), 0, c.p)
    ensures Cong(Gap(c, l, x1, y1, x), (x - x1) * ((x - x2) * (x - Chord(l, x1, y1, x2, c.p).x)), c.p)
  {
    hide Cong, Chord, Gap, Cubic, Cofactor;
    ChordValue(l, x1, y1, x2, c.p);
    var p, q := c.p, Chord(l, x1, y1, x2, c.p).x;
    var f, f2 := Cofactor(c.a, l, x1, y1, x), Cofactor(c.a, l, x1, y1, x2);
    var r := x + x1 + x2 - l * l;
    CongRefl(x, p);
    CongSub(x, x, q, l * l - x1 - x2, p);
    CongSym(x - q, r, p);
    CongScale(r, x - q, x - x2, p);
    CofactorSplit(c.a, l, x1, y1, x2, x);
    CongAdd(f2, 0, (x - x2) * r, (x - x2) * (x - q), p);
    CongScale(f, (x - x2) * (x - q), x - x1, p);
    GapSplit(c, l, x1, y1, x);
    CongRefl(y1 * y1, p);
    CongSym(y1 * y1, Cubic(c, x1), p);
    CongSub(Cubic(c, x1), y1 * y1, y1 * y1, y1 * y1, p);
    CongAdd(Cubic(c, x1) - y1 * y1, 0, (x - x1) * f, (x - x1) * ((x - x2) * (x - q)), p);
  }

  /** The reflected third intersection lies on the curve. */
  lemma ChordOnCurve(c: Params, l: int, x1: int, y1: int, x2: int)
    requires c.p > 0 && Cong(y1 * y1, Cubic(c, x1), c.p) && Cong(Cofactor(c.a, l, x1, y1, x2), 0, c.p)
    ensures OnCurve(c, Chord(l, x1, y1, x2, c.p))
  {
    hide Cong, Chord, Cubic, Cofactor;
    var p, q := c.p, Chord(l, x1, y1, x2, c.p);
    ChordValue(l, x1, y1, x2, p);
    LineMeets(c, l, x1, y1, x2, q.x);
    assert (q.x - x1) * ((q.x - x2) * 0) == 0;
    var y := Line(l, x1, y1, q.x);
    MulNeg(l, q.x - x1);
    assert l * (x1 - q.x) - y1 == 0 - y;
    CongMul(q.y, 0 - y, q.y, 0 - y, p);
    MulNeg(y, 0 - y);
    MulNeg(y, y);
    CongRefl(y * y, p);
    CongAdd(Cubic(c, q.x) - y * y, 0, y * y, y * y, p);
    CongSym(Cubic(c, q.x), y * y, p);
    CongTrans(q.y * q.y, y * y, Cubic(c, q.x), p);
  }

  // ---------- Sums of points of the curve ----------

  lemma TangentCofactor(c: Params, x: int, y: int)
    requires Prime(c.p) && c.p > 2 && 0 < y < c.p
    ensures Cong(Cofactor(c.a, Tangent(c, x, y), x, y, x), 0, c.p)
  {
    hide Cong, FDiv;
    var p, l, e := c.p, Tangent(c, x, y), 3 * (x * x) + c.a;
    ReducedUnit(y, p);
    ReducedUnit(2, p);
    UnitProduct(2, y, p);
    DivWorks(e, 2 * y, p);
    CongRefl(e, p);
    CongSub(e, e, l * (2 * y), e, p);
    assert l * (2 * y + l * 0) == l * (2 * y);
  }

  lemma ChordCofactor(c: Params, s: Affine, t: Affine)
    requires Prime(c.p) && s.Finite? && t.Finite? && s.In(c.p) && t.In(c.p) && s.x != t.x
    requires OnCurve(c, s) && OnCurve(c, t)
    ensures Cong(Cofactor(c.a, FDiv(t.y - s.y, t.x - s.x, c.p), s.x, s.y, t.x), 0, c.p)
  {
    hide Cong, FDiv, Cubic, Cofactor;
    var p, l, d := c.p, FDiv(t.y - s.y, t.x - s.x, c.p), t.x - s.x;
    var f := Cofactor(c.a, l, s.x, s.y, t.x);
    UnitDifference(t.x, s.x, p);
    DivWorks(t.y - s.y, d, p);
    CongRefl(s.y, p);
    CongAdd(s.y, s.y, l * d, t.y - s.y, p);
    var y := Line(l, s.x, s.y, t.x);
    CongMul(y, t.y, y, t.y, p);
    CongTrans(y * y, t.y * t.y, Cubic(c, t.x), p);
    CongSym(y * y, Cubic(c, t.x), p);
    CongRefl(y * y, p);
    CongSub(Cubic(c, t.x), y * y, y * y, y * y, p);
    GapSplit(c, l, s.x, s.y, t.x);
    CongSym(s.y * s.y, Cubic(c, s.x), p);
    CongRefl(s.y * s.y, p);
    CongSub(Cubic(c, s.x), s.y * s.y, s.y * s.y, s.y * s.y, p);
    CongSub(Gap(c, l, s.x, s.y, t.x), 0, Cubic(c, s.x) - s.y * s.y, 0, p);
    assert d * f == f * d && 0 * d == 0;
    CancelUnit(f, 0, d, p);
  }

  lemma TwiceOnCurve(c: Params, s: Affine)
    requires c.Valid() && s.In(c.p) && OnCurve(c, s)
    ensures Twice(c, s).In(c.p) && OnCurve(c, Twice(c, s))
  {
    hide Cong, Chord, Tangent, Cubic, Cofactor, Prime;
    if s.Finite? && s.y != 0 {
      ChordValue(Tangent(c, s.x, s.y), s.x, s.y, s.x, c.p);
      TangentCofactor(c, s.x, s.y);
      ChordOnCurve(c, Tangent(c, s.x, s.y), s.x, s.y, s.x);
    }
  }

  /** Sums of points of the curve are points of the curve. */
  lemma PlusOnCurve(c: Params, s: Affine, t: Affine)
    requires c.Valid() && s.In(c.p) && t.In(c.p) && OnCurve(c, s) && OnCurve(c, t)
    ensures Plus(c, s, t).In(c.p) && OnCurve(c, Plus(c, s, t))
  {
    hide Cong, Chord, Twice, OnCurve, FDiv, Cofactor, Prime;
    if s.Finite? && t.Finite? {
      if s.x == t.x {
        TwiceOnCurve(c, s);
        InfinityOnCurve(c);
      } else {
        var l := FDiv(t.y - s.y, t.x - s.x, c.p);
        ChordValue(l, s.x, s.y, t.x, c.p);
        ChordCofactor(c, s, t);
        OnCurveIs(c, s);
        ChordOnCurve(c, l, s.x, s.y, t.x);
      }
    }
  }

  lemma InfinityOnCurve(c: Params)
    ensures OnCurve(c, Infinity)
  {
  }

  lemma OnCurveIs(c: Params, s: Affine)
    requires s.Finite?
    ensures OnCurve(c, s) <==> Cong(s.y * s.y, Cubic(c, s.x), c.p)
  {
  }

  /** Two points of the curve with one x are equal or opposite, so that their sum is at infinity. */
  lemma SameX(c: Params, s: Affine, t: Affine)
    requires c.Valid() && s.Finite? && t.Finite? && s.In(c.p) && t.In(c.p) && OnCurve(c, s) && OnCurve(c, t)
    requires s.x == t.x && s.y != t.y
    ensures t.y == (0 - s.y) % c.p && Plus(c, s, t) == Infinity
  {
    hide Cong, Cubic, Prime;
    var p := c.p;
    CongSym(t.y * t.y, Cubic(c, s.x), p);
    CongTrans(s.y * s.y, Cubic(c, s.x), t.y * t.y, p);
    CongRefl(t.y * t.y, p);
    CongSub(s.y * s.y, t.y * t.y, t.y * t.y, t.y * t.y, p);
    SquareDifference(s.y, t.y);
    UnitDifference(s.y, t.y, p);
    assert (s.y - t.y) * (s.y + t.y) == (s.y + t.y) * (s.y - t.y) && 0 * (s.y - t.y) == 0;
    CancelUnit(s.y + t.y, 0, s.y - t.y, p);
    CongRefl(s.y, p);
    CongSub(s.y + t.y, 0, s.y, s.y, p);
    CongMod(0 - s.y, p);
    CongTrans(t.y, 0 - s.y, (0 - s.y) % p, p);
    CongUnique(t.y, (0 - s.y) % p, p);
  }

  /** The line whose third intersection is reflected: the tangent for equal points. */
  function Slope(c: Params, s: Affine, t: Affine): int
    requires c.p > 0 && s.Finite? && t.Finite?
  {
    if s.x == t.x then Tangent(c, s.x, s.y) else FDiv(t.y - s.y, t.x - s.x, c.p)
  }

  /** A point of the line through s and t is on the curve exactly when it is s, t or the reflected sum. */
  lemma ThirdIntersection(c: Params, s: Affine, t: Affine, u: Affine)
    requires c.Valid() && s.Finite? && t.Finite? && u.Finite? && s.In(c.p) && t.In(c.p) && u.In(c.p)
    requires OnCurve(c, s) && OnCurve(c, t) && (s.x != t.x || (s == t && s.y != 0))
    requires Cong(u.y, Line(Slope(c, s, t), s.x, s.y, u.x), c.p)
    ensures Plus(c, s, t).Finite?
    ensures OnCurve(c, u) <==> u.x == s.x || u.x == t.x || u.x == Plus(c, s, t).x
  {
    hide Cong, Chord, Prime, Tangent, FDiv, Cubic, Cofactor, Line;
    var p, l := c.p, Slope(c, s, t);
    if s.x == t.x {
      TangentCofactor(c, s.x, s.y);
    } else {
      ChordCofactor(c, s, t);
    }
    assert Plus(c, s, t) == Chord(l, s.x, s.y, t.x, p);
    ChordValue(l, s.x, s.y, t.x, p);
    var q := Plus(c, s, t);
    LineMeets(c, l, s.x, s.y, t.x, u.x);
    OnTheLine(c, l, s.x, s.y, u);
    RootsOfGap(Gap(c, l, s.x, s.y, u.x), u.x, s.x, t.x, q.x, p);
  }

  lemma OnTheLine(c: Params, l: int, x1: int, y1: int, u: Affine)
    requires u.Finite? && Cong(u.y, Line(l, x1, y1, u.x), c.p)
    ensures OnCurve(c, u) <==> Cong(Gap(c, l, x1, y1, u.x), 0, c.p)
  {
    hide Cong, Cubic, Line;
    var p, y, f := c.p, Line(l, x1, y1, u.x), Cubic(c, u.x);
    CongMul(u.y, y, u.y, y, p);
    CongRefl(y * y, p);
    if OnCurve(c, u) {
      CongSym(u.y * u.y, f, p);
      CongTrans(f, u.y * u.y, y * y, p);
      CongSub(f, y * y, y * y, y * y, p);
    }
    if Cong(f - y * y, 0, p) {
      CongAdd(f - y * y, 0, y * y, y * y, p);
      CongSym(f, y * y, p);
      CongTrans(u.y * u.y, y * y, f, p);
    }
  }

  lemma RootsOfGap(g: int, x: int, x1: int, x2: int, x3: int, p: nat)
    requires Prime(p) && 0 <= x < p && 0 <= x1 < p && 0 <= x2 < p && 0 <= x3 < p
    requires Cong(g, (x - x1) * ((x - x2) * (x - x3)), p)
    ensures Cong(g, 0, p) <==> x == x1 || x == x2 || x == x3
  {
    hide Cong, Prime;
    if x == x1 || x == x2 || x == x3 {
      assert (x - x1) * ((x - x2) * (x - x3)) == 0;
    } else {
      UnitDifference(x, x1, p);
      UnitDifference(x, x2, p);
      UnitDifference(x, x3, p);
      UnitProduct(x - x2, x - x3, p);
      UnitProduct(x - x1, (x - x2) * (x - x3), p);
      NotZeroAlong(g, (x - x1) * ((x - x2) * (x - x3)), p);
    }
  }
}
