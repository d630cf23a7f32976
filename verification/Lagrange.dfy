/** Interpolation at zero (`mcl/lagrange.hpp`) with points from a prime field and values from any group
    over it: it recovers the constant coefficient of every polynomial with at most as many coefficients
    as there are points. */
module Lagrange {
  import opened Arith
  import opened BatchInverse
  import opened Field
  import opened Groups
  import opened Wrappers

  // ---------- Products over points ----------

  /** The product of the differences to x. */
  function DiffProd(s: seq<int>, x: int): int {
    if s == [] then 1 else DiffProd(s[..|s| - 1], x) * (s[|s| - 1] - x)
  }

  function Drop(s: seq<int>, i: nat): (r: seq<int>)
    requires i < |s|
    ensures |r| == |s| - 1
  {
    s[..i] + s[i + 1..]
  }

  lemma {:induction false} ProdSplit(s: seq<int>, i: nat)
    requires i < |s|
    ensures Prod(s) == Prod(Drop(s, i)) * s[i]
  {
    var n := |s| - 1;
    if i == n {
      assert Drop(s, i) == s[..n];
    } else {
      ProdSplit(s[..n], i);
      assert Drop(s, i)[..n - 1] == Drop(s[..n], i) && Drop(s, i)[n - 1] == s[n];
      MulSwap(Prod(Drop(s[..n], i)), s[i], s[n]);
    }
  }

  lemma {:induction false} DiffSplit(s: seq<int>, i: nat, x: int)
    requires i < |s|
    ensures DiffProd(s, x) == DiffProd(Drop(s, i), x) * (s[i] - x)
  {
    var n := |s| - 1;
    if i == n {
      assert Drop(s, i) == s[..n];
    } else {
      DiffSplit(s[..n], i, x);
      assert Drop(s, i)[..n - 1] == Drop(s[..n], i) && Drop(s, i)[n - 1] == s[n];
      MulSwap(DiffProd(Drop(s[..n], i), x), s[i] - x, s[n] - x);
    }
  }

  // ---------- Weights ----------

  /** Points that interpolation accepts. */
  predicate Points(s: seq<int>, p: nat) {
    && (forall i :: 0 <= i < |s| ==> 0 < s[i] < p)
    && (forall i, j :: 0 <= i < j < |s| ==> s[i] != s[j])
  }

  /** w is the value at zero of the basis polynomial of point i. */
  ghost predicate IsWeight(w: int, s: seq<int>, i: nat, p: nat)
    requires i < |s|
  {
    Cong(w * DiffProd(Drop(s, i), s[i]), Prod(Drop(s, i)), p)
  }

  ghost predicate Weights(ws: seq<int>, s: seq<int>, p: nat) {
    |ws| == |s| && forall i :: 0 <= i < |s| ==> IsWeight(ws[i], s, i, p)
  }

  /** The weight of the same point once point t is gone. */
  function Reweighted(w: int, x: int, t: int, p: nat): int
    requires p > 0
  {
    w * (t - x) * FInv(t, p)
  }

  lemma ReweightedTimes(w: int, x: int, t: int, p: nat)
    requires Prime(p) && !Cong(t, 0, p)
    ensures Cong(Reweighted(w, x, t, p) * t, w * (t - x), p)
  {
    hide Cong, FInv;
    InvWorks(t, p);
    MulAssoc(w * (t - x), FInv(t, p), t);
    CongScale(FInv(t, p) * t, 1, w * (t - x), p);
  }

  /** Dropping point t: i is the place of a remaining point before, j after. */
  lemma DropWeight(w: int, s: seq<int>, t: nat, i: nat, j: nat, p: nat)
    requires Prime(p) && Points(s, p) && t < |s| && i < |s| && j < |s| - 1 && i != t
    requires j == (if i < t then i else i - 1) && IsWeight(w, s, i, p)
    ensures Drop(s, t)[j] == s[i] && IsWeight(Reweighted(w, s[i], s[t], p), Drop(s, t), j, p)
  {
    hide Cong, Prod, DiffProd, Reweighted, Prime;
    var x, y := s[i], s[t];
    var v := Reweighted(w, x, y, p);
    var r := Drop(Drop(s, t), j);
    var k := if t < i then t else t - 1;
    assert Drop(Drop(s, i), k) == r && Drop(s, i)[k] == y;
    ProdSplit(Drop(s, i), k);
    DiffSplit(Drop(s, i), k, x);
    UnitDifference(y, 0, p);
    ReweightedTimes(w, x, y, p);
    CancelPoint(v, w, x, y, DiffProd(r, x), Prod(r), p);
  }

  lemma CancelPoint(v: int, w: int, x: int, y: int, d: int, q: int, p: nat)
    requires Prime(p) && !Cong(y, 0, p)
    requires Cong(v * y, w * (y - x), p) && Cong(w * (d * (y - x)), q * y, p)
    ensures Cong(v * d, q, p)
  {
    hide Cong, Prime;
    CongScale(v * y, w * (y - x), d, p);
    MulSwap(d, v, y);
    MulSwap(d, w, y - x);
    assert d * (v * y) == (v * d) * y by {
      MulAssoc(v, d, y);
    }
    CongTrans((v * d) * y, w * (d * (y - x)), q * y, p);
    CancelUnit(v * d, q, y, p);
  }

  // ---------- Sums ----------

  function Total(f: seq<int>): int {
    if f == [] then 0 else Total(f[..|f| - 1]) + f[|f| - 1]
  }

  lemma {:induction false} TotalCombine(a: seq<int>, b: seq<int>, c: seq<int>, r: int)
    requires |a| == |b| == |c|
    requires forall i :: 0 <= i < |a| ==> a[i] == b[i] + r * c[i]
    ensures Total(a) == Total(b) + r * Total(c)
  {
    if a != [] {
      var n := |a| - 1;
      TotalCombine(a[..n], b[..n], c[..n], r);
      MulDist(Total(c[..n]), c[n], r);
    } else {
      assert r * Total(c) == 0;
    }
  }

  /** Position in the shorter sequence. */
  function After(i: nat, t: nat): nat
    requires i != t
  {
    if i < t then i else i - 1
  }

  /** A sum with one zero term against the sum without that place, term by term. */
  lemma {:induction false} TotalDrop(f: seq<int>, g: seq<int>, t: nat, c: int, p: nat)
    requires t < |f| == |g| + 1 && f[t] == 0
    requires forall i :: 0 <= i < |f| && i != t ==> Cong(f[i], c * g[After(i, t)], p)
    ensures Cong(Total(f), c * Total(g), p)
  {
    hide Cong;
    var n := |f| - 1;
    if t == n {
      forall i | 0 <= i < n
        ensures Cong(f[..n][i], c * g[i], p)
      {
        assert After(i, t) == i;
      }
      TotalScale(f[..n], g, c, p);
    } else {
      assert After(n, t) == n - 1;
      forall i | 0 <= i < n && i != t
        ensures Cong(f[..n][i], c * g[..n - 1][After(i, t)], p)
      {
      }
      TotalDrop(f[..n], g[..n - 1], t, c, p);
      CongAdd(Total(f[..n]), c * Total(g[..n - 1]), f[n], c * g[n - 1], p);
      MulDist(Total(g[..n - 1]), g[n - 1], c);
    }
  }

  lemma {:induction false} TotalScale(f: seq<int>, g: seq<int>, c: int, p: nat)
    requires |f| == |g| && forall i :: 0 <= i < |f| ==> Cong(f[i], c * g[i], p)
    ensures Cong(Total(f), c * Total(g), p)
  {
    hide Cong;
    if f == [] {
      CongRefl(0, p);
      assert c * Total(g) == 0;
    } else {
      var n := |f| - 1;
      forall i | 0 <= i < n
        ensures Cong(f[..n][i], c * g[..n][i], p)
      {
      }
      TotalScale(f[..n], g[..n], c, p);
      CongAdd(Total(f[..n]), c * Total(g[..n]), f[n], c * g[n], p);
      MulDist(Total(g[..n]), g[n], c);
    }
  }

  // ---------- Moments ----------

  function Moment(ws: seq<int>, s: seq<int>, j: nat): (r: seq<int>)
    requires |ws| == |s|
    ensures |r| == |s|
  {
    seq(|s|, i requires 0 <= i < |s| => Pow(s[i], j) * ws[i])
  }

  /** The terms of a moment, each times its distance from point t. */
  function Apart(ws: seq<int>, s: seq<int>, j: nat, t: nat): (r: seq<int>)
    requires |ws| == |s| && t < |s|
    ensures |r| == |s|
  {
    seq(|s|, i requires 0 <= i < |s| => (s[i] - s[t]) * (Pow(s[i], j) * ws[i]))
  }

  function DropWeights(s: seq<int>, ws: seq<int>, t: nat, p: nat): (r: seq<int>)
    requires |s| == |ws| && t < |s| && p > 0
    ensures |r| == |s| - 1
  {
    seq(|s| - 1, j requires 0 <= j < |s| - 1 =>
      var i := if j < t then j else j + 1; Reweighted(ws[i], s[i], s[t], p))
  }

  lemma DropKeeps(s: seq<int>, ws: seq<int>, t: nat, p: nat)
    requires Prime(p) && Points(s, p) && Weights(ws, s, p) && t < |s|
    ensures Points(Drop(s, t), p) && Weights(DropWeights(s, ws, t, p), Drop(s, t), p)
  {
    hide IsWeight, Reweighted;
    var d, vs := Drop(s, t), DropWeights(s, ws, t, p);
    forall j | 0 <= j < |s| - 1
      ensures IsWeight(vs[j], d, j, p)
    {
      DropWeight(ws[if j < t then j else j + 1], s, t, if j < t then j else j + 1, j, p);
    }
  }

  /** The distances from point t take that point out and leave the factor -s[t]. */
  lemma RemovePoint(s: seq<int>, ws: seq<int>, j: nat, t: nat, p: nat)
    requires Prime(p) && Points(s, p) && Weights(ws, s, p) && t < |s|
    ensures Cong(Total(Apart(ws, s, j, t)), (0 - s[t]) * Total(Moment(DropWeights(s, ws, t, p), Drop(s, t), j)), p)
  {
    hide Cong, Reweighted, Total, Points, IsWeight, Moment, Apart, DropWeights, Pow;
    var f, h := Apart(ws, s, j, t), Moment(DropWeights(s, ws, t, p), Drop(s, t), j);
    UnitPoint(s, t, p);
    forall i | 0 <= i < |s| && i != t
      ensures Cong(f[i], (0 - s[t]) * h[After(i, t)], p)
    {
      PlaceAfter(s, ws, j, t, i, p);
      RemoveTerm(Pow(s[i], j), ws[i], s[i], s[t], p);
    }
    NothingAtPoint(s, ws, j, t);
    TotalDrop(f, h, t, 0 - s[t], p);
  }

  lemma UnitPoint(s: seq<int>, t: nat, p: nat)
    requires Points(s, p) && t < |s|
    ensures !Cong(s[t], 0, p)
  {
    hide Cong;
    UnitDifference(s[t], 0, p);
  }

  lemma NothingAtPoint(s: seq<int>, ws: seq<int>, j: nat, t: nat)
    requires |ws| == |s| && t < |s|
    ensures Apart(ws, s, j, t)[t] == 0
  {
    hide Pow;
    assert 0 * (Pow(s[t], j) * ws[t]) == 0;
  }

  lemma PlaceAfter(s: seq<int>, ws: seq<int>, j: nat, t: nat, i: nat, p: nat)
    requires |ws| == |s| && t < |s| && i < |s| && i != t && p > 0
    ensures Moment(DropWeights(s, ws, t, p), Drop(s, t), j)[After(i, t)] == Pow(s[i], j) * Reweighted(ws[i], s[i], s[t], p)
    ensures Apart(ws, s, j, t)[i] == (s[i] - s[t]) * (Pow(s[i], j) * ws[i])
  {
    hide Reweighted, Pow;
    assert Drop(s, t)[After(i, t)] == s[i];
  }

  lemma RemoveTerm(v: int, w: int, x: int, y: int, p: nat)
    requires Prime(p) && !Cong(y, 0, p)
    ensures Cong((x - y) * (v * w), (0 - y) * (v * Reweighted(w, x, y, p)), p)
  {
    hide Cong, Reweighted;
    ReweightedTimes(w, x, y, p);
    var u := Reweighted(w, x, y, p);
    CongScale(u * y, w * (y - x), 0 - v, p);
    CongSym((0 - v) * (u * y), (0 - v) * (w * (y - x)), p);
    assert (x - y) * (v * w) == (0 - v) * (w * (y - x)) by {
      MulSwap(x - y, v, w);
      MulNeg(v, w * (y - x));
      MulNeg(y - x, w);
    }
    assert (0 - y) * (v * u) == (0 - v) * (u * y) by {
      MulSwap(y, v, u);
      MulNeg(y, v * u);
      MulNeg(v, u * y);
    }
  }

  lemma FirstMoment(ws: seq<int>, s: seq<int>)
    requires |ws| == |s|
    ensures Moment(ws, s, 0) == ws
  {
    assert forall x :: Pow(x, 0) == 1;
  }

  /** The weights of any accepted points sum to one. */
  lemma {:induction false} WeightsSumToOne(s: seq<int>, ws: seq<int>, p: nat)
    requires Prime(p) && Points(s, p) && |ws| == |s| && Weights(ws, s, p) && |s| >= 1
    ensures Cong(Total(ws), 1, p)
    decreases |s|
  {
    hide Cong, DropWeights, Points, Weights, Apart, Total, Moment;
    var k := |s| - 1;
    if k == 0 {
      SingleWeight(s, ws, p);
    } else {
      DropKeeps(s, ws, 0, p);
      DropKeeps(s, ws, k, p);
      var u, v := DropWeights(s, ws, 0, p), DropWeights(s, ws, k, p);
      RemovePoint(s, ws, 0, 0, p);
      RemovePoint(s, ws, 0, k, p);
      FirstMoment(u, Drop(s, 0));
      FirstMoment(v, Drop(s, k));
      WeightsSumToOne(Drop(s, 0), u, p);
      WeightsSumToOne(Drop(s, k), v, p);
      var a, b := Apart(ws, s, 0, 0), Apart(ws, s, 0, k);
      TwoDistances(s, ws, k);
      TotalCombine(a, b, ws, s[k] - s[0]);
      ApartPoints(s, k, p);
      DifferenceIsOne(Total(a), Total(b), Total(ws), s[0], s[k], Total(u), Total(v), p);
    }
  }

  lemma SingleWeight(s: seq<int>, ws: seq<int>, p: nat)
    requires |s| == 1 && Weights(ws, s, p)
    ensures Cong(Total(ws), 1, p)
  {
    hide Cong;
    assert Drop(s, 0) == [] && IsWeight(ws[0], s, 0, p);
    assert Total(ws[..0]) == 0;
  }

  lemma TwoDistances(s: seq<int>, ws: seq<int>, k: nat)
    requires |s| == |ws| && k < |s|
    ensures var a, b := Apart(ws, s, 0, 0), Apart(ws, s, 0, k);
            forall i :: 0 <= i < |s| ==> a[i] == b[i] + (s[k] - s[0]) * ws[i]
  {
    forall i | 0 <= i < |s|
      ensures Apart(ws, s, 0, 0)[i] == Apart(ws, s, 0, k)[i] + (s[k] - s[0]) * ws[i]
    {
      assert Pow(s[i], 0) == 1;
      MulDist(s[i] - s[k], s[k] - s[0], ws[i]);
    }
  }

  lemma ApartPoints(s: seq<int>, k: nat, p: nat)
    requires Points(s, p) && 0 < k < |s|
    ensures !Cong(s[k] - s[0], 0, p)
  {
    UnitDifference(s[k], s[0], p);
  }

  lemma DifferenceIsOne(a: int, b: int, w: int, x: int, y: int, u: int, v: int, p: nat)
    requires Prime(p) && a == b + (y - x) * w
    requires Cong(a, (0 - x) * u, p) && Cong(b, (0 - y) * v, p) && Cong(u, 1, p) && Cong(v, 1, p)
    requires !Cong(y - x, 0, p)
    ensures Cong(w, 1, p)
  {
    hide Cong;
    CongScale(u, 1, 0 - x, p);
    CongScale(v, 1, 0 - y, p);
    CongTrans(a, (0 - x) * u, 0 - x, p);
    CongTrans(b, (0 - y) * v, 0 - y, p);
    CongSub(a, 0 - x, b, 0 - y, p);
    assert a - b == w * (y - x) && 1 * (y - x) == (0 - x) - (0 - y);
    CancelUnit(w, 1, y - x, p);
  }

  /** The weights of accepted points have no moments but the first. */
  lemma {:induction false} WeightMoments(s: seq<int>, ws: seq<int>, j: nat, p: nat)
    requires Prime(p) && Points(s, p) && |ws| == |s| && Weights(ws, s, p) && j < |s|
    ensures Cong(Total(Moment(ws, s, j)), if j == 0 then 1 else 0, p)
    decreases |s|, j
  {
    hide Cong, DropWeights, Points, Weights, Apart, Total, Moment, Prime;
    PrimeAboveOne(p);
    if j == 0 {
      WeightsSumToOne(s, ws, p);
      FirstMoment(ws, s);
    } else {
      DropKeeps(s, ws, 0, p);
      RemovePoint(s, ws, j - 1, 0, p);
      WeightMoments(Drop(s, 0), DropWeights(s, ws, 0, p), j - 1, p);
      WeightMoments(s, ws, j - 1, p);
      OneMoreFactor(s, ws, j);
      TotalCombine(Moment(ws, s, j), Apart(ws, s, j - 1, 0), Moment(ws, s, j - 1), s[0]);
      var m := Total(Moment(DropWeights(s, ws, 0, p), Drop(s, 0), j - 1));
      MomentVanishes(Total(Moment(ws, s, j)), Total(Apart(ws, s, j - 1, 0)), m, Total(Moment(ws, s, j - 1)),
                     s[0], if j == 1 then 1 else 0, p);
    }
  }

  lemma OneMoreFactor(s: seq<int>, ws: seq<int>, j: nat)
    requires |s| == |ws| > 0 && j > 0
    ensures forall i :: 0 <= i < |s| ==> Moment(ws, s, j)[i] == Apart(ws, s, j - 1, 0)[i] + s[0] * Moment(ws, s, j - 1)[i]
  {
    forall i | 0 <= i < |s|
      ensures Moment(ws, s, j)[i] == Apart(ws, s, j - 1, 0)[i] + s[0] * Moment(ws, s, j - 1)[i]
    {
      var v := Pow(s[i], j - 1);
      assert Pow(s[i], j) == s[i] * v;
      MulAssoc(s[i], v, ws[i]);
      MulDist(s[i] - s[0], s[0], v * ws[i]);
    }
  }

  lemma MomentVanishes(a: int, b: int, m: int, n: int, x: int, d: int, p: nat)
    requires a == b + x * n && Cong(b, (0 - x) * m, p) && Cong(m, d, p) && Cong(n, d, p)
    ensures Cong(a, 0, p)
  {
    hide Cong;
    CongScale(m, d, 0 - x, p);
    CongTrans(b, (0 - x) * m, (0 - x) * d, p);
    CongScale(n, d, x, p);
    CongAdd(b, (0 - x) * d, x * n, x * d, p);
    MulNeg(x, d);
  }

  // ---------- Values in a group ----------

  function Sum<P>(g: Group<P>, f: seq<P>): P {
    if f == [] then g.zero else g.add(Sum(g, f[..|f| - 1]), f[|f| - 1])
  }

  /** The values at all points, each with its weight. */
  function Weighted<P>(g: Group<P>, ws: seq<int>, vs: seq<P>): (r: seq<P>)
    requires |ws| == |vs|
    ensures |r| == |vs|
  {
    seq(|vs|, i requires 0 <= i < |vs| => Mult(g, ws[i], vs[i]))
  }

  function ValuesAt<P>(g: Group<P>, c: seq<P>, s: seq<int>): (r: seq<P>)
    ensures |r| == |s|
  {
    seq(|s|, i requires 0 <= i < |s| => ValueAt(g, c, s[i]))
  }

  function TimesPoints(ws: seq<int>, s: seq<int>): (r: seq<int>)
    requires |ws| == |s|
    ensures |r| == |s|
  {
    seq(|s|, i requires 0 <= i < |s| => ws[i] * s[i])
  }

  /** Splits the constant coefficient off a weighted sum of values. */
  lemma {:induction false} PeelCoefficient<P(!new)>(g: Group<P>, ws: seq<int>, c: seq<P>, s: seq<int>)
    requires Abelian(g) && |ws| == |s| && c != []
    ensures Sum(g, Weighted(g, ws, ValuesAt(g, c, s)))
         == g.add(Mult(g, Total(ws), c[0]), Sum(g, Weighted(g, TimesPoints(ws, s), ValuesAt(g, c[1..], s))))
  {
    hide Abelian, Mult, ValueAt;
    var f, h := Weighted(g, ws, ValuesAt(g, c, s)), Weighted(g, TimesPoints(ws, s), ValuesAt(g, c[1..], s));
    if s == [] {
      TimesZero(g, c[0]);
      Unit(g, g.zero);
    } else {
      var n := |s| - 1;
      PeelCoefficient(g, ws[..n], c, s[..n]);
      assert f[..n] == Weighted(g, ws[..n], ValuesAt(g, c, s[..n]));
      assert h[..n] == Weighted(g, TimesPoints(ws[..n], s[..n]), ValuesAt(g, c[1..], s[..n]));
      PeelTerm(g, ws[n], c, s[n]);
      MultAdd(g, Total(ws[..n]), ws[n], c[0]);
      Exchange(g, Mult(g, Total(ws[..n]), c[0]), Sum(g, h[..n]), Mult(g, ws[n], c[0]), h[n]);
    }
  }

  /** Weights whose moments vanish give nothing for polynomials of that many coefficients. */
  lemma {:induction false} NoMoments<P(!new)>(g: Group<P>, ws: seq<int>, c: seq<P>, s: seq<int>, p: nat)
    requires Abelian(g) && Exponent(g, p) && |ws| == |s|
    requires forall j: nat :: j < |c| ==> Cong(Total(Moment(ws, s, j)), 0, p)
    ensures Sum(g, Weighted(g, ws, ValuesAt(g, c, s))) == g.zero
    decreases |c|
  {
    hide Abelian, Exponent, Mult, Cong, Total;
    if c == [] {
      NoCoefficients(g, ws, s);
    } else {
      PeelCoefficient(g, ws, c, s);
      var us := TimesPoints(ws, s);
      forall j: nat | j < |c| - 1
        ensures Cong(Total(Moment(us, s, j)), 0, p)
      {
        NextMoment(ws, s, j);
      }
      NoMoments(g, us, c[1..], s, p);
      FirstMoment(ws, s);
      ScalarCong(g, p, c[0], Total(ws), 0);
      TimesZero(g, c[0]);
      Unit(g, g.zero);
    }
  }

  lemma {:induction false} NoCoefficients<P(!new)>(g: Group<P>, ws: seq<int>, s: seq<int>)
    requires Abelian(g) && |ws| == |s|
    ensures Sum(g, Weighted(g, ws, ValuesAt(g, [], s))) == g.zero
  {
    hide Abelian, Mult;
    if s != [] {
      var n := |s| - 1;
      NoCoefficients(g, ws[..n], s[..n]);
      assert Weighted(g, ws, ValuesAt(g, [], s))[..n] == Weighted(g, ws[..n], ValuesAt(g, [], s[..n]));
      MultMul(g, ws[n], 0, g.zero);
      TimesZero(g, g.zero);
      assert ws[n] * 0 == 0;
      Unit(g, g.zero);
    }
  }

  lemma NextMoment(ws: seq<int>, s: seq<int>, j: nat)
    requires |ws| == |s|
    ensures Moment(TimesPoints(ws, s), s, j) == Moment(ws, s, j + 1)
  {
    forall i | 0 <= i < |s|
      ensures Moment(TimesPoints(ws, s), s, j)[i] == Moment(ws, s, j + 1)[i]
    {
      assert Pow(s[i], j + 1) == s[i] * Pow(s[i], j);
      MulSwap(s[i], Pow(s[i], j), ws[i]);
      MulAssoc(Pow(s[i], j), ws[i], s[i]);
    }
  }

  /** Weighted values of a polynomial with at most as many coefficients as points give its constant
      coefficient. */
  lemma Interpolates<P(!new)>(g: Group<P>, c: seq<P>, s: seq<int>, ws: seq<int>, p: nat)
    requires Abelian(g) && Exponent(g, p)
    requires Prime(p) && Points(s, p) && |ws| == |s| && Weights(ws, s, p) && 1 <= |c| <= |s|
    ensures Sum(g, Weighted(g, ws, ValuesAt(g, c, s))) == c[0]
  {
    hide Abelian, Exponent, Mult, Cong, Total, Weights, Points, Prime;
    PeelCoefficient(g, ws, c, s);
    var us := TimesPoints(ws, s);
    forall j: nat | j < |c| - 1
      ensures Cong(Total(Moment(us, s, j)), 0, p)
    {
      NextMoment(ws, s, j);
      WeightMoments(s, ws, j + 1, p);
    }
    NoMoments(g, us, c[1..], s, p);
    WeightMoments(s, ws, 0, p);
    FirstMoment(ws, s);
    ScalarCong(g, p, c[0], Total(ws), 1);
    MultOne(g, c[0]);
    Unit(g, c[0]);
  }

  // ---------- The algorithms ----------

  /** Horner's rule from the highest coefficient. */
  method EvaluatePolynomial<P(!new)>(g: Group<P>, c: seq<P>, x: int) returns (r: Option<P>)
    requires Abelian(g)
    ensures r.None? <==> c == []
    ensures r.Some? ==> r.value == ValueAt(g, c, x)
  {
    hide Abelian, Mult;
    if |c| == 0 {
      return None;
    }
    LastCoefficient(g, c, x);
    if |c| == 1 {
      assert c[0..] == c;
      return Some(c[0]);
    }
    var y := c[|c| - 1];
    var i := |c| - 1;
    while i > 0
      invariant 0 <= i < |c| && y == ValueAt(g, c[i..], x)
    {
      i := i - 1;
      assert c[i..][1..] == c[i + 1..];
      y := Mult(g, x, y);
      Comm(g, y, c[i]);
      y := g.add(y, c[i]);
    }
    assert c[0..] == c;
    r := Some(y);
  }

  lemma LastCoefficient<P(!new)>(g: Group<P>, c: seq<P>, x: int)
    requires Abelian(g) && c != []
    ensures ValueAt(g, c[|c| - 1..], x) == c[|c| - 1]
  {
    hide Abelian, Mult;
    var t := c[|c| - 1..];
    assert t[1..] == [];
    MultMul(g, x, 0, g.zero);
    TimesZero(g, g.zero);
    assert x * 0 == 0;
    Unit(g, t[0]);
  }

  /** The product of all points. */
  method Product(s: seq<int>, p: nat) returns (a: int)
    requires p > 0 && s != [] && forall i :: 0 <= i < |s| ==> 0 <= s[i] < p
    ensures 0 <= a < p && Cong(a, Prod(s), p)
  {
    hide Cong, FMul;
    a := s[0];
    CongRefl(a, p);
    assert Prod(s[..0]) == 1 && s[..1][..0] == s[..0];
    for i := 1 to |s|
      invariant 0 <= a < p && Cong(a, Prod(s[..i]), p)
    {
      assert s[..i + 1][..i] == s[..i];
      CongRefl(s[i], p);
      FieldOps(a, Prod(s[..i]), s[i], s[i], p);
      a := FMul(a, s[i], p);
    }
    assert s[..|s|] == s;
  }

  /** The points other than i among the first j. */
  function Others(s: seq<int>, i: nat, j: nat): seq<int>
    requires i < |s| && j <= |s|
  {
    if j <= i then s[..j] else s[..i] + s[i + 1..j]
  }

  lemma OthersNext(s: seq<int>, i: nat, j: nat)
    requires i < |s| && j < |s|
    ensures Others(s, i, j + 1) == if j == i then Others(s, i, j) else Others(s, i, j) + [s[j]]
  {
  }

  lemma OthersEnds(s: seq<int>, i: nat)
    requires i < |s|
    ensures Others(s, i, 0) == [] && Others(s, i, |s|) == Drop(s, i)
  {
  }

  lemma DiffSnoc(s: seq<int>, y: int, x: int)
    ensures DiffProd(s + [y], x) == DiffProd(s, x) * (y - x)
  {
    assert (s + [y])[..|s|] == s;
  }

  /** One denominator, or failure when another point equals this one. */
  method Denominator(s: seq<int>, i: nat, p: nat) returns (ok: bool, d: int)
    requires p > 0 && i < |s| && forall j :: 0 <= j < |s| ==> 0 <= s[j] < p
    ensures ok <==> forall j :: 0 <= j < |s| && j != i ==> s[j] != s[i]
    ensures ok ==> 0 <= d < p && Cong(d, s[i] * DiffProd(Drop(s, i), s[i]), p)
  {
    hide Cong, FMul, FSub, DiffProd, Others;
    d := s[i];
    ok := true;
    EmptyDiff(s[i]);
    OthersEnds(s, i);
    CongRefl(d, p);
    for j := 0 to |s|
      invariant 0 <= d < p && Cong(d, s[i] * DiffProd(Others(s, i, j), s[i]), p)
      invariant forall k :: 0 <= k < j && k != i ==> s[k] != s[i]
    {
      OthersNext(s, i, j);
      if j != i {
        var v := FSub(s[j], s[i], p);
        FieldCong(s[j], s[i], p);
        ZeroDifference(s[j], s[i], v, p);
        if v == 0 {
          ok := false;
          return;
        }
        NextDenominator(s[i], Others(s, i, j), s[j], d, v, p);
        d := FMul(d, v, p);
      }
    }
    OthersEnds(s, i);
  }

  lemma NextDenominator(x: int, r: seq<int>, y: int, d: int, v: int, p: nat)
    requires p > 0 && Cong(d, x * DiffProd(r, x), p) && Cong(v, y - x, p)
    ensures Cong(FMul(d, v, p), x * DiffProd(r + [y], x), p)
  {
    hide Cong, FMul, DiffProd;
    DiffSnoc(r, y, x);
    MulAssoc(x, DiffProd(r, x), y - x);
    FieldOps(d, x * DiffProd(r, x), v, y - x, p);
  }

  lemma EmptyDiff(x: int)
    ensures DiffProd([], x) == 1
  {
  }

  lemma ZeroDifference(a: int, b: int, v: int, p: nat)
    requires 0 <= a < p && 0 <= b < p && 0 <= v < p && Cong(v, a - b, p)
    ensures v == 0 <==> a == b
  {
    hide Cong;
    if v == 0 && a != b {
      CongSym(0, a - b, p);
      UnitDifference(a, b, p);
    } else if a == b {
      CongRefl(0, p);
      CongUnique(v, 0, p);
    }
  }

  lemma WeightFromInverse(w: int, e: int, d: int, a: int, s: seq<int>, i: nat, p: nat)
    requires Prime(p) && Points(s, p) && i < |s|
    requires Cong(d, s[i] * DiffProd(Drop(s, i), s[i]), p) && Cong(e * d, 1, p) && Cong(a, Prod(s), p)
    requires Cong(w, e * a, p)
    ensures IsWeight(w, s, i, p)
  {
    hide Cong, Prod, DiffProd, Prime, Drop, Points;
    ProdSplit(s, i);
    UnitPoint(s, i, p);
    WeightArithmetic(w, e, d, a, s[i], DiffProd(Drop(s, i), s[i]), Prod(Drop(s, i)), p);
  }

  lemma WeightArithmetic(w: int, e: int, d: int, a: int, x: int, q: int, r: int, p: nat)
    requires Prime(p) && !Cong(x, 0, p)
    requires Cong(d, x * q, p) && Cong(e * d, 1, p) && Cong(a, r * x, p) && Cong(w, e * a, p)
    ensures Cong(w * q, r, p)
  {
    hide Cong, Prime;
    CongSym(d, x * q, p);
    CongMul(w, e * a, x * q, d, p);
    assert w * (x * q) == (w * q) * x by {
      MulSwap(w, x, q);
    }
    MulSwap(e, a, d);
    CongScale(e * d, 1, a, p);
    CongTrans((w * q) * x, a * (e * d), a, p);
    CongTrans((w * q) * x, a, r * x, p);
    CancelUnit(w * q, r, x, p);
  }

  const MAX_INVERTED: nat := 256

  predicate Interpolable(s: seq<int>, p: nat) {
    |s| == 1 || (|s| >= 2 && Points(s, p))
  }

  method AllDenominators(s: seq<int>, p: nat) returns (ok: bool, d: array<int>)
    requires p > 0 && forall j :: 0 <= j < |s| ==> 0 <= s[j] < p
    ensures fresh(d) && d.Length == |s|
    ensures ok <==> forall i, j :: 0 <= i < j < |s| ==> s[i] != s[j]
    ensures ok ==> forall i :: 0 <= i < |s| ==> 0 <= d[i] < p && Cong(d[i], s[i] * DiffProd(Drop(s, i), s[i]), p)
  {
    hide Cong, DiffProd, Drop;
    d := new int[|s|](i requires 0 <= i < |s| => s[i]);
    ok := true;
    for i := 0 to |s|
      invariant forall k, j :: 0 <= k < i && 0 <= j < |s| && j != k ==> s[j] != s[k]
      invariant forall k :: 0 <= k < i ==> 0 <= d[k] < p && Cong(d[k], s[k] * DiffProd(Drop(s, k), s[k]), p)
    {
      var v;
      ok, v := Denominator(s, i, p);
      if !ok {
        return;
      }
      d[i] := v;
    }
  }

  function Scaled(es: seq<int>, a: int, p: nat): (r: seq<int>)
    requires p > 0
    ensures |r| == |es|
  {
    seq(|es|, i requires 0 <= i < |es| => FMul(es[i], a, p))
  }

  /** Scales every inverse by a and sums the values weighted with them. */
  method WeightedSum<P(!new)>(g: Group<P>, vec: seq<P>, d: array<int>, a: int, p: nat) returns (sum: P)
    requires Abelian(g) && p > 0 && |vec| == d.Length >= 1
    modifies d
    ensures sum == Sum(g, Weighted(g, Scaled(old(d[..]), a, p), vec))
  {
    hide Abelian, Mult, FMul, Sum;
    ghost var es := d[..];
    ghost var terms := Weighted(g, Scaled(es, a, p), vec);
    d[0] := FMul(d[0], a, p);
    sum := Mult(g, d[0], vec[0]);
    SumOne(g, terms);
    for i := 1 to |vec|
      invariant forall k :: i <= k < |vec| ==> d[k] == es[k]
      invariant sum == Sum(g, terms[..i])
    {
      d[i] := FMul(d[i], a, p);
      SumNext(g, terms, i);
      sum := g.add(sum, Mult(g, d[i], vec[i]));
    }
    assert terms[..|vec|] == terms;
  }

  lemma SumOne<P(!new)>(g: Group<P>, f: seq<P>)
    requires Abelian(g) && |f| >= 1
    ensures Sum(g, f[..1]) == f[0]
  {
    hide Abelian;
    assert f[..1][..0] == [];
    Unit(g, f[0]);
  }

  lemma SumNext<P>(g: Group<P>, f: seq<P>, i: nat)
    requires i < |f|
    ensures Sum(g, f[..i + 1]) == g.add(Sum(g, f[..i]), f[i])
  {
    assert f[..i + 1][..i] == f[..i];
  }

  /** Fails for no points, and for two or more exactly when one is zero or two coincide; otherwise the
      result is the constant coefficient of every polynomial that the values come from. */
  method LagrangeInterpolation<P(!new)>(g: Group<P>, s: seq<int>, vec: seq<P>, p: nat) returns (r: Option<P>)
    requires Abelian(g) && Exponent(g, p)
    requires Prime(p) && |vec| == |s| && forall i :: 0 <= i < |s| ==> 0 <= s[i] < p
    ensures r.Some? <==> Interpolable(s, p)
    ensures r.Some? ==> forall c: seq<P> :: 1 <= |c| <= |s| && vec == ValuesAt(g, c, s) ==> r.value == c[0]
  {
    hide Abelian, Exponent, Mult;
    hide Cong, Prime, FMul, DiffProd, Prod, Drop, Inverse, Weights, Total, Scaled, ValuesAt, Sum, Kept;
    if |s| == 0 {
      return None;
    }
    if |s| == 1 {
      OnePoint(g, s, vec);
      return Some(vec[0]);
    }
    PrimeAboveOne(p);
    var a := Product(s, p);
    ZeroProduct(s, a, p);
    if a == 0 {
      return None;
    }
    var ok, d := AllDenominators(s, p);
    if !ok {
      return None;
    }
    ghost var ds := d[..];
    var inverted := InvVec(d, d, |s|, MAX_INVERTED, p);
    ghost var es := d[..];
    var sum := WeightedSum(g, vec, d, a, p);
    Recovers(g, s, vec, ds, es, a, p);
    r := Some(sum);
  }

  lemma Recovers<P(!new)>(g: Group<P>, s: seq<int>, vec: seq<P>, ds: seq<int>, es: seq<int>, a: int, p: nat)
    requires Abelian(g) && Exponent(g, p) && |vec| == |ds| == |es| == |s|
    requires Prime(p) && p > 0 && Points(s, p) && Cong(a, Prod(s), p)
    requires forall i :: 0 <= i < |s| ==> 0 <= ds[i] < p && Cong(ds[i], s[i] * DiffProd(Drop(s, i), s[i]), p)
    requires forall i :: 0 <= i < |s| ==> es[i] == Inverse(ds[i], p)
    ensures forall c: seq<P> :: 1 <= |c| <= |s| && vec == ValuesAt(g, c, s) ==>
              Sum(g, Weighted(g, Scaled(es, a, p), vec)) == c[0]
  {
    hide Abelian, Exponent, Cong, Prime, DiffProd, Prod, Drop, FMul, Weights, ValuesAt, Points, Inverse;
    AllWeights(s, ds, es, Scaled(es, a, p), a, p);
    forall c: seq<P> | 1 <= |c| <= |s| && vec == ValuesAt(g, c, s)
      ensures Sum(g, Weighted(g, Scaled(es, a, p), vec)) == c[0]
    {
      Interpolates(g, c, s, Scaled(es, a, p), p);
    }
  }

  lemma OnePoint<P(!new)>(g: Group<P>, s: seq<int>, vec: seq<P>)
    requires Abelian(g) && |s| == |vec| == 1
    ensures forall c: seq<P> :: 1 <= |c| <= |s| && vec == ValuesAt(g, c, s) ==> vec[0] == c[0]
  {
    hide Abelian;
    forall c: seq<P> | 1 <= |c| <= |s| && vec == ValuesAt(g, c, s)
      ensures vec[0] == c[0]
    {
      LastCoefficient(g, c, s[0]);
      assert c[0..] == c;
    }
  }

  lemma ZeroProduct(s: seq<int>, a: int, p: nat)
    requires Prime(p) && 0 <= a < p && Cong(a, Prod(s), p) && forall i :: 0 <= i < |s| ==> 0 <= s[i] < p
    ensures a == 0 <==> exists i :: 0 <= i < |s| && s[i] == 0
  {
    hide Cong, Prime;
    ProdUnit(s, p);
    ReducedUnit(a, p);
    if a == 0 {
      CongSym(a, Prod(s), p);
    } else if Cong(Prod(s), 0, p) {
      CongTrans(a, Prod(s), 0, p);
    }
  }

  lemma AllWeights(s: seq<int>, ds: seq<int>, es: seq<int>, ws: seq<int>, a: int, p: nat)
    requires Prime(p) && Points(s, p) && |ds| == |es| == |ws| == |s| && Cong(a, Prod(s), p)
    requires forall i :: 0 <= i < |s| ==> 0 <= ds[i] < p && Cong(ds[i], s[i] * DiffProd(Drop(s, i), s[i]), p)
    requires forall i :: 0 <= i < |s| ==> es[i] == Inverse(ds[i], p) && ws[i] == FMul(es[i], a, p)
    ensures Weights(ws, s, p)
  {
    hide Cong, Prime, FMul, Inverse, Prod, DiffProd, Drop, IsWeight;
    PrimeAboveOne(p);
    forall i | 0 <= i < |s|
      ensures IsWeight(ws[i], s, i, p)
    {
      DenominatorUnit(ds[i], s, i, p);
      ReducedUnit(ds[i], p);
      InverseWorks(ds[i], p);
      FieldCong(es[i], a, p);
      WeightFromInverse(ws[i], es[i], ds[i], a, s, i, p);
    }
  }

  lemma DenominatorUnit(d: int, s: seq<int>, i: nat, p: nat)
    requires Prime(p) && Points(s, p) && i < |s| && Cong(d, s[i] * DiffProd(Drop(s, i), s[i]), p)
    ensures !Cong(d, 0, p)
  {
    hide Cong, Prime;
    UnitDifference(s[i], 0, p);
    DiffUnit(Drop(s, i), s[i], p);
    UnitProduct(s[i], DiffProd(Drop(s, i), s[i]), p);
    if Cong(d, 0, p) {
      CongSym(d, s[i] * DiffProd(Drop(s, i), s[i]), p);
      CongTrans(s[i] * DiffProd(Drop(s, i), s[i]), d, 0, p);
    }
  }

  lemma {:induction false} DiffUnit(s: seq<int>, x: int, p: nat)
    requires Prime(p) && 0 <= x < p && forall i :: 0 <= i < |s| ==> 0 <= s[i] < p && s[i] != x
    ensures !Cong(DiffProd(s, x), 0, p)
  {
    hide Cong;
    if s == [] {
      ReducedUnit(1, p);
    } else {
      var n := |s| - 1;
      DiffUnit(s[..n], x, p);
      UnitDifference(s[n], x, p);
      UnitProduct(DiffProd(s[..n], x), s[n] - x, p);
    }
  }
}
