/** The variable-time modular inverse of `mcl/invmod.hpp` for 64-bit units: sign-magnitude
    integers, the 62-step transition matrix computed from low words, and the outer loop. */
module InvMod {
  import opened Arith
  import opened DivStepSpec

  const MOD_L: nat := 62
  const MOD_N: nat := 0x4000_0000_0000_0000
  const WORD: nat := 0x1_0000_0000_0000_0000

  // Machine arithmetic on 64-bit units.

  function WAdd(a: int, b: int): (r: nat)
    ensures r < WORD
  {
    (a + b) % WORD
  }

  function WMul(a: int, b: int): (r: nat)
    ensures r < WORD
  {
    (a * b) % WORD
  }

  function WNeg(a: int): (r: nat)
    ensures r < WORD
  {
    (0 - a) % WORD
  }

  // ---------- Sign-magnitude integers ----------

  /** A zero magnitude may carry either sign, as in the original. */
  datatype Sint = Sint(sign: bool, mag: nat) {
    function Value(): int {
      if sign then 0 - mag else mag
    }
  }

  method Add(x: Sint, y: Sint) returns (z: Sint)
    ensures z.Value() == x.Value() + y.Value()
  {
    z := AddSigned(x, y.mag, y.sign);
  }

  method Sub(x: Sint, y: Sint) returns (z: Sint)
    ensures z.Value() == x.Value() - y.Value()
  {
    z := AddSigned(x, y.mag, !y.sign);
  }

  method AddSigned(x: Sint, y: nat, ySign: bool) returns (z: Sint)
    ensures z.Value() == x.Value() + Sint(ySign, y).Value()
  {
    if x.sign == ySign {
      return Sint(x.sign, x.mag + y);
    }
    if x.mag >= y {
      return Sint(x.sign, x.mag - y);
    }
    z := Sint(ySign, y - x.mag);
  }

  method MulUnit(x: Sint, y: int) returns (z: Sint)
    ensures z.Value() == x.Value() * y
  {
    var absY := if y < 0 then 0 - y else y;
    MulMono(0, x.mag, absY);
    z := Sint(x.sign != (y < 0), x.mag * absY);
    MulNeg(x.mag, y);
  }

  /** The shift works on the magnitude; it is exact when the value is a multiple. */
  method Shr(x: Sint, ghost q: int) returns (z: Sint)
    requires x.Value() == q * MOD_N
    ensures z.Value() == q && z.sign == x.sign
  {
    z := Sint(x.sign, x.mag / MOD_N);
  }

  function GetLow(x: Sint): (r: nat) {
    var low := x.mag % WORD;
    if x.sign then (0 - low) % WORD else low
  }

  lemma GetLowCong(x: Sint)
    ensures GetLow(x) < WORD && Cong(GetLow(x), x.Value(), WORD)
  {
    hide Cong;
    var low := x.mag % WORD;
    CongMod(x.mag, WORD);
    if x.sign {
      CongRefl(0, WORD);
      CongSub(0, 0, low, x.mag, WORD);
      CongMod(0 - low, WORD);
      CongTrans(GetLow(x), 0 - low, 0 - x.mag, WORD);
    }
  }

  /** The signed reading of a machine word. */
  function Signed(u: nat): int {
    if u < (WORD / 2) then u else u - WORD
  }

  lemma SignedOf(u: nat, n: int)
    requires u < WORD && Cong(u, n, WORD) && Abs(n) <= MOD_N
    ensures Signed(u) == n
  {
    var k := CongElim(u, n, WORD);
  }

  // ---------- The transition matrix ----------

  datatype Quad = Quad(u: nat, v: nat, q: nat, r: nat)

  /** The matrix (u v; q r), read as signed numbers, takes (f, g) to 2^62 times (f', g'). */
  ghost predicate Transition(u: int, v: int, q: int, r: int, f: int, g: int, f': int, g': int) {
    && f' * MOD_N == u * f + v * g
    && g' * MOD_N == q * f + r * g
    && u * r - v * q == MOD_N
    && Abs(u) + Abs(v) <= MOD_N
    && Abs(q) + Abs(r) <= MOD_N
  }

  ghost predicate MatrixOf(t: Quad, f: int, g: int, f': int, g': int) {
    && t.u < WORD && t.v < WORD && t.q < WORD && t.r < WORD
    && Transition(Signed(t.u), Signed(t.v), Signed(t.q), Signed(t.r), f, g, f', g')
  }

  /** Position of the lowest set bit of a non-zero word. */
  method Bsf(g: nat) returns (z: nat)
    requires g != 0
    ensures g % Pow2(z) == 0 && Odd(g / Pow2(z))
  {
    z := 0;
    var h := g;
    while h % 2 == 0
      invariant h != 0 && g == h * Pow2(z)
      decreases h
    {
      MulAssoc(h / 2, 2, Pow2(z));
      h := h / 2;
      z := z + 1;
    }
    ExactQuotient(g, h, Pow2(z));
  }

  function NegInverse16(f: nat): nat {
    [15, 5, 3, 9, 7, 13, 11, 1][(f % 16) / 2]
  }

  function LowBits(a: int, n: nat): nat {
    a % Pow2(n)
  }

  lemma NegInverse16Works(f: nat)
    requires Odd(f)
    ensures (1 + NegInverse16(f) * f) % 16 == 0
  {
    var m := f % 16;
    if m == 1 {
      TableEntry(f, 1, 15, 1);
    } else if m == 3 {
      TableEntry(f, 3, 5, 1);
    } else if m == 5 {
      TableEntry(f, 5, 3, 1);
    } else if m == 7 {
      TableEntry(f, 7, 9, 4);
    } else if m == 9 {
      TableEntry(f, 9, 7, 4);
    } else if m == 11 {
      TableEntry(f, 11, 13, 9);
    } else if m == 13 {
      TableEntry(f, 13, 11, 9);
    } else {
      TableEntry(f, 15, 1, 1);
    }
  }

  lemma TableEntry(f: nat, m: nat, t: nat, c: nat)
    requires f % 16 == m && 1 + t * m == 16 * c
    ensures (1 + t * f) % 16 == 0
  {
    var k := f / 16;
    MulDist(16 * k, m, t);
    MulSwap(t, 16, k);
    assert 1 + t * f == 16 * (t * k + c);
  }

  /** The multiplier w chosen from low words clears `limit` bits of the true g. */
  lemma MultiplierClears(f: nat, g: nat, w: nat, limit: nat, i: nat, tf: int, tg: int) returns (h: int)
    requires Odd(f) && limit <= 4 && limit <= i
    requires Cong(f, tf, Pow2(i)) && Cong(g, tg, Pow2(i))
    requires w == LowBits(g * NegInverse16(f), limit)
    ensures tg + w * tf == h * Pow2(limit)
  {
    hide Pow2, Cong, NegInverse16;
    var p, t := Pow2(limit), NegInverse16(f);
    CongPow2Weaken(f, tf, i, limit);
    CongPow2Weaken(g, tg, i, limit);
    CongSym(f, tf, p);
    CongSym(g, tg, p);
    CongMod(g * t, p);
    CongMul(w, g * t, tf, f, p);
    CongAdd(tg, g, w * tf, (g * t) * f, p);
    NegInverse16Clears(f, limit);
    CongScale(1 + t * f, 0, g, p);
    MulDist(1, t * f, g);
    MulAssoc(g, t, f);
    CongTrans(tg + w * tf, g + (g * t) * f, 0, p);
    h := CongElim(tg + w * tf, 0, p);
  }

  lemma NegInverse16Clears(f: nat, limit: nat)
    requires Odd(f) && limit <= 4
    ensures Cong(1 + NegInverse16(f) * f, 0, Pow2(limit))
  {
    hide Cong, NegInverse16;
    NegInverse16Works(f);
    var c := (1 + NegInverse16(f) * f) / 16;
    CongIntro(1 + NegInverse16(f) * f, 0, 16, c);
    assert Pow2(4) == 16;
    CongPow2Weaken(1 + NegInverse16(f) * f, 0, 4, limit);
  }

  lemma WordCong(a: int, b: int, i: nat)
    requires i <= 62 && Cong(a, b, WORD)
    ensures Cong(a, b, Pow2(i))
  {
    PowerLiterals();
    CongPow2Weaken(a, b, 64, i);
  }

  /** One row of the matrix: p times the target equals the row applied to (f, g). */
  ghost predicate Row(t: int, p: int, a: int, f: int, b: int, g: int) {
    t * p == a * f + b * g
  }

  ghost predicate Det(u: int, v: int, q: int, r: int, p: int) {
    u * r - v * q == p
  }

  ghost predicate Within(a: int, b: int, p: int) {
    Abs(a) + Abs(b) <= p
  }

  /** What the loop knows with i bits to go and l bits of g already cleared ahead. */
  ghost predicate LoopInv(s0: State, i: nat, l: nat, eta: int, f: nat, g: nat,
                          tf: int, tg: int, h: int, u: int, v: int, q: int, r: int)
  {
    && l <= i <= 62
    && Odd(tf)
    && tg == h * Pow2(l)
    && DivSteps(62 - i + l, s0) == State(eta - l, tf, h)
    && Cong(f, tf, Pow2(i)) && Cong(g, tg, Pow2(i))
    && Row(tf, Pow2(62 - i), u, s0.f, v, s0.g)
    && Row(tg, Pow2(62 - i), q, s0.f, r, s0.g)
    && Det(u, v, q, r, Pow2(62 - i))
    && Within(u, v, Pow2(62 - i))
    && Within(q, r, Pow2(62 - i + l))
  }

  ghost predicate WordsHold(t: Quad, u: int, v: int, q: int, r: int) {
    && t.u < WORD && t.v < WORD && t.q < WORD && t.r < WORD
    && Cong(t.u, u, WORD) && Cong(t.v, v, WORD) && Cong(t.q, q, WORD) && Cong(t.r, r, WORD)
  }

  /** Shifting the low word shifts the true value. */
  lemma QuotientCong(g: nat, z: nat, i: nat, tg: int) returns (h: int)
    requires z <= i && Cong(g, tg, Pow2(i)) && g % Pow2(z) == 0
    ensures tg == h * Pow2(z) && Cong(Arith.Shr(g, z), h, Pow2(i - z))
  {
    hide Pow2, Cong;
    var k := CongElim(g, tg, Pow2(i));
    var gz := g / Pow2(z);
    Pow2Add(i - z, z);
    MulAssoc(k, Pow2(i - z), Pow2(z));
    h := gz - k * Pow2(i - z);
    MulDist(gz, k * Pow2(i - z), Pow2(z));
    CongIntro(gz, h, Pow2(i - z), k);
  }

  /** The number of zero bits the loop can shift out, as seen in the low word, is right for
      the true value, and covers the bits known to be clear. */
  lemma ZerosFit(g: nat, z: nat, i: nat, l: nat, tg: int, h: int) returns (h2: int)
    requires l <= i && z <= i && tg == h * Pow2(l) && Cong(g, tg, Pow2(i))
    requires g % Pow2(z) == 0
    requires z < i ==> Odd(Arith.Shr(g, z))
    ensures l <= z && tg == h2 * Pow2(z) && h == h2 * Pow2(z - l)
    ensures Cong(Arith.Shr(g, z), h2, Pow2(i - z))
    ensures z < i ==> Odd(h2)
  {
    hide Pow2, Cong;
    h2 := QuotientCong(g, z, i, tg);
    if z < i {
      OddAgrees(Arith.Shr(g, z), h2, i - z);
      if z < l {
        Pow2Cancel(h2, h, z, l);
        EvenMultiple(h, l - z);
        assert false;
      }
    }
    Pow2Cancel(h, h2, l, z);
  }

  lemma RowScale(t: int, k: nat, a: int, f: int, b: int, g: int, z: nat)
    requires Row(t, Pow2(k), a, f, b, g)
    ensures Row(t, Pow2(k + z), a * Pow2(z), f, b * Pow2(z), g)
  {
    hide Pow2;
    var p := Pow2(z);
    Pow2Add(k, z);
    MulAssoc(t, Pow2(k), p);
    MulDist(a * f, b * g, p);
    MulSwap(a, f, p);
    MulSwap(b, g, p);
  }

  lemma RowHalve(t: int, k: nat, a: int, f: int, b: int, g: int, h: int, z: nat)
    requires Row(t, Pow2(k), a, f, b, g) && t == h * Pow2(z)
    ensures Row(h, Pow2(k + z), a, f, b, g)
  {
    hide Pow2;
    Pow2Add(z, k);
    MulAssoc(h, Pow2(z), Pow2(k));
  }

  lemma DetScale(u: int, v: int, q: int, r: int, k: nat, z: nat)
    requires Det(u, v, q, r, Pow2(k))
    ensures Det(u * Pow2(z), v * Pow2(z), q, r, Pow2(k + z))
  {
    hide Pow2;
    Pow2Add(k, z);
    MulSwap(u, r, Pow2(z));
    MulSwap(v, q, Pow2(z));
    MulDist(u * r, v * q, Pow2(z));
  }

  lemma WithinScale(a: int, b: int, k: nat, z: nat)
    requires Within(a, b, Pow2(k))
    ensures Within(a * Pow2(z), b * Pow2(z), Pow2(k + z))
  {
    hide Pow2, Abs;
    var p := Pow2(z);
    AbsMul(a, p);
    AbsMul(b, p);
    assert Abs(p) == p by { AbsPos(p); }
    MulDist(Abs(a), Abs(b), p);
    MulMono(Abs(a) + Abs(b), Pow2(k), p);
    Pow2Add(k, z);
  }

  lemma AbsPos(p: nat)
    ensures Abs(p) == p && Abs(0 - p) == p
  {
  }

  lemma WithinGrows(a: int, b: int, k: nat, n: nat)
    requires Within(a, b, Pow2(k)) && k <= n
    ensures Within(a, b, Pow2(n))
  {
    hide Pow2;
    Pow2Grows(k, n);
  }

  /** Shifting out z zero bits of g keeps the loop invariant. */
  lemma ShiftKeeps(s0: State, i: nat, l: nat, eta: int, f: nat, g: nat, tf: int, tg: int, h: int,
                   u: int, v: int, q: int, r: int, z: nat) returns (h2: int)
    requires LoopInv(s0, i, l, eta, f, g, tf, tg, h, u, v, q, r)
    requires z <= i && g % Pow2(z) == 0 && (z < i ==> Odd(Arith.Shr(g, z)))
    ensures l <= z
    ensures LoopInv(s0, i - z, 0, eta - z, f, Arith.Shr(g, z), tf, h2, h2, u * Pow2(z), v * Pow2(z), q, r)
    ensures z < i ==> Odd(h2)
  {
    hide Pow2, Cong, Row, Det, Within, DivSteps;
    h2 := ZerosFit(g, z, i, l, tg, h);
    var k := 62 - i;
    HalvingSteps(z - l, State(eta - l, tf, h), h2);
    DivStepsAdd(k + l, z - l, s0);
    CongPow2Weaken(f, tf, i, i - z);
    RowScale(tf, k, u, s0.f, v, s0.g, z);
    RowHalve(tg, k, q, s0.f, r, s0.g, h2, z);
    DetScale(u, v, q, r, k, z);
    WithinScale(u, v, k, z);
    WithinGrows(q, r, k + l, k + z);
    TimesOne(h2);
  }

  lemma TimesOne(h: int)
    ensures h == h * Pow2(0)
  {
  }

  /** The invariant between the shift and the elimination: g is odd, eta is not negative, and
      every further step can be counted from here. */
  ghost predicate MidInv(s0: State, i: nat, eta: int, f: nat, g: nat, tf: int, tg: int,
                         u: int, v: int, q: int, r: int)
  {
    && 0 < i <= 62 && eta >= 0
    && Odd(tf) && Odd(tg)
    && (forall n: nat {:trigger DivSteps(n, State(eta, tf, tg))} ::
          n > 0 ==> DivSteps(62 - i + n, s0) == DivSteps(n, State(eta, tf, tg)))
    && Cong(f, tf, Pow2(i)) && Cong(g, tg, Pow2(i))
    && Row(tf, Pow2(62 - i), u, s0.f, v, s0.g)
    && Row(tg, Pow2(62 - i), q, s0.f, r, s0.g)
    && Det(u, v, q, r, Pow2(62 - i))
    && Within(u, v, Pow2(62 - i))
    && Within(q, r, Pow2(62 - i))
  }

  lemma StayKeeps(s0: State, i: nat, eta: int, f: nat, g: nat, tf: int, tg: int,
                  u: int, v: int, q: int, r: int)
    requires LoopInv(s0, i, 0, eta, f, g, tf, tg, tg, u, v, q, r)
    requires i > 0 && Odd(tg) && eta >= 0
    ensures MidInv(s0, i, eta, f, g, tf, tg, u, v, q, r)
  {
    hide Pow2, Cong, Row, Det, Within, DivSteps;
    forall n: nat {:trigger DivSteps(n, State(eta, tf, tg))} | n > 0
      ensures DivSteps(62 - i + n, s0) == DivSteps(n, State(eta, tf, tg))
    {
      DivStepsAdd(62 - i, n, s0);
    }
  }

  lemma RowNegate(t: int, p: int, a: int, f: int, b: int, g: int)
    requires Row(t, p, a, f, b, g)
    ensures Row(0 - t, p, 0 - a, f, 0 - b, g)
  {
    MulNeg(t, p);
    MulNeg(a, f);
    MulNeg(b, g);
  }

  lemma DetSwap(u: int, v: int, q: int, r: int, p: int)
    requires Det(u, v, q, r, p)
    ensures Det(q, r, 0 - u, 0 - v, p)
  {
    MulNeg(q, v);
    MulNeg(r, u);
  }

  lemma SwapKeeps(s0: State, i: nat, eta: int, f: nat, g: nat, ng: nat, tf: int, tg: int,
                  u: int, v: int, q: int, r: int)
    requires LoopInv(s0, i, 0, eta, f, g, tf, tg, tg, u, v, q, r)
    requires i > 0 && Odd(tg) && eta < 0 && ng == WNeg(f)
    ensures MidInv(s0, i, 0 - eta, g, ng, tg, 0 - tf, q, r, 0 - u, 0 - v)
  {
    hide Pow2, Cong, Row, Det, Within, DivSteps;
    forall n: nat {:trigger DivSteps(n, State(0 - eta, tg, 0 - tf))} | n > 0
      ensures DivSteps(62 - i + n, s0) == DivSteps(n, State(0 - eta, tg, 0 - tf))
    {
      DivStepsAdd(62 - i, n, s0);
      SwapThenSteps(n, State(eta, tf, tg));
    }
    CongMod(0 - f, WORD);
    WordCong(ng, 0 - f, i);
    CongRefl(0, Pow2(i));
    CongSub(0, 0, f, tf, Pow2(i));
    CongTrans(ng, 0 - f, 0 - tf, Pow2(i));
    RowNegate(tf, Pow2(62 - i), u, s0.f, v, s0.g);
    DetSwap(u, v, q, r, Pow2(62 - i));
    WithinNegate(u, v, Pow2(62 - i));
  }

  lemma WithinNegate(a: int, b: int, p: int)
    requires Within(a, b, p)
    ensures Within(0 - a, 0 - b, p)
  {
  }

  lemma RowAdd(tf: int, tg: int, p: int, u: int, v: int, q: int, r: int, f: int, g: int, w: int)
    requires Row(tf, p, u, f, v, g) && Row(tg, p, q, f, r, g)
    ensures Row(tg + w * tf, p, q + w * u, f, r + w * v, g)
  {
    MulDist(tg, w * tf, p);
    MulAssoc(w, tf, p);
    MulDist(u * f, v * g, w);
    MulAssoc(w, u, f);
    MulAssoc(w, v, g);
    MulDist(q, w * u, f);
    MulDist(r, w * v, g);
  }

  lemma DetAdd(u: int, v: int, q: int, r: int, p: int, w: int)
    requires Det(u, v, q, r, p)
    ensures Det(u, v, q + w * u, r + w * v, p)
  {
    MulDist(r, w * v, u);
    MulDist(q, w * u, v);
    MulSwap(u, w, v);
    MulSwap(w, u, v);
  }

  lemma WithinAdd(u: int, v: int, q: int, r: int, k: nat, w: nat, limit: nat)
    requires Within(u, v, Pow2(k)) && Within(q, r, Pow2(k)) && w < Pow2(limit)
    ensures Within(q + w * u, r + w * v, Pow2(k + limit))
  {
    hide Pow2;
    WithinAddRow(u, v, q, r, Pow2(k), w, Pow2(limit));
    Pow2Add(k, limit);
  }

  lemma WithinAddRow(u: int, v: int, q: int, r: int, p: nat, w: nat, s: nat)
    requires Within(u, v, p) && Within(q, r, p) && w < s
    ensures Within(q + w * u, r + w * v, p * s)
  {
    AbsMul(w, u);
    AbsMul(w, v);
    assert Abs(q + w * u) <= Abs(q) + w * Abs(u);
    assert Abs(r + w * v) <= Abs(r) + w * Abs(v);
    MulDist(Abs(u), Abs(v), w);
    MulMono(Abs(u) + Abs(v), p, w);
    MulMono(w + 1, s, p);
    MulDist(w, 1, p);
  }

  /** Adding w times the first row keeps the invariant, with `limit` bits cleared ahead. */
  lemma EliminateKeeps(s0: State, i: nat, eta: int, f: nat, g: nat, g2: nat, tf: int, tg: int,
                       u: int, v: int, q: int, r: int, limit: nat, w: nat) returns (h: int)
    requires MidInv(s0, i, eta, f, g, tf, tg, u, v, q, r)
    requires 0 < limit <= i && limit <= 4 && limit <= eta + 1
    requires Odd(f) && w == LowBits(g * NegInverse16(f), limit)
    requires g2 == WAdd(g, w * f)
    ensures LoopInv(s0, i, limit, eta, f, g2, tf, tg + w * tf, h, u, v, q + w * u, r + w * v)
  {
    hide Pow2, Cong, Row, Det, Within, DivSteps, NegInverse16;
    h := MultiplierClears(f, g, w, limit, i, tf, tg);
    EliminationSteps(limit, State(eta, tf, tg), w, h);
    var k := 62 - i;
    EliminateLow(i, f, g, g2, tf, tg, w);
    RowAdd(tf, tg, Pow2(k), u, v, q, r, s0.f, s0.g, w);
    DetAdd(u, v, q, r, Pow2(k), w);
    WithinAdd(u, v, q, r, k, w, limit);
  }

  lemma EliminateLow(i: nat, f: nat, g: nat, g2: nat, tf: int, tg: int, w: nat)
    requires i <= 62 && Cong(f, tf, Pow2(i)) && Cong(g, tg, Pow2(i))
    requires g2 == WAdd(g, w * f)
    ensures Cong(g2, tg + w * tf, Pow2(i))
  {
    hide Pow2, Cong;
    var p := Pow2(i);
    CongScale(f, tf, w, p);
    CongAdd(g, tg, w * f, w * tf, p);
    CongMod(g + w * f, WORD);
    WordCong(g2, g + w * f, i);
    CongTrans(g2, g + w * f, tg + w * tf, p);
  }

  lemma ScaleWord(a: nat, n: int, c: int, b: nat)
    requires Cong(a, n, WORD) && b == WMul(a, c)
    ensures b < WORD && Cong(b, n * c, WORD)
  {
    hide Cong;
    CongMod(a * c, WORD);
    CongScale(a, n, c, WORD);
    CongTrans(b, a * c, n * c, WORD);
  }

  lemma NegWord(a: nat, n: int, b: nat)
    requires Cong(a, n, WORD) && b == WNeg(a)
    ensures b < WORD && Cong(b, 0 - n, WORD)
  {
    ScaleWord(a, n, -1, b);
  }

  lemma AddMulWord(a: nat, n: int, x: nat, m: int, w: nat, b: nat)
    requires Cong(a, n, WORD) && Cong(x, m, WORD) && b == WAdd(a, w * x)
    ensures b < WORD && Cong(b, n + w * m, WORD)
  {
    hide Cong;
    CongMod(a + w * x, WORD);
    CongScale(x, m, w, WORD);
    CongAdd(a, n, w * x, w * m, WORD);
    CongTrans(b, a + w * x, n + w * m, WORD);
  }

  /** What a batch of 62 steps gives for every pair with the given low bits. */
  ghost predicate Batch(t: Quad, eta0: int, eta: int, f: int, g: int) {
    var s := DivSteps(62, State(eta0, f, g));
    && eta == s.eta && Odd(s.f)
    && MatrixOf(t, f, g, s.f, s.g)
  }

  lemma BatchDone(s0: State, eta: int, f: nat, g: nat, tf: int, tg: int, t: Quad, u: int, v: int, q: int, r: int)
    requires LoopInv(s0, 0, 0, eta, f, g, tf, tg, tg, u, v, q, r) && WordsHold(t, u, v, q, r)
    ensures Batch(t, s0.eta, eta, s0.f, s0.g)
  {
    hide Pow2, Cong, DivSteps;
    PowerLiterals();
    SignedOf(t.u, u);
    SignedOf(t.v, v);
    SignedOf(t.q, q);
    SignedOf(t.r, r);
  }

  lemma BatchStart(s0: State, i: nat, f: nat, g: nat)
    requires i == 62 && Odd(f) && Cong(f, s0.f, Pow2(i)) && Cong(g, s0.g, Pow2(i))
    ensures LoopInv(s0, i, 0, s0.eta, f, g, s0.f, s0.g, s0.g, 1, 0, 0, 1)
  {
    hide Pow2, Cong, Row, Det, Within, DivSteps;
    OddAgrees(f, s0.f, i);
    TimesOne(s0.g);
    NoSteps(s0);
    IdentityRows(s0.f, s0.g);
    IdentityDet();
    IdentityWithin();
  }

  lemma NoSteps(s: State)
    ensures DivSteps(0, s) == s && Pow2(0) == 1
  {
  }

  lemma IdentityRows(f: int, g: int)
    ensures Row(f, 1, 1, f, 0, g) && Row(g, 1, 0, f, 1, g)
  {
    assert 1 * f == f && 0 * g == 0 && 0 * f == 0 && 1 * g == g && f * 1 == f && g * 1 == g;
  }

  lemma IdentityDet()
    ensures Det(1, 0, 0, 1, 1)
  {
  }

  lemma IdentityWithin()
    ensures Within(1, 0, 1) && Within(0, 1, 1)
  {
  }

  /** Exchanges f and g, with a sign, once eta is negative. */
  method Exchange(eta0: int, i: nat, f0: nat, g0: nat, t0: Quad, ghost s0: State, ghost tf0: int, ghost tg0: int,
                  ghost U0: int, ghost V0: int, ghost Q0: int, ghost R0: int)
    returns (eta: int, f: nat, g: nat, t: Quad, ghost tf: int, ghost tg: int,
             ghost U: int, ghost V: int, ghost Q: int, ghost R: int)
    requires 0 < i <= 62 && f0 < WORD && g0 < WORD && Odd(f0) && Odd(g0) && Odd(tg0)
    requires WordsHold(t0, U0, V0, Q0, R0)
    requires LoopInv(s0, i, 0, eta0, f0, g0, tf0, tg0, tg0, U0, V0, Q0, R0)
    ensures f < WORD && g < WORD && Odd(f) && eta >= 0
    ensures WordsHold(t, U, V, Q, R)
    ensures MidInv(s0, i, eta, f, g, tf, tg, U, V, Q, R)
  {
    hide Cong, LoopInv, MidInv, DivSteps;
    eta, f, g, t := eta0, f0, g0, t0;
    tf, tg, U, V, Q, R := tf0, tg0, U0, V0, Q0, R0;
    if eta < 0 {
      SwapKeeps(s0, i, eta, f, g, WNeg(f), tf, tg, U, V, Q, R);
      NegWord(t.u, U, WNeg(t.u));
      NegWord(t.v, V, WNeg(t.v));
      eta := -eta;
      f, g := g0, WNeg(f0);
      t := Quad(t.q, t.r, WNeg(t.u), WNeg(t.v));
      tf, tg := tg, 0 - tf;
      U, V, Q, R := Q, R, 0 - U, 0 - V;
    } else {
      StayKeeps(s0, i, eta, f, g, tf, tg, U, V, Q, R);
    }
  }

  /** Clears up to four low bits of g with one multiple of f. */
  method Eliminate(eta: int, i: nat, f: nat, g0: nat, t0: Quad, ghost s0: State, ghost tf: int, ghost tg0: int,
                   ghost U: int, ghost V: int, ghost Q0: int, ghost R0: int)
    returns (g: nat, t: Quad, ghost limit: nat, ghost tg: int, ghost h: int, ghost Q: int, ghost R: int)
    requires 0 < i <= 62 && f < WORD && g0 < WORD && Odd(f) && eta >= 0
    requires WordsHold(t0, U, V, Q0, R0)
    requires MidInv(s0, i, eta, f, g0, tf, tg0, U, V, Q0, R0)
    ensures g < WORD && 0 < limit <= i
    ensures WordsHold(t, U, V, Q, R)
    ensures LoopInv(s0, i, limit, eta, f, g, tf, tg, h, U, V, Q, R)
  {
    hide Cong, LoopInv, MidInv, DivSteps, NegInverse16;
    var most := Min(Min(eta + 1, i), 4);
    limit := most;
    var w := LowBits(g0 * NegInverse16(f), most);
    h := EliminateKeeps(s0, i, eta, f, g0, WAdd(g0, w * f), tf, tg0, U, V, Q0, R0, most, w);
    AddMulWord(t0.q, Q0, t0.u, U, w, WAdd(t0.q, w * t0.u));
    AddMulWord(t0.r, R0, t0.v, V, w, WAdd(t0.r, w * t0.v));
    g := WAdd(g0, w * f);
    t := Quad(t0.u, t0.v, WAdd(t0.q, w * t0.u), WAdd(t0.r, w * t0.v));
    tg, Q, R := tg0 + w * tf, Q0 + w * U, R0 + w * V;
  }

  /** 62 division steps at once. Only the words `f0` and `g0` are read; the contract is about
      any pair (tf0, tg0) that agrees with them on the low 62 bits. */
  method DivstepsNMatrix(eta0: int, f0: nat, g0: nat, ghost tf0: int, ghost tg0: int)
    returns (t: Quad, eta: int)
    requires f0 < WORD && g0 < WORD && Odd(f0)
    requires Cong(f0, tf0, MOD_N) && Cong(g0, tg0, MOD_N)
    ensures Batch(t, eta0, eta, tf0, tg0)
  {
    hide Pow2, Cong, LoopInv, MidInv, DivSteps, Batch;
    t := Quad(1, 0, 0, 1);
    var f: nat, g: nat := f0, g0;
    eta := eta0;
    var i: nat := 62;
    ghost var s0 := State(eta0, tf0, tg0);
    ghost var tf, tg, h := tf0, tg0, tg0;
    ghost var l: nat := 0;
    ghost var U: int, V: int, Q: int, R: int := 1, 0, 0, 1;
    PowerLiterals();
    BatchStart(s0, i, f0, g0);
    CongRefl(0, WORD);
    CongRefl(1, WORD);
    while true
      invariant f < WORD && g < WORD && Odd(f) && l <= i <= 62
      invariant WordsHold(t, U, V, Q, R)
      invariant LoopInv(s0, i, l, eta, f, g, tf, tg, h, U, V, Q, R)
      decreases 2 * i + (if l == 0 then 1 else 0)
    {
      var zeros := CountZeros(g, i);
      h := ShiftKeeps(s0, i, l, eta, f, g, tf, tg, h, U, V, Q, R, zeros);
      ShiftWords(t, U, V, Q, R, Pow2(zeros));
      ShiftSmaller(g, zeros);
      eta := eta - zeros;
      i := i - zeros;
      g := Arith.Shr(g, zeros);
      t := Quad(WMul(t.u, Pow2(zeros)), WMul(t.v, Pow2(zeros)), t.q, t.r);
      U, V, tg := U * Pow2(zeros), V * Pow2(zeros), h;
      if i == 0 {
        break;
      }
      eta, f, g, t, tf, tg, U, V, Q, R := Exchange(eta, i, f, g, t, s0, tf, tg, U, V, Q, R);
      g, t, l, tg, h, Q, R := Eliminate(eta, i, f, g, t, s0, tf, tg, U, V, Q, R);
    }
    BatchDone(s0, eta, f, g, tf, tg, t, U, V, Q, R);
  }

  lemma ShiftWords(t: Quad, u: int, v: int, q: int, r: int, p: nat)
    requires WordsHold(t, u, v, q, r)
    ensures WordsHold(Quad(WMul(t.u, p), WMul(t.v, p), t.q, t.r), u * p, v * p, q, r)
  {
    hide Cong;
    ScaleWord(t.u, u, p, WMul(t.u, p));
    ScaleWord(t.v, v, p, WMul(t.v, p));
  }

  /** The shift amount of one turn: trailing zeros of g, at most the bits that are left. */
  method CountZeros(g: nat, i: nat) returns (zeros: nat)
    ensures zeros <= i && g % Pow2(zeros) == 0
    ensures zeros < i ==> Odd(Arith.Shr(g, zeros))
  {
    hide Pow2;
    zeros := i;
    if g != 0 {
      zeros := Bsf(g);
    } else {
      ExactQuotient(0, 0, Pow2(i));
    }
    if i < zeros {
      LowerPowerDivides(g, zeros, i);
      zeros := i;
    }
  }

  function Min(x: int, y: int): int {
    if x < y then x else y
  }

  lemma OddAgrees(f: nat, tf: int, i: nat)
    requires i > 0 && Cong(f, tf, Pow2(i))
    ensures Odd(f) <==> Odd(tf)
  {
    hide Cong;
    CongPow2Weaken(f, tf, i, 1);
    assert Pow2(1) == 2;
    var k := CongElim(f, tf, 2);
  }

  lemma LowerPowerDivides(g: nat, z: nat, i: nat)
    requires i <= z && g % Pow2(z) == 0
    ensures g % Pow2(i) == 0
  {
    hide Pow2;
    var k := g / Pow2(z);
    Pow2Add(z - i, i);
    MulAssoc(k, Pow2(z - i), Pow2(i));
    ExactQuotient(g, k * Pow2(z - i), Pow2(i));
  }

  lemma ShiftSmaller(g: nat, z: nat)
    ensures Arith.Shr(g, z) <= g
  {
    hide Pow2;
    var k := g / Pow2(z);
    if k > g {
      MulMono(1, Pow2(z), k);
    }
  }

  // ---------- Applying the matrix ----------

  lemma MatrixTargets(t: Quad, f: int, g: int, f': int, g': int)
    requires MatrixOf(t, f, g, f', g')
    ensures f * Signed(t.u) + g * Signed(t.v) == f' * MOD_N
    ensures f * Signed(t.q) + g * Signed(t.r) == g' * MOD_N
  {
    hide Signed, Abs;
  }

  method UpdateFG(f: Sint, g: Sint, t: Quad, ghost f': int, ghost g': int) returns (f1: Sint, g1: Sint)
    requires MatrixOf(t, f.Value(), g.Value(), f', g')
    ensures f1.Value() == f' && g1.Value() == g'
  {
    hide Signed, Abs, MatrixOf, Sint.Value;
    MatrixTargets(t, f.Value(), g.Value(), f', g');
    f1 := MulUnit(f, Signed(t.u));
    var f2 := MulUnit(f, Signed(t.q));
    g1 := MulUnit(g, Signed(t.v));
    var g2 := MulUnit(g, Signed(t.r));
    f1 := Add(f1, g1);
    g1 := Add(f2, g2);
    f1 := Shr(f1, f');
    g1 := Shr(g1, g');
  }

  /** The modulus with the values `init` derives from it. */
  datatype Modulus = Modulus(m: Sint, lowM: nat, mi: nat) {
    ghost predicate Valid() {
      && !m.sign && Odd(m.mag)
      && lowM == GetLow(m)
      && mi < MOD_N && Cong(mi * m.mag, 1, MOD_N)
    }
  }

  /** One half of `update_de`: the correction word for the combination `x` of d and e. The
      sign term `us` cancels modulo 2^62, whatever it is. */
  method Correction(im: Modulus, x: Sint, us: nat) returns (s: int)
    requires im.Valid()
    ensures 2 * Abs(s) <= MOD_N
    ensures Divides(MOD_N, x.Value() + im.m.mag * s)
  {
    hide Divides, Cong, GetLow;
    var xi := WAdd(GetLow(x), im.lowM * us);
    var uw := WAdd(us, 0 - im.mi * xi);
    s := uw % MOD_N;
    CorrectionClears(im, x, us, xi, uw, s);
    if s >= MOD_N / 2 {
      ShiftMultiple(x.Value(), im.m.mag, s, MOD_N);
      s := s - MOD_N;
    }
  }

  lemma ShiftMultiple(x: int, m: int, s: int, n: int)
    requires Divides(n, x + m * s)
    ensures Divides(n, x + m * (s - n))
  {
    hide Divides;
    var k := DividesElim(n, x + m * s);
    MulDist(s, n, m);
    MulDist(k, m, n);
    DividesIntro(n, x + m * (s - n), k - m);
  }

  lemma CorrectionClears(im: Modulus, x: Sint, us: nat, xi: nat, uw: nat, s: int)
    requires im.Valid()
    requires xi == WAdd(GetLow(x), im.lowM * us)
    requires uw == WAdd(us, 0 - im.mi * xi)
    requires s == uw % MOD_N
    ensures Divides(MOD_N, x.Value() + im.m.mag * s)
  {
    hide Divides, Cong, GetLow;
    var m, X := im.m.mag, x.Value();
    GetLowCong(x);
    GetLowCong(im.m);
    CongScale(im.lowM, m, us, WORD);
    CongAdd(GetLow(x), X, im.lowM * us, us * m, WORD);
    CongMod(GetLow(x) + im.lowM * us, WORD);
    CongTrans(xi, GetLow(x) + im.lowM * us, X + us * m, WORD);
    CongWeaken(xi, X + us * m, MOD_N, 4);
    SolveCorrection(m, im.mi, us, X + us * m, xi, uw, s);
    var k := CongElim(m * s, m * us - (X + us * m), MOD_N);
    DividesIntro(MOD_N, X + m * s, k);
  }

  /** s = us - y / m modulo 2^62. */
  lemma SolveCorrection(m: nat, mi: nat, us: nat, y: int, xi: nat, uw: nat, s: int)
    requires Cong(xi, y, MOD_N) && Cong(mi * m, 1, MOD_N)
    requires uw == WAdd(us, 0 - mi * xi) && s == uw % MOD_N
    ensures Cong(m * s, m * us - y, MOD_N)
  {
    hide Cong;
    CongScale(xi, y, mi, MOD_N);
    CongRefl(us, MOD_N);
    CongSub(us, us, mi * xi, mi * y, MOD_N);
    CongMod(us - mi * xi, WORD);
    CongWeaken(uw, us - mi * xi, MOD_N, 4);
    CongMod(uw, MOD_N);
    CongTrans(s, uw, us - mi * xi, MOD_N);
    CongTrans(s, us - mi * xi, us - mi * y, MOD_N);
    CongScale(s, us - mi * y, m, MOD_N);
    MulDist(us, mi * y, m);
    CongScale(mi * m, 1, y, MOD_N);
    Rearrange(m, mi, y);
    CongRefl(m * us, MOD_N);
    CongSub(m * us, m * us, m * (mi * y), y, MOD_N);
    CongTrans(m * s, m * us - m * (mi * y), m * us - y, MOD_N);
  }

  lemma Rearrange(x: int, y: int, z: int)
    ensures x * (y * z) == z * (y * x)
  {
  }

  /** What one call of `update_de` leaves of a component: an exact quotient by 2^62 of the
      combination, corrected by a multiple of the modulus of at most half its size. */
  ghost predicate Combined(m: int, a: int, b: int, d: int, e: int, r: int) {
    exists s: int :: 2 * Abs(s) <= MOD_N && r * MOD_N == a * d + b * e + Times(m, s)
  }

  method UpdateDE(im: Modulus, d: Sint, e: Sint, t: Quad) returns (d1: Sint, e1: Sint)
    requires im.Valid()
    ensures Combined(im.m.mag, Signed(t.u), Signed(t.v), d.Value(), e.Value(), d1.Value())
    ensures Combined(im.m.mag, Signed(t.q), Signed(t.r), d.Value(), e.Value(), e1.Value())
  {
    var ud, ue := 0, 0;
    if d.sign {
      ud, ue := t.u, t.q;
    }
    if e.sign {
      ud := (ud + t.v) % WORD;
      ue := (ue + t.r) % WORD;
    }
    d1 := MulUnit(d, Signed(t.u));
    var d2 := MulUnit(d, Signed(t.q));
    e1 := MulUnit(e, Signed(t.v));
    var e2 := MulUnit(e, Signed(t.r));
    d1 := Add(d1, e1);
    e1 := Add(d2, e2);
    var sd := Correction(im, d1, ud);
    var se := Correction(im, e1, ue);
    d2 := MulUnit(im.m, sd);
    e2 := MulUnit(im.m, se);
    d1 := Add(d1, d2);
    e1 := Add(e1, e2);
    ghost var kd := DividesElim(MOD_N, d1.Value());
    ghost var ke := DividesElim(MOD_N, e1.Value());
    d1 := Shr(d1, kd);
    e1 := Shr(e1, ke);
    assert d1.Value() * MOD_N == Signed(t.u) * d.Value() + Signed(t.v) * e.Value() + Times(im.m.mag, sd);
    assert e1.Value() * MOD_N == Signed(t.q) * d.Value() + Signed(t.r) * e.Value() + Times(im.m.mag, se);
  }

  /** The combination stays tied to f (or g) and grows by at most half the modulus. */
  lemma CombinedKeeps(m: nat, a: int, b: int, d: int, e: int, r: int, x: int, f: int, g: int, f': int,
                      bound: nat)
    requires Odd(m) && Combined(m, a, b, d, e, r)
    requires Cong(d * x, f, m) && Cong(e * x, g, m)
    requires f' * MOD_N == a * f + b * g && Abs(a) + Abs(b) <= MOD_N
    requires 2 * Abs(d) <= bound && 2 * Abs(e) <= bound
    ensures Cong(r * x, f', m)
    ensures 2 * Abs(r) <= bound + m
  {
    hide Cong, Abs;
    var s :| 2 * Abs(s) <= MOD_N && r * MOD_N == a * d + b * e + Times(m, s);
    CombinedCong(m, a, b, d, e, r, x, f, g, f', s);
    CombinedSize(m, a, b, d, e, r, s, bound);
  }

  lemma CombinedCong(m: nat, a: int, b: int, d: int, e: int, r: int, x: int, f: int, g: int, f': int, s: int)
    requires Odd(m) && r * MOD_N == a * d + b * e + m * s
    requires Cong(d * x, f, m) && Cong(e * x, g, m)
    requires f' * MOD_N == a * f + b * g
    ensures Cong(r * x, f', m)
  {
    hide Cong, Divides;
    CongScale(d * x, f, a, m);
    CongScale(e * x, g, b, m);
    CongAdd(a * (d * x), a * f, b * (e * x), b * g, m);
    CongZeroMultiple(s * x, m);
    CongAdd(a * (d * x) + b * (e * x), f' * MOD_N, (s * x) * m, 0, m);
    ExpandCombination(a, b, d, e, x, m, s);
    ConstOut(r, x);
    var k := CongElim((r * x) * MOD_N, f' * MOD_N, m);
    DividesIntro(m, MOD_N * (r * x - f'), k);
    PowerLiterals();
    CancelPow2(62, r * x - f', m);
    var c := DividesElim(m, r * x - f');
    CongIntro(r * x, f', m, c);
  }

  lemma ConstOut(r: int, x: int)
    ensures (r * MOD_N) * x == (r * x) * MOD_N
  {
  }

  lemma ExpandCombination(a: int, b: int, d: int, e: int, x: int, m: int, s: int)
    ensures (a * d + b * e + m * s) * x == a * (d * x) + b * (e * x) + (s * x) * m
  {
    MulDist(a * d + b * e, m * s, x);
    MulDist(a * d, b * e, x);
    MulAssoc(a, d, x);
    MulAssoc(b, e, x);
    MulAssoc(m, s, x);
  }

  lemma CombinedSize(m: nat, a: int, b: int, d: int, e: int, r: int, s: int, bound: nat)
    requires 2 * Abs(s) <= MOD_N && r * MOD_N == a * d + b * e + m * s && Abs(a) + Abs(b) <= MOD_N
    requires 2 * Abs(d) <= bound && 2 * Abs(e) <= bound
    ensures 2 * Abs(r) <= bound + m
  {
    ProductBound(a, d, bound);
    ProductBound(b, e, bound);
    ProductBound(m, s, MOD_N);
    MulDist(Abs(a), Abs(b), bound);
    MulMono(Abs(a) + Abs(b), MOD_N, bound);
  }

  lemma ProductBound(a: int, d: int, bound: nat)
    requires 2 * Abs(d) <= bound
    ensures 2 * Abs(a * d) <= Abs(a) * bound
  {
    AbsMul(a, d);
    MulMono(2 * Abs(d), bound, Abs(a));
    MulAssoc(2, Abs(d), Abs(a));
  }

  // ---------- The outer loop ----------

  ghost predicate IsGcd(d: nat, a: int, b: int) {
    && Divides(d, a) && Divides(d, b)
    && forall c: int :: Divides(c, a) && Divides(c, b) ==> Divides(c, d)
  }

  ghost predicate Coprime(a: int, b: int) {
    forall c: nat :: Divides(c, a) && Divides(c, b) ==> c == 1
  }

  /** The inputs stay integer combinations of the current pair. */
  ghost predicate Spans(a: int, f: int, g: int) {
    exists i: int, j: int :: a == Times(i, f) + Times(j, g)
  }

  lemma SpansIntro(a: int, f: int, g: int, i: int, j: int)
    requires a == i * f + j * g
    ensures Spans(a, f, g)
  {
    assert a == Times(i, f) + Times(j, g);
  }

  lemma SpansElim(a: int, f: int, g: int) returns (i: int, j: int)
    requires Spans(a, f, g)
    ensures a == i * f + j * g
  {
    i, j :| a == Times(i, f) + Times(j, g);
  }

  lemma SpansKeeps(a: int, u: int, v: int, q: int, r: int, f: int, g: int, f': int, g': int)
    requires Spans(a, f, g) && Transition(u, v, q, r, f, g, f', g')
    ensures Spans(a, f', g')
  {
    hide Spans, Abs;
    var i, j := SpansElim(a, f, g);
    // the inverse matrix has integer entries because the determinant is 2^62
    InverseRow(u, v, q, r, f, g, f', g');
    Regroup(i, j, u, v, q, r, f', g');
    SpansIntro(a, f', g', i * r - j * q, j * u - i * v);
  }

  lemma Regroup(i: int, j: int, u: int, v: int, q: int, r: int, f: int, g: int)
    ensures i * (r * f - v * g) + j * (u * g - q * f) == (i * r - j * q) * f + (j * u - i * v) * g
  {
    MulDist(r * f, v * g, i);
    MulDist(u * g, q * f, j);
    MulAssoc(i, r, f);
    MulAssoc(i, v, g);
    MulAssoc(j, u, g);
    MulAssoc(j, q, f);
    MulDist(i * r, j * q, f);
    MulDist(j * u, i * v, g);
  }

  lemma InverseRow(u: int, v: int, q: int, r: int, f: int, g: int, f': int, g': int)
    requires f' * MOD_N == u * f + v * g && g' * MOD_N == q * f + r * g && u * r - v * q == MOD_N
    ensures f == r * f' - v * g' && g == u * g' - q * f'
  {
    Adjugate(r, v, u, v, q, r, f, g);
    Adjugate(q, u, u, v, q, r, f, g);
    ConstThrough(r, f');
    ConstThrough(v, g');
    ConstThrough(u, g');
    ConstThrough(q, f');
    assert (r * u - v * q) * f == MOD_N * f;
    assert (u * r - q * v) * g == MOD_N * g;
    assert r * v - v * r == 0 && q * u - u * q == 0;
  }

  lemma ConstThrough(a: int, b: int)
    ensures a * (b * MOD_N) == MOD_N * (a * b)
  {
  }

  lemma Adjugate(a: int, b: int, u: int, v: int, q: int, r: int, f: int, g: int)
    ensures a * (u * f + v * g) - b * (q * f + r * g) == (a * u - b * q) * f + (a * v - b * r) * g
  {
    MulDist(u * f, v * g, a);
    MulDist(q * f, r * g, b);
    MulAssoc(a, u, f);
    MulAssoc(a, v, g);
    MulAssoc(b, q, f);
    MulAssoc(b, r, g);
    MulDist(a * u, b * q, f);
    MulDist(a * v, b * r, g);
  }

  /** When g is gone, f is the greatest common divisor up to sign. */
  lemma ExitGcd(m: nat, x: nat, f: int, d: int)
    requires Spans(m, f, 0) && Spans(x, f, 0) && Cong(d * x, f, m)
    ensures IsGcd(Abs(f), m, x)
  {
    hide Spans, Cong, Divides;
    SpansZero(m, f);
    SpansZero(x, f);
    var k := CongElim(d * x, f, m);
    forall c: int {:trigger Divides(c, Abs(f))} | Divides(c, m) && Divides(c, x)
      ensures Divides(c, Abs(f))
    {
      CombinationDivides(c, m, x, d, k);
      NegDivides(c, f);
    }
  }

  lemma SpansZero(a: int, f: int)
    requires Spans(a, f, 0)
    ensures Divides(Abs(f), a)
  {
    hide Divides;
    var i, j := SpansElim(a, f, 0);
    var sg := if f < 0 then 0 - i else i;
    MulNeg(i, f);
    DividesIntro(Abs(f), a, sg);
  }

  lemma CombinationDivides(c: int, m: int, x: int, d: int, k: int)
    requires Divides(c, m) && Divides(c, x)
    ensures Divides(c, d * x - k * m)
  {
    hide Divides;
    var y := DividesElim(c, m);
    var z := DividesElim(c, x);
    MulAssoc(d, z, c);
    MulAssoc(k, y, c);
    MulDist(d * z, k * y, c);
    DividesIntro(c, d * x - k * m, d * z - k * y);
  }

  lemma NegDivides(c: int, f: int)
    requires Divides(c, f)
    ensures Divides(c, Abs(f))
  {
    hide Divides;
    var y := DividesElim(c, f);
    MulNeg(y, c);
    DividesIntro(c, Abs(f), if f < 0 then 0 - y else y);
  }

  /** The state of the loop in `exec` after k turns from modulus m and input x. */
  ghost predicate ExecInv(m: nat, x: nat, k: nat, f: int, g: int, d: int, e: int) {
    && Odd(f)
    && Cong(d * x, f, m) && Cong(e * x, g, m)
    && Spans(m, f, g) && Spans(x, f, g)
    && Max(Abs(f), Abs(g)) <= Max(m, x)
    && 2 * Abs(d) <= k * m + 2 && 2 * Abs(e) <= k * m + 2
  }

  lemma ExecStart(m: nat, x: nat)
    requires Odd(m)
    ensures ExecInv(m, x, 0, m, x, 0, 1)
  {
    hide Cong, Spans;
    CongIntro(0, m, m, -1);
    CongRefl(x, m);
    SpansIntro(m, m, x, 1, 0);
    SpansIntro(x, m, x, 0, 1);
  }

  lemma TurnKeeps(m: nat, x: nat, k: nat, eta: int, f: int, g: int, d: int, e: int, t: Quad, s: State,
                  d1: int, e1: int)
    requires Odd(m) && ExecInv(m, x, k, f, g, d, e) && g != 0
    requires s == DivSteps(62, State(eta, f, g)) && MatrixOf(t, f, g, s.f, s.g)
    requires Combined(m, Signed(t.u), Signed(t.v), d, e, d1)
    requires Combined(m, Signed(t.q), Signed(t.r), d, e, e1)
    ensures ExecInv(m, x, k + 1, s.f, s.g, d1, e1) && (s.g == 0 || Below(s, State(eta, f, g)))
  {
    hide Cong, Spans, Combined, DivSteps, Signed, Below;
    var u, v, q, r := Signed(t.u), Signed(t.v), Signed(t.q), Signed(t.r);
    BatchDescends(62, State(eta, f, g));
    BatchBounded(62, State(eta, f, g));
    SpansKeeps(m, u, v, q, r, f, g, s.f, s.g);
    SpansKeeps(x, u, v, q, r, f, g, s.f, s.g);
    MulMono(0, k, m);
    CombinedKeeps(m, u, v, d, e, d1, x, f, g, s.f, k * m + 2);
    CombinedKeeps(m, q, r, d, e, e1, x, f, g, s.g, k * m + 2);
    MulDist(k, 1, m);
  }

  /** The shifts that `normalize` can make bring the value to zero or above. */
  predicate Reachable(m: nat, v: int, minus: bool) {
    if minus then v <= 2 * m else 0 - 2 * m <= v
  }

  /** The exit values for which `normalize` lands in [0, m), multiples of m aside. */
  predicate Canonical(m: nat, v: int, minus: bool) {
    if minus then 0 - m < v < 2 * m else 0 - 2 * m < v < m
  }

  method Normalize(im: Modulus, v: Sint, minus: bool) returns (r: Sint)
    requires im.Valid()
    ensures Cong(r.Value(), if minus then 0 - v.Value() else v.Value(), im.m.mag)
    ensures r.Value() >= 0 <==> Reachable(im.m.mag, v.Value(), minus)
    ensures v.Value() % im.m.mag != 0 ==>
              (0 <= r.Value() < im.m.mag <==> Canonical(im.m.mag, v.Value(), minus))
  {
    hide Cong;
    ghost var m := im.m.mag;
    ghost var w := if minus then 0 - v.Value() else v.Value();
    r := v;
    if r.sign {
      r := Add(r, im.m);
    }
    if minus {
      r := Sub(im.m, r);
    }
    if r.sign {
      r := Add(r, im.m);
    }
    CongIntro(w, w, m, 0);
    CongIntro(w + m, w, m, 1);
    CongIntro(w + 2 * m, w, m, 2);
    if v.Value() % m != 0 {
      NotMultiple(v.Value(), m);
    }
  }

  lemma NotMultiple(v: int, m: nat)
    requires m > 0 && v % m != 0
    ensures v != 0 && v != m && v != 0 - m && v != 2 * m && v != 0 - 2 * m
  {
    ExactQuotient(0, 0, m);
    ExactQuotient(m, 1, m);
    ExactQuotient(0 - m, -1, m);
    ExactQuotient(2 * m, 2, m);
    ExactQuotient(0 - 2 * m, -2, m);
  }

  /** What a run of `exec` promises about the magnitude py it copies out, when its loop left
      after k turns with d and with f = +-gcd (negative if `minus`). */
  ghost predicate ExecResult(m: nat, x: nat, py: nat, gcd: nat, d: int, minus: bool, k: nat) {
    && IsGcd(gcd, m, x)
    && 2 * Abs(d) <= k * m + 2
    && Cong(d * x, if minus then 0 - gcd else gcd, m)
    && (Reachable(m, d, minus) ==> Cong(py * x, gcd, m))
    && (!Reachable(m, d, minus) ==> Cong(py * x, 0 - gcd, m))
  }

  /** For coprime inputs the copied magnitude is the inverse exactly when the exit value is
      within reach of `normalize`, and the canonical one exactly when it is closer still.
      Three turns (186 division steps) never leave the reach. */
  ghost predicate InverseResult(m: nat, x: nat, py: nat, d: int, minus: bool, k: nat)
    requires m > 0
  {
    && ((py * x) % m == 1 <==> Reachable(m, d, minus))
    && ((py * x) % m == 1 && py < m <==> Canonical(m, d, minus))
    && (k <= 3 ==> Reachable(m, d, minus))
  }

  method Exec(im: Modulus, px: nat) returns (py: nat, ghost gcd: nat, ghost d: int, ghost minus: bool, ghost k: nat)
    requires im.Valid()
    ensures forall c: nat :: IsGcd(c, im.m.mag, px) ==> Cong(py * px, c, im.m.mag) || Cong(py * px, 0 - c, im.m.mag)
    ensures ExecResult(im.m.mag, px, py, gcd, d, minus, k)
    ensures Coprime(im.m.mag, px) && im.m.mag > 1 ==> InverseResult(im.m.mag, px, py, d, minus, k)
  {
    hide Cong, Spans, Combined, MatrixOf, GetLow, DivSteps, IsGcd, Coprime;
    ghost var m := im.m.mag;
    var eta := -1;
    var f, g := im.m, Sint(false, px);
    var sd, se := Sint(false, 0), Sint(false, 1);
    k := 0;
    ExecStart(m, px);
    while g.mag != 0
      invariant ExecInv(m, px, k, f.Value(), g.Value(), sd.Value(), se.Value())
      invariant Abs(eta) <= 62 * k + 1
      decreases if g.mag == 0 then 0 else 1,
                Mu(State(eta, f.Value(), g.Value())), Shape(State(eta, f.Value(), g.Value())),
                Budget(State(eta, f.Value(), g.Value())), g.mag
    {
      ghost var s := DivSteps(62, State(eta, f.Value(), g.Value()));
      var fLow := GetLow(f) % MOD_N;
      var gLow := GetLow(g) % MOD_N;
      LowMask(f, fLow);
      LowMask(g, gLow);
      OddLow(fLow, f.Value());
      EtaDrift(62, State(eta, f.Value(), g.Value()));
      var t, eta1 := DivstepsNMatrix(eta, fLow, gLow, f.Value(), g.Value());
      var f1, g1 := UpdateFG(f, g, t, s.f, s.g);
      var d1, e1 := UpdateDE(im, sd, se, t);
      TurnKeeps(m, px, k, eta, f.Value(), g.Value(), sd.Value(), se.Value(), t, s, d1.Value(), e1.Value());
      eta, f, g, sd, se := eta1, f1, g1, d1, e1;
      k := k + 1;
    }
    d, minus, gcd := sd.Value(), f.sign, f.mag;
    ExitGcd(m, px, f.Value(), d);
    var r := Normalize(im, sd, f.sign);
    py := r.mag;
    ResultCong(m, px, f, d, r);
    OneGcd(m, px, gcd);
    if Coprime(m, px) && m > 1 {
      CoprimeGcd(m, px, gcd);
      InverseFacts(m, px, k, f, d, r);
    }
  }

  lemma OneGcd(a: int, b: int, g: nat)
    requires IsGcd(g, a, b)
    ensures forall c: nat :: IsGcd(c, a, b) ==> c == g
  {
    hide Divides;
    forall c: nat | IsGcd(c, a, b)
      ensures c == g
    {
      MutualDivisors(c, g);
    }
  }

  lemma MutualDivisors(c: nat, g: nat)
    requires Divides(c, g) && Divides(g, c)
    ensures c == g
  {
    var i := DividesElim(c, g);
    var j := DividesElim(g, c);
    if c == 0 || g == 0 {
      assert i * 0 == 0 && j * 0 == 0;
    } else {
      PositiveFactor(i, c, g);
      PositiveFactor(j, g, c);
      MulMono(1, i, c);
      MulMono(1, j, g);
    }
  }

  lemma PositiveFactor(i: int, c: nat, g: nat)
    requires g == i * c && g > 0 && c > 0
    ensures i >= 1
  {
    if i <= 0 {
      MulMono(i, 0, c);
    }
  }

  lemma OddLow(low: nat, f: int)
    requires Cong(low, f, MOD_N)
    ensures Odd(low) <==> Odd(f)
  {
    PowerLiterals();
    OddAgrees(low, f, 62);
  }

  lemma LowMask(x: Sint, low: nat)
    requires low == GetLow(x) % MOD_N
    ensures low < WORD && Cong(low, x.Value(), MOD_N)
  {
    hide Cong, GetLow;
    GetLowCong(x);
    CongWeaken(GetLow(x), x.Value(), MOD_N, 4);
    CongMod(GetLow(x), MOD_N);
    CongTrans(low, GetLow(x), x.Value(), MOD_N);
  }

  lemma CoprimeGcd(m: nat, x: nat, gcd: nat)
    requires IsGcd(gcd, m, x) && Coprime(m, x)
    ensures gcd == 1
  {
    hide Divides;
  }

  lemma ResultCong(m: nat, x: nat, f: Sint, d: int, r: Sint)
    requires Cong(d * x, f.Value(), m)
    requires Cong(r.Value(), if f.sign then 0 - d else d, m)
    ensures Cong(r.Value() * x, f.mag, m)
    ensures r.Value() < 0 ==> Cong(r.mag * x, 0 - f.mag, m)
  {
    hide Cong;
    var w := if f.sign then 0 - d else d;
    CongScale(r.Value(), w, x, m);
    MulNeg(d, x);
    CongScale(d * x, f.Value(), -1, m);
    CongTrans(r.Value() * x, w * x, f.mag, m);
    CongScale(r.Value() * x, f.mag, -1, m);
    MulNeg(r.mag, x);
  }

  lemma InverseFacts(m: nat, x: nat, k: nat, f: Sint, d: int, r: Sint)
    requires Odd(m) && m > 1 && f.mag == 1 && 2 * Abs(d) <= k * m + 2
    requires Cong(d * x, f.Value(), m)
    requires r.Value() >= 0 ==> Cong(r.mag * x, 1, m)
    requires r.Value() < 0 ==> Cong(r.mag * x, -1, m)
    requires r.Value() >= 0 <==> Reachable(m, d, f.sign)
    requires d % m != 0 ==> (0 <= r.Value() < m <==> Canonical(m, d, f.sign))
    ensures InverseResult(m, x, r.mag, d, f.sign, k)
  {
    hide Cong;
    UnitNotMultiple(d, x, f.Value(), m);
    if r.Value() >= 0 {
      CongIffMod(r.mag * x, 1, m);
      SmallMod(1, m);
    } else {
      MinusOneIsNotOne(r.mag * x, m);
    }
    if k <= 3 {
      MulMono(k, 3, m);
    }
  }

  lemma SmallMod(a: nat, m: nat)
    requires a < m
    ensures a % m == a
  {
  }

  lemma UnitNotMultiple(d: int, x: int, f: int, m: nat)
    requires m > 1 && Cong(d * x, f, m) && Abs(f) == 1
    ensures d % m != 0
  {
    hide Cong;
    if d % m == 0 {
      SmallMod(0, m);
      CongIffMod(d, 0, m);
      CongScale(d, 0, x, m);
      CongSym(d * x, f, m);
      CongTrans(f, d * x, 0, m);
      CongScale(f, 0, f, m);
      assert f * f == 1;
      CongUnique(1, 0, m);
    }
  }

  lemma MinusOneIsNotOne(a: int, m: nat)
    requires m > 2 && Cong(a, -1, m)
    ensures a % m != 1
  {
    hide Cong;
    CongIntro(-1, m - 1, m, -1);
    CongTrans(a, -1, m - 1, m);
    CongIffMod(a, m - 1, m);
    SmallMod(m - 1, m);
  }
}
