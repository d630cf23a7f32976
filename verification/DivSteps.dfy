/** The textbook division step of safegcd, one bit at a time, on unbounded integers.
    It is the reference that the 62-step batches of `invmod.hpp` are measured against,
    and the place where the termination of the outer loop is proved. */
module DivStepSpec {
  import opened Arith

  datatype State = State(eta: int, f: int, g: int)

  predicate Odd(x: int) {
    x % 2 == 1
  }

  /** One division step; `eta` is the negated delta of the literature. */
  function DivStep(s: State): State {
    if s.eta < 0 && Odd(s.g) then
      State(-s.eta - 1, s.g, (s.g - s.f) / 2)
    else
      State(s.eta - 1, s.f, (s.g + (s.g % 2) * s.f) / 2)
  }

  function DivSteps(n: nat, s: State): State {
    if n == 0 then s else DivSteps(n - 1, DivStep(s))
  }

  lemma {:induction false} DivStepsAdd(a: nat, b: nat, s: State)
    ensures DivSteps(a + b, s) == DivSteps(b, DivSteps(a, s))
  {
    if a > 0 {
      DivStepsAdd(a - 1, b, DivStep(s));
      assert DivSteps(a + b, s) == DivSteps(a - 1 + b, DivStep(s));
    }
  }

  /** Trailing zero bits of g are consumed one step each, without a swap. */
  lemma {:induction false} HalvingSteps(n: nat, s: State, h: int)
    requires s.g == h * Pow2(n)
    ensures DivSteps(n, s) == State(s.eta - n, s.f, h)
  {
    if n > 0 {
      Pow2Twice(n);
      hide Pow2;
      MulSwap(h, 2, Pow2(n - 1));
      EvenStep(s, h * Pow2(n - 1));
      HalvingSteps(n - 1, State(s.eta - 1, s.f, h * Pow2(n - 1)), h);
    }
  }

  lemma EvenStep(s: State, y: int)
    requires s.g == 2 * y
    ensures DivStep(s) == State(s.eta - 1, s.f, y)
  {
  }

  /** Adding the right multiple of f clears n bits of g at once: while eta stays
      non-negative this is n steps that never swap. */
  lemma {:induction false} EliminationSteps(n: nat, s: State, w: nat, h: int)
    requires Odd(s.f) && w < Pow2(n) && n <= s.eta + 1
    requires s.g + w * s.f == h * Pow2(n)
    ensures DivSteps(n, s) == State(s.eta - n, s.f, h)
  {
    if n == 0 {
      assert w == 0;
      assert w * s.f == 0;
    } else {
      var v, b := w / 2, w % 2;
      MulSwap(h, 2, Pow2(n - 1));
      LowBitCleared(s.g, s.f, w, h * Pow2(n - 1));
      EliminationSteps(n - 1, State(s.eta - 1, s.f, (s.g + b * s.f) / 2), v, h);
    }
  }

  lemma LowBitCleared(g: int, f: int, w: nat, p: int)
    requires Odd(f) && g + w * f == 2 * p
    ensures w % 2 == g % 2 && (g + w % 2 * f) / 2 + w / 2 * f == p
  {
    var v, b := w / 2, w % 2;
    assert w * f == 2 * (v * f) + b * f by {
      MulDist(2 * v, b, f);
      MulAssoc(2, v, f);
    }
    if b == 0 {
      assert b * f == 0;
    } else {
      assert b * f == f;
    }
  }

  /** A swap step equals a plain step from the swapped state. */
  lemma SwapThenSteps(n: nat, s: State)
    requires n > 0 && s.eta < 0 && Odd(s.g) && Odd(s.f)
    ensures DivSteps(n, s) == DivSteps(n, State(-s.eta, s.g, -s.f))
  {
    assert (-s.f) % 2 == 1;
    assert DivStep(s) == DivStep(State(-s.eta, s.g, -s.f));
  }

  // ---------- Termination ----------

  function Mu(s: State): nat {
    Max(Abs(s.f), Abs(s.g))
  }

  /** Orders the shapes that share one value of Mu. */
  function Shape(s: State): nat {
    if Abs(s.g) < Abs(s.f) then 0
    else if s.g == s.f then 1
    else if s.g == -s.f then 2
    else 3
  }

  function Budget(s: State): nat {
    Max(0, s.eta + 1)
  }

  /** Lexicographic order on (Mu, Shape, Budget, |g|). */
  predicate Below(t: State, s: State) {
    || Mu(t) < Mu(s)
    || (Mu(t) == Mu(s) && (
          || Shape(t) < Shape(s)
          || (Shape(t) == Shape(s) && (
                || Budget(t) < Budget(s)
                || (Budget(t) == Budget(s) && Abs(t.g) < Abs(s.g))))))
  }

  lemma BelowTransitive(r: State, t: State, s: State)
    requires Below(r, t) && Below(t, s)
    ensures Below(r, s)
  {
  }

  lemma SwapDescends(s: State)
    requires Odd(s.f) && Odd(s.g) && s.eta < 0
    ensures Below(DivStep(s), s) && Odd(DivStep(s).f)
  {
    var t := DivStep(s);
    assert 2 * t.g == s.g - s.f;
    assert Mu(t) < Mu(s) || (Mu(t) == Mu(s) && Shape(t) < Shape(s));
  }

  lemma AddDescends(s: State)
    requires Odd(s.f) && Odd(s.g) && s.eta >= 0
    ensures Below(DivStep(s), s) && Odd(DivStep(s).f)
  {
    var t := DivStep(s);
    assert 2 * t.g == s.g + s.f;
    assert Budget(t) < Budget(s);
    assert Mu(t) < Mu(s) || (Mu(t) == Mu(s) && Shape(t) <= Shape(s));
  }

  lemma HalveDescends(s: State)
    requires Odd(s.f) && !Odd(s.g) && s.g != 0
    ensures Below(DivStep(s), s) && Odd(DivStep(s).f)
  {
    var t := DivStep(s);
    assert 2 * t.g == s.g;
    assert Mu(t) < Mu(s) || (Mu(t) == Mu(s) && Shape(t) <= Shape(s));
  }

  /** Every step on an odd f and a non-zero g moves strictly down. */
  lemma StepDescends(s: State)
    requires Odd(s.f) && s.g != 0
    ensures Below(DivStep(s), s) && Odd(DivStep(s).f)
  {
    hide Below, DivStep;
    if !Odd(s.g) {
      HalveDescends(s);
    } else if s.eta < 0 {
      SwapDescends(s);
    } else {
      AddDescends(s);
    }
  }

  lemma {:induction false} ZeroStays(n: nat, s: State)
    requires s.g == 0
    ensures DivSteps(n, s) == State(s.eta - n, s.f, 0)
  {
    if n > 0 {
      ZeroStays(n - 1, DivStep(s));
    }
  }

  /** A batch of steps keeps f odd and either reaches g = 0 or moves strictly down, so an
      outer loop over batches ends from every odd f and every g. */
  lemma {:induction false} BatchDescends(n: nat, s: State)
    requires n > 0 && Odd(s.f) && s.g != 0
    ensures var t := DivSteps(n, s);
            Odd(t.f) && (t.g == 0 || Below(t, s))
  {
    var t := DivStep(s);
    StepDescends(s);
    if t.g == 0 {
      ZeroStays(n - 1, t);
    } else if n > 1 {
      BatchDescends(n - 1, t);
      var r := DivSteps(n - 1, t);
      if r.g != 0 {
        BelowTransitive(r, t, s);
      }
    }
  }

  /** How far a batch can move eta. */
  lemma {:induction false} EtaDrift(n: nat, s: State)
    ensures Abs(DivSteps(n, s).eta) <= Abs(s.eta) + n
  {
    if n > 0 {
      EtaDrift(n - 1, DivStep(s));
    }
  }

  /** Steps never grow the pair: both components stay within the larger of the inputs. */
  lemma {:induction false} BatchBounded(n: nat, s: State)
    requires Odd(s.f)
    ensures Mu(DivSteps(n, s)) <= Mu(s)
  {
    if n > 0 {
      var t := DivStep(s);
      assert Odd(t.f) && Mu(t) <= Mu(s);
      BatchBounded(n - 1, t);
    }
  }
}
