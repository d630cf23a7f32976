/** Abelian groups, integer multiples of their elements, and polynomials with coefficients in them. */
module Groups {
  import opened Arith

  datatype Group<!P> = Group(zero: P, add: (P, P) -> P, neg: P -> P)

  // The laws fire only where a proof names the elements they are about.
  predicate One<P>(a: P) { true }
  predicate Two<P>(a: P, b: P) { true }
  predicate Three<P>(a: P, b: P, c: P) { true }

  ghost predicate Abelian<P(!new)>(g: Group<P>) {
    && (forall a: P {:trigger One(a)} :: One(a) ==> g.add(g.zero, a) == a && g.add(a, g.neg(a)) == g.zero)
    && (forall a: P, b: P {:trigger Two(a, b)} :: Two(a, b) ==> g.add(a, b) == g.add(b, a))
    && (forall a: P, b: P, c: P {:trigger Three(a, b, c)} ::
          Three(a, b, c) ==> g.add(g.add(a, b), c) == g.add(a, g.add(b, c)))
  }

  lemma Unit<P(!new)>(g: Group<P>, a: P)
    requires Abelian(g)
    ensures g.add(g.zero, a) == a && g.add(a, g.zero) == a
    ensures g.add(a, g.neg(a)) == g.zero && g.add(g.neg(a), a) == g.zero
  {
    assert One(a) && Two(a, g.zero) && Two(a, g.neg(a));
  }

  lemma Comm<P(!new)>(g: Group<P>, a: P, b: P)
    requires Abelian(g)
    ensures g.add(a, b) == g.add(b, a)
  {
    assert Two(a, b);
  }

  lemma Assoc<P(!new)>(g: Group<P>, a: P, b: P, c: P)
    requires Abelian(g)
    ensures g.add(g.add(a, b), c) == g.add(a, g.add(b, c))
  {
    assert Three(a, b, c);
  }

  lemma Exchange<P(!new)>(g: Group<P>, a: P, b: P, c: P, d: P)
    requires Abelian(g)
    ensures g.add(g.add(a, b), g.add(c, d)) == g.add(g.add(a, c), g.add(b, d))
  {
    hide Abelian;
    Assoc(g, a, b, g.add(c, d));
    Assoc(g, b, c, d);
    Comm(g, b, c);
    Assoc(g, c, b, d);
    Assoc(g, a, c, g.add(b, d));
  }

  lemma UniqueNeg<P(!new)>(g: Group<P>, a: P, b: P)
    requires Abelian(g) && g.add(a, b) == g.zero
    ensures b == g.neg(a)
  {
    hide Abelian;
    Unit(g, a);
    Unit(g, b);
    Assoc(g, g.neg(a), a, b);
    Unit(g, g.neg(a));
  }

  lemma NegZero<P(!new)>(g: Group<P>)
    requires Abelian(g)
    ensures g.neg(g.zero) == g.zero
  {
    hide Abelian;
    Unit(g, g.zero);
    UniqueNeg(g, g.zero, g.zero);
  }

  // ---------- Multiples ----------

  /** x added to itself n times. */
  function Times<P>(g: Group<P>, n: nat, x: P): P {
    if n == 0 then g.zero else g.add(Times(g, n - 1, x), x)
  }

  /** The integer multiple of x. */
  function Mult<P>(g: Group<P>, n: int, x: P): P {
    if n >= 0 then Times(g, n, x) else g.neg(Times(g, 0 - n, x))
  }

  lemma NextMultiple<P(!new)>(g: Group<P>, n: int, x: P)
    requires Abelian(g)
    ensures Mult(g, n + 1, x) == g.add(Mult(g, n, x), x)
  {
    hide Abelian;
    if n < 0 {
      var k := 0 - n;
      var t := Times(g, k - 1, x);
      assert Times(g, k, x) == g.add(t, x);
      hide Times;
      // -(t + x) + x = -t
      var m := g.neg(g.add(t, x));
      Unit(g, g.add(t, x));
      Assoc(g, t, x, m);
      Comm(g, x, m);
      UniqueNeg(g, t, g.add(m, x));
      if k == 1 {
        TimesZero(g, x);
        Unit(g, g.zero);
        UniqueNeg(g, g.zero, g.zero);
      }
    }
  }

  lemma TimesZero<P>(g: Group<P>, x: P)
    ensures Times(g, 0, x) == g.zero && Mult(g, 0, x) == g.zero
  {
  }

  lemma {:induction false} MultAdd<P(!new)>(g: Group<P>, a: int, b: int, x: P)
    requires Abelian(g)
    ensures Mult(g, a + b, x) == g.add(Mult(g, a, x), Mult(g, b, x))
    decreases Abs(b)
  {
    hide Abelian, Mult;
    if b == 0 {
      TimesZero(g, x);
      Unit(g, Mult(g, a, x));
    } else if b > 0 {
      MultAdd(g, a, b - 1, x);
      NextMultiple(g, a + b - 1, x);
      NextMultiple(g, b - 1, x);
      Assoc(g, Mult(g, a, x), Mult(g, b - 1, x), x);
    } else {
      MultAdd(g, a, b + 1, x);
      NextMultiple(g, a + b, x);
      NextMultiple(g, b, x);
      Assoc(g, Mult(g, a, x), Mult(g, b, x), x);
      CancelRight(g, Mult(g, a + b, x), g.add(Mult(g, a, x), Mult(g, b, x)), x);
    }
  }

  lemma CancelRight<P(!new)>(g: Group<P>, a: P, b: P, x: P)
    requires Abelian(g) && g.add(a, x) == g.add(b, x)
    ensures a == b
  {
    hide Abelian;
    Assoc(g, a, x, g.neg(x));
    Assoc(g, b, x, g.neg(x));
    Unit(g, x);
    Unit(g, a);
    Unit(g, b);
  }

  lemma MultNeg<P(!new)>(g: Group<P>, a: int, x: P)
    requires Abelian(g)
    ensures Mult(g, 0 - a, x) == g.neg(Mult(g, a, x))
  {
    hide Abelian, Mult;
    MultAdd(g, a, 0 - a, x);
    TimesZero(g, x);
    UniqueNeg(g, Mult(g, a, x), Mult(g, 0 - a, x));
  }

  lemma MultOne<P(!new)>(g: Group<P>, x: P)
    requires Abelian(g)
    ensures Mult(g, 1, x) == x
  {
    hide Abelian, Mult;
    NextMultiple(g, 0, x);
    TimesZero(g, x);
    Unit(g, x);
  }

  lemma {:induction false} MultOfZero<P(!new)>(g: Group<P>, k: nat)
    requires Abelian(g)
    ensures Mult(g, k, g.zero) == g.zero
  {
    hide Abelian, Mult;
    TimesZero(g, g.zero);
    if k > 0 {
      MultOfZero(g, k - 1);
      NextMultiple(g, k - 1, g.zero);
      Unit(g, g.zero);
    }
  }

  /** Multiples of multiples. */
  lemma {:induction false} MultMul<P(!new)>(g: Group<P>, a: int, b: int, q: P)
    requires Abelian(g)
    ensures Mult(g, a * b, q) == Mult(g, a, Mult(g, b, q))
    decreases Abs(a), a < 0
  {
    hide Abelian, Mult;
    if a == 0 {
      TimesZero(g, q);
      TimesZero(g, Mult(g, b, q));
    } else if a > 0 {
      MultMul(g, a - 1, b, q);
      MulDist(a - 1, 1, b);
      MultAdd(g, (a - 1) * b, b, q);
      NextMultiple(g, a - 1, Mult(g, b, q));
    } else {
      MultMul(g, 0 - a, b, q);
      MulNeg(a, b);
      MultNeg(g, a * b, q);
      MultNeg(g, a, Mult(g, b, q));
      UniqueOpposite(g, Mult(g, a * b, q), Mult(g, a, Mult(g, b, q)));
    }
  }

  lemma UniqueOpposite<P(!new)>(g: Group<P>, a: P, b: P)
    requires Abelian(g) && g.neg(a) == g.neg(b)
    ensures a == b
  {
    hide Abelian;
    Unit(g, a);
    Unit(g, b);
    CancelRight(g, a, b, g.neg(a));
  }

  /** Multiples of a sum. */
  lemma {:induction false} MultSum<P(!new)>(g: Group<P>, k: int, a: P, b: P)
    requires Abelian(g)
    ensures Mult(g, k, g.add(a, b)) == g.add(Mult(g, k, a), Mult(g, k, b))
    decreases Abs(k)
  {
    hide Abelian, Mult;
    var s := g.add(a, b);
    if k == 0 {
      TimesZero(g, s);
      TimesZero(g, a);
      TimesZero(g, b);
      Unit(g, g.zero);
    } else if k > 0 {
      MultSum(g, k - 1, a, b);
      NextMultiple(g, k - 1, s);
      NextMultiple(g, k - 1, a);
      NextMultiple(g, k - 1, b);
      Exchange(g, Mult(g, k - 1, a), Mult(g, k - 1, b), a, b);
    } else {
      MultSum(g, k + 1, a, b);
      NextMultiple(g, k, s);
      NextMultiple(g, k, a);
      NextMultiple(g, k, b);
      Exchange(g, Mult(g, k, a), Mult(g, k, b), a, b);
      CancelRight(g, Mult(g, k, s), g.add(Mult(g, k, a), Mult(g, k, b)), s);
    }
  }

  /** Scalars only matter modulo an order of the element. */
  lemma MultCong<P(!new)>(g: Group<P>, n: nat, q: P, a: int, b: int)
    requires Abelian(g) && Mult(g, n, q) == g.zero && Cong(a, b, n)
    ensures Mult(g, a, q) == Mult(g, b, q)
  {
    hide Abelian, Mult, Cong;
    var k := CongElim(a, b, n);
    MultMul(g, k, n, q);
    MultOfZero(g, Abs(k));
    if k < 0 {
      MultNeg(g, 0 - k, g.zero);
      NegZero(g);
    }
    MultAdd(g, b, k * n, q);
    Unit(g, Mult(g, b, q));
  }

  /** Every element has order p, so that scalars can be taken from the integers modulo p. */
  ghost predicate Exponent<P(!new)>(g: Group<P>, p: nat) {
    forall a: P {:trigger One(a)} :: One(a) ==> Mult(g, p, a) == g.zero
  }

  lemma ScalarCong<P(!new)>(g: Group<P>, p: nat, q: P, a: int, b: int)
    requires Abelian(g) && Exponent(g, p) && Cong(a, b, p)
    ensures Mult(g, a, q) == Mult(g, b, q)
  {
    hide Abelian, Mult, Cong;
    assert One(q);
    MultCong(g, p, q, a, b);
  }

  // ---------- Polynomials ----------

  /** c[0] + x c[1] + x^2 c[2] + ... */
  function ValueAt<P>(g: Group<P>, c: seq<P>, x: int): P {
    if c == [] then g.zero else g.add(c[0], Mult(g, x, ValueAt(g, c[1..], x)))
  }

  /** A multiple of a value, with the constant coefficient split off. */
  lemma PeelTerm<P(!new)>(g: Group<P>, w: int, c: seq<P>, x: int)
    requires Abelian(g) && c != []
    ensures Mult(g, w, ValueAt(g, c, x)) == g.add(Mult(g, w, c[0]), Mult(g, w * x, ValueAt(g, c[1..], x)))
  {
    hide Abelian, Mult;
    var v := ValueAt(g, c[1..], x);
    MultSum(g, w, c[0], Mult(g, x, v));
    MultMul(g, w, x, v);
  }

  /** The plain sum of the multiples of the coefficients by the powers. */
  function PowerSum<P>(g: Group<P>, c: seq<P>, x: int): P {
    if c == [] then g.zero else g.add(PowerSum(g, c[..|c| - 1], x), Mult(g, Pow(x, |c| - 1), c[|c| - 1]))
  }

  lemma {:induction false} ValueSnoc<P(!new)>(g: Group<P>, c: seq<P>, x: int)
    requires Abelian(g) && c != []
    ensures ValueAt(g, c, x) == g.add(ValueAt(g, c[..|c| - 1], x), Mult(g, Pow(x, |c| - 1), c[|c| - 1]))
  {
    hide Abelian, Mult;
    var n := |c| - 1;
    if n == 0 {
      assert c[1..] == [] && c[..0] == [];
      LoneCoefficient(g, x, c[0]);
    } else {
      ValueSnoc(g, c[1..], x);
      assert c[1..][..n - 1] == c[..n][1..];
      var v, m := ValueAt(g, c[..n][1..], x), Mult(g, Pow(x, n - 1), c[n]);
      MultSum(g, x, v, m);
      MultMul(g, x, Pow(x, n - 1), c[n]);
      Assoc(g, c[0], Mult(g, x, v), Mult(g, x, m));
    }
  }

  lemma MultiplesOfZero<P(!new)>(g: Group<P>, k: int)
    requires Abelian(g)
    ensures Mult(g, k, g.zero) == g.zero
  {
    hide Abelian, Mult;
    MultMul(g, k, 0, g.zero);
    TimesZero(g, g.zero);
    assert k * 0 == 0;
  }

  lemma LoneCoefficient<P(!new)>(g: Group<P>, x: int, a: P)
    requires Abelian(g)
    ensures Pow(x, 0) == 1 && g.add(a, Mult(g, x, g.zero)) == g.add(g.zero, Mult(g, 1, a))
  {
    hide Abelian, Mult;
    MultMul(g, x, 0, g.zero);
    TimesZero(g, g.zero);
    assert x * 0 == 0;
    MultOne(g, a);
    Unit(g, a);
  }

  /** Horner evaluation is the plain sum. */
  lemma {:induction false} ValueIsPowerSum<P(!new)>(g: Group<P>, c: seq<P>, x: int)
    requires Abelian(g)
    ensures ValueAt(g, c, x) == PowerSum(g, c, x)
  {
    if c != [] {
      hide Abelian, Mult;
      ValueIsPowerSum(g, c[..|c| - 1], x);
      ValueSnoc(g, c, x);
    }
  }

  lemma {:induction false} ValueCong<P(!new)>(g: Group<P>, c: seq<P>, x: int, y: int, p: nat)
    requires Abelian(g) && Exponent(g, p) && Cong(x, y, p)
    ensures ValueAt(g, c, x) == ValueAt(g, c, y)
  {
    if c != [] {
      hide Abelian, Exponent, Cong, Mult;
      ValueCong(g, c[1..], x, y, p);
      ScalarCong(g, p, ValueAt(g, c[1..], x), x, y);
    }
  }

  // ---------- The integers modulo a number ----------

  newtype Positive = x: int | x > 0 witness 1

  const MODULUS: Positive

  /** Reduced residues modulo an arbitrary number. */
  type Residue = x: int | 0 <= x < MODULUS as int witness 0

  function Reduce(x: int): Residue {
    x % MODULUS as int
  }

  function Residues(): Group<Residue> {
    Group(0, (a, b) => Reduce(a as int + b as int), a => Reduce(0 - a as int))
  }

  lemma ReduceIs(x: int, r: Residue)
    requires Cong(x, r, MODULUS as int)
    ensures Reduce(x) == r
  {
    hide Cong;
    CongMod(x, MODULUS as int);
    CongTrans(Reduce(x), x, r, MODULUS as int);
    CongUnique(Reduce(x), r, MODULUS as int);
  }

  lemma ResidueUnit(a: Residue)
    ensures Reduce(0 + a) == a && Reduce(a + Reduce(0 - a)) == 0
  {
    hide Reduce, Cong;
    var m := MODULUS as int;
    CongRefl(a, m);
    ReduceIs(0 + a, a);
    ReducedCong(0 - a);
    CongAdd(a, a, Reduce(0 - a), 0 - a, m);
    ReduceIs(a + Reduce(0 - a), 0);
  }

  lemma ResidueAssoc(a: Residue, b: Residue, c: Residue)
    ensures Reduce(Reduce(a + b) + c) == Reduce(a + Reduce(b + c))
  {
    hide Reduce, Cong;
    var m := MODULUS as int;
    ReducedCong(a + b);
    ReducedCong(b + c);
    CongRefl(a, m);
    CongRefl(c, m);
    CongAdd(Reduce(a + b), a + b, c, c, m);
    CongAdd(a, a, Reduce(b + c), b + c, m);
    var r := Reduce(a + Reduce(b + c));
    ReducedCong(a + Reduce(b + c));
    CongTrans(r, a + Reduce(b + c), a + b + c, m);
    CongSym(r, a + b + c, m);
    CongTrans(Reduce(a + b) + c, a + b + c, r, m);
    ReduceIs(Reduce(a + b) + c, r);
  }

  lemma ResidueOps(a: Residue, b: Residue)
    ensures Residues().add(a, b) == Reduce(a + b) && Residues().neg(a) == Reduce(0 - a) && Residues().zero == 0
  {
    hide Reduce;
  }

  lemma ResidueUnits()
    ensures forall a: Residue {:trigger One(a)} :: One(a) ==>
              Residues().add(Residues().zero, a) == a && Residues().add(a, Residues().neg(a)) == Residues().zero
  {
    hide Reduce, Residues;
    forall a: Residue | One(a)
      ensures Residues().add(Residues().zero, a) == a && Residues().add(a, Residues().neg(a)) == Residues().zero
    {
      ResidueOps(a, a);
      ResidueOps(0, a);
      ResidueOps(a, Reduce(0 - a));
      ResidueUnit(a);
    }
  }

  lemma ResiduesCommute()
    ensures forall a: Residue, b: Residue {:trigger Two(a, b)} :: Two(a, b) ==>
              Residues().add(a, b) == Residues().add(b, a)
  {
    hide Reduce, Residues;
    forall a: Residue, b: Residue | Two(a, b)
      ensures Residues().add(a, b) == Residues().add(b, a)
    {
      ResidueOps(a, b);
      ResidueOps(b, a);
    }
  }

  lemma ResiduesAssociate()
    ensures forall a: Residue, b: Residue, c: Residue {:trigger Three(a, b, c)} :: Three(a, b, c) ==>
              Residues().add(Residues().add(a, b), c) == Residues().add(a, Residues().add(b, c))
  {
    hide Reduce, Residues;
    forall a: Residue, b: Residue, c: Residue | Three(a, b, c)
      ensures Residues().add(Residues().add(a, b), c) == Residues().add(a, Residues().add(b, c))
    {
      ResidueOps(a, b);
      ResidueOps(b, c);
      ResidueOps(Reduce(a + b), c);
      ResidueOps(a, Reduce(b + c));
      ResidueAssoc(a, b, c);
    }
  }

  lemma ResiduesAbelian()
    ensures Abelian(Residues())
  {
    hide Residues;
    ResidueUnits();
    ResiduesCommute();
    ResiduesAssociate();
  }

  lemma ReducedCong(x: int)
    ensures Cong(Reduce(x), x, MODULUS as int)
  {
    CongMod(x, MODULUS as int);
  }

  /** Multiples of residues are products. */
  lemma {:induction false} ResidueTimes(n: nat, a: Residue)
    ensures Times(Residues(), n, a) == Reduce(n * a)
  {
    hide Reduce, Cong;
    if n == 0 {
      CongRefl(0, MODULUS as int);
      ReduceIs(0 * a, 0);
    } else {
      ResidueTimes(n - 1, a);
      MulDist(n - 1, 1, a);
      NextResidue((n - 1) * a, a);
    }
  }

  lemma NextResidue(x: int, a: Residue)
    ensures Reduce(Reduce(x) + a) == Reduce(x + a)
  {
    hide Reduce, Cong;
    var m := MODULUS as int;
    ReducedCong(x);
    CongRefl(a, m);
    CongAdd(Reduce(x), x, a, a, m);
    ReducedCong(x + a);
    CongSym(Reduce(x + a), x + a, m);
    CongTrans(Reduce(x) + a, x + a, Reduce(x + a), m);
    ReduceIs(Reduce(x) + a, Reduce(x + a));
  }

  /** The residues are such a group, so what holds over every group holds in the field itself. */
  lemma ResiduesExponent()
    ensures Exponent(Residues(), MODULUS as int)
  {
    hide Reduce, Cong;
    forall a: Residue | One(a)
      ensures Mult(Residues(), MODULUS as int, a) == 0
    {
      ResidueTimes(MODULUS as int, a);
      CongZeroMultiple(a, MODULUS as int);
      assert MODULUS as int * a == a * MODULUS as int;
      ReduceIs(MODULUS as int * a, 0);
    }
  }
}
