/** Bit reversal of `mcl/ntt.hpp`: the byte table, the table-driven reversal of any width and
    the in-place reordering of an array. */
module BitReverse {
  import opened Arith

  /** The low n bits of x in reverse order: bit 0 becomes bit n - 1. */
  function Rev(x: nat, n: nat): nat {
    if n == 0 then 0 else (x % 2) * Pow2(n - 1) + Rev(x / 2, n - 1)
  }

  lemma {:induction false} RevBound(x: nat, n: nat)
    ensures Rev(x, n) < Pow2(n)
  {
    if n > 0 {
      RevBound(x / 2, n - 1);
      assert x % 2 == 0 || x % 2 == 1;
    }
  }

  /** Reversing a + b bits: the low a bits go on top. */
  lemma {:induction false} RevAppend(x: nat, a: nat, b: nat)
    ensures Rev(x, a + b) == Rev(x, a) * Pow2(b) + Rev(Shr(x, a), b)
  {
    hide Rev, Pow2;
    if a == 0 {
      RevNone(x);
    } else {
      RevAppend(x / 2, a - 1, b);
      DivDiv(x, a);
      RevAppendStep(x, a, b, Rev(Shr(x, a), b));
    }
  }

  lemma RevNone(x: nat)
    ensures Rev(x, 0) == 0 && Shr(x, 0) == x
  {
  }

  lemma RevAppendStep(x: nat, a: nat, b: nat, top: nat)
    requires a > 0
    requires Rev(x / 2, a - 1 + b) == Rev(x / 2, a - 1) * Pow2(b) + top
    ensures Rev(x, a + b) == Rev(x, a) * Pow2(b) + top
  {
    RevUnfold(x, a + b);
    RevUnfold(x, a);
    hide Rev, Pow2;
    Pow2Add(a - 1, b);
    MulDist((x % 2) * Pow2(a - 1), Rev(x / 2, a - 1), Pow2(b));
    MulAssoc(x % 2, Pow2(a - 1), Pow2(b));
  }

  lemma RevUnfold(x: nat, n: nat)
    requires n > 0
    ensures Rev(x, n) == (x % 2) * Pow2(n - 1) + Rev(x / 2, n - 1)
  {
  }

  lemma DivDiv(x: nat, a: nat)
    requires a > 0
    ensures Shr(x / 2, a - 1) == Shr(x, a)
  {
    var p := Pow2(a - 1);
    assert Pow2(a) == 2 * p;
    hide Pow2;
    var q, r := (x / 2) / p, (x / 2) % p;
    assert x == 2 * (q * p + r) + x % 2;
    MulSwap(q, 2, p);
    QuotientIs(x, q, 2 * r + x % 2, 2 * p);
  }

  /** Only the low n bits matter. */
  lemma {:induction false} RevLow(x: nat, n: nat, k: nat)
    ensures Rev(x + k * Pow2(n), n) == Rev(x, n)
  {
    hide Rev, Pow2;
    if n > 0 {
      var y := k * Pow2(n - 1);
      RevLow(x / 2, n - 1, k);
      RevLowStep(x, n, y);
      Pow2Twice(n);
      MulSwap(k, 2, Pow2(n - 1));
    } else {
      RevNone(x);
      RevNone(x + k * Pow2(0));
    }
  }

  lemma RevLowStep(x: nat, n: nat, y: nat)
    requires n > 0 && Rev(x / 2 + y, n - 1) == Rev(x / 2, n - 1)
    ensures Rev(x + 2 * y, n) == Rev(x, n)
  {
    hide Rev, Pow2;
    HalfOfSum(x, y);
    RevUnfold(x, n);
    RevUnfold(x + 2 * y, n);
  }

  lemma HalfOfSum(x: nat, y: int)
    ensures (x + 2 * y) / 2 == x / 2 + y && (x + 2 * y) % 2 == x % 2
  {
  }

  /** The top bit of an n-bit number becomes the lowest one. */
  lemma RevTop(x: nat, n: nat)
    requires n > 0 && x < Pow2(n)
    ensures Rev(x, n) == 2 * Rev(x, n - 1) + Shr(x, n - 1)
    ensures Shr(x, n - 1) < 2
  {
    hide Rev, Pow2;
    RevAppend(x, n - 1, 1);
    TopBit(x, n);
    RevBit(Shr(x, n - 1));
  }

  lemma TopBit(x: nat, n: nat)
    requires n > 0 && x < Pow2(n)
    ensures 0 <= Shr(x, n - 1) < 2
  {
    var p := Pow2(n - 1);
    assert Pow2(n) == 2 * p;
    hide Pow2;
    QuotientIs(x, if x < p then 0 else 1, if x < p then x else x - p, p);
  }

  lemma RevBit(t: nat)
    ensures Rev(t, 1) == t % 2 && Pow2(1) == 2
  {
    RevUnfold(t, 1);
  }

  lemma {:induction false} RevInvolution(x: nat, n: nat)
    requires x < Pow2(n)
    ensures Rev(Rev(x, n), n) == x
  {
    if n == 0 {
      assert Pow2(0) == 1 && Rev(x, 0) == 0;
    } else {
      HalfBound(x, n);
      hide Rev, Pow2;
      RevInvolution(x / 2, n - 1);
      LowBitLast(x, n);
    }
  }

  lemma HalfBound(x: nat, n: nat)
    requires n > 0 && x < Pow2(n)
    ensures x / 2 < Pow2(n - 1)
  {
  }

  /** The reversal of a reversal, from that of the upper bits. */
  lemma LowBitLast(x: nat, n: nat)
    requires n > 0 && x < Pow2(n) && x / 2 < Pow2(n - 1) && Rev(Rev(x / 2, n - 1), n - 1) == x / 2
    ensures Rev(Rev(x, n), n) == x
  {
    hide Rev, Pow2;
    var y, z := Rev(x, n), Rev(x / 2, n - 1);
    RevBound(x, n);
    RevBound(x / 2, n - 1);
    RevUnfold(x, n);
    QuotientIs(y, x % 2, z, Pow2(n - 1));
    RevTop(y, n);
    RevLow(z, n - 1, x % 2);
  }

  /** Dropping the last bits to be reversed is a right shift. */
  lemma RevShort(x: nat, a: nat, b: nat)
    ensures Shr(Rev(x, a + b), b) == Rev(x, a)
  {
    hide Rev, Pow2;
    RevAppend(x, a, b);
    RevBound(Shr(x, a), b);
    QuotientIs(Rev(x, a + b), Rev(x, a), Rev(Shr(x, a), b), Pow2(b));
  }

  lemma RevByte(x: nat)
    ensures Rev(x % 256, 8) == Rev(x, 8)
  {
    assert Pow2(8) == 256 by {
      assert Pow2(4) == 16;
      Pow2Add(4, 4);
    }
    hide Rev, Pow2;
    RevLow(x % 256, 8, x / 256);
  }

  method GenericRev(x: nat, xBit: nat) returns (v: nat)
    ensures v == Rev(x, xBit)
  {
    hide Rev, Pow2, Shr;
    v := 0;
    var y := x;
    NoBits(x);
    for i := 0 to xBit
      invariant y == Shr(x, i) && v == Rev(x, i)
    {
      RevAppend(x, i, 1);
      RevBit(y);
      DivTwice(x, i);
      v := 2 * v;
      if y % 2 == 1 {
        v := v + 1;
      }
      y := y / 2;
    }
  }

  lemma NoBits(x: nat)
    ensures Shr(x, 0) == x && Rev(x, 0) == 0
  {
  }

  lemma DivTwice(x: nat, i: nat)
    ensures Shr(x, i) / 2 == Shr(x, i + 1)
  {
    var p := Pow2(i);
    assert Pow2(i + 1) == 2 * p;
    hide Pow2;
    var q, r := (x / p) / 2, (x / p) % 2;
    MulDist(2 * q, r, p);
    MulSwap(2, q, p);
    MulMono(r, 1, p);
    QuotientIs(x, q, r * p + x % p, 2 * p);
  }

  lemma DivByte(x: nat, c: nat)
    ensures Shr(x, c) / 256 == Shr(x, c + 8)
  {
    hide Pow2;
    DivTwice(x, c);
    DivTwice(x, c + 1);
    DivTwice(x, c + 2);
    DivTwice(x, c + 3);
    DivTwice(x, c + 4);
    DivTwice(x, c + 5);
    DivTwice(x, c + 6);
    DivTwice(x, c + 7);
  }

  /** What moving every element to its bit-reversed place gives. */
  function Permuted<T>(s: seq<T>, n: nat): (r: seq<T>)
    requires |s| == Pow2(n)
    ensures |r| == |s|
  {
    seq(|s|, i requires 0 <= i < |s| => RevBound(i, n); s[Rev(i, n)])
  }

  class Reverser {
    const tbl: seq<nat>

    ghost predicate Valid() {
      && |tbl| == 256
      && forall i :: 0 <= i < 256 ==> tbl[i] == Rev(i, 8)
    }

    constructor ()
      ensures Valid()
    {
      var t: seq<nat> := [];
      for i := 0 to 256
        invariant |t| == i && forall k :: 0 <= k < i ==> t[k] == Rev(k, 8)
      {
        var r := GenericRev(i, 8);
        t := t + [r];
      }
      tbl := t;
    }

    /** The byte-at-a-time reversal agrees with the bit-at-a-time one for every width that
        fits the 64-bit result. */
    method Reverse(x: nat, xBit: nat) returns (r: nat)
      requires Valid() && xBit <= 64
      ensures r == Rev(x, xBit)
    {
      hide Rev, Pow2;
      RevByte(x);
      if xBit <= 8 {
        RevShort(x, xBit, 8 - xBit);
        return Shr(tbl[x % 256], 8 - xBit);
      }
      var v := tbl[x % 256];
      var y, left := x, xBit;
      ghost var c := 0;
      assert Shr(x, 0) == x by {
        OneIsPow();
      }
      while true
        invariant 8 < left <= 64 && left + c == xBit && c >= 0
        invariant y == Shr(x, c) && v == Rev(x, c + 8)
        decreases left
      {
        DivByte(x, c);
        v := 256 * v;
        y := y / 256;
        RevByte(y);
        RevAppend(x, c + 8, 8);
        assert Pow2(8) == 256 by {
          PowerLiterals();
        }
        v := v + tbl[y % 256];
        left := left - 8;
        c := c + 8;
        if left <= 8 {
          RevShort(x, xBit, 8 - left);
          assert c + 8 == xBit + (8 - left);
          return Shr(v, 8 - left);
        }
      }
    }

    /** Swapping each pair once, in place, is the bit-reversal permutation. */
    method RevArray<T>(a: array<T>, bitN: nat)
      requires Valid() && bitN <= 64 && a.Length == Pow2(bitN)
      modifies a
      ensures a[..] == Permuted(old(a[..]), bitN)
    {
      hide Rev, Pow2;
      ghost var s := a[..];
      var n := a.Length;
      SwappedStart(s, bitN);
      for i := 0 to n
        invariant Swapped(a[..], s, bitN, i)
      {
        var j := Reverse(i, bitN);
        RevBound(i, bitN);
        ghost var b := a[..];
        if i < j {
          var tmp := a[i];
          a[i] := a[j];
          a[j] := tmp;
        }
        SwappedStep(b, a[..], s, bitN, i, j);
      }
      SwappedDone(a[..], s, bitN);
    }
  }

  lemma OneIsPow()
    ensures Pow2(0) == 1
  {
  }

  /** Positions whose pair has a member below i are final, the others untouched. */
  ghost predicate Swapped<T>(b: seq<T>, s: seq<T>, n: nat, i: nat) {
    && |b| == |s| == Pow2(n)
    && forall k {:trigger b[k]} :: 0 <= k < |b| ==>
         Rev(k, n) < |s| && b[k] == if k < i || Rev(k, n) < i then s[Rev(k, n)] else s[k]
  }

  lemma SwappedStart<T>(s: seq<T>, n: nat)
    requires |s| == Pow2(n)
    ensures Swapped(s, s, n, 0)
  {
    hide Rev, Pow2;
    forall k | 0 <= k < |s|
      ensures Rev(k, n) < |s|
    {
      RevBound(k, n);
    }
  }

  lemma SwappedStep<T>(b: seq<T>, b2: seq<T>, s: seq<T>, n: nat, i: nat, j: nat)
    requires Swapped(b, s, n, i) && i < |b| && j == Rev(i, n) && j < |b|
    requires b2 == if i < j then b[i := b[j]][j := b[i]] else b
    ensures Swapped(b2, s, n, i + 1)
  {
    hide Rev, Pow2;
    RevInvolution(i, n);
    forall k | 0 <= k < |b2|
      ensures Rev(k, n) < |s|
    {
      RevBound(k, n);
    }
    forall k | 0 <= k < |b2|
      ensures b2[k] == if k < i + 1 || Rev(k, n) < i + 1 then s[Rev(k, n)] else s[k]
    {
      assert b[k] == b[k];
      RevInvolution(k, n);
      if i < j {
        assert b[i] == s[i] && b[j] == s[j];
      }
    }
  }

  lemma SwappedDone<T>(b: seq<T>, s: seq<T>, n: nat)
    requires Swapped(b, s, n, |s|)
    ensures b == Permuted(s, n)
  {
    hide Rev, Pow2;
  }
}
