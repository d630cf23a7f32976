/** The DER form of ECDSA signatures in `mcl/ecdsa.hpp`: minimal big-endian integers, writer and
    reader. */
module Der {
  import opened Arith
  import opened ByteStrings
  import opened Wrappers

  // ---------- Minimal integers ----------

  /** Big-endian value. */
  function BE(b: Bytes): nat {
    if b == [] then 0 else BE(b[..|b| - 1]) * 256 + b[|b| - 1]
  }

  /** No needless leading zero byte. */
  predicate Minimal(b: Bytes) {
    b != [] && (b[0] != 0 || |b| == 1)
  }

  function BytesOf(x: nat): (b: Bytes)
    ensures b != []
  {
    if x < 256 then [x] else BytesOf(x / 256) + [x % 256]
  }

  lemma {:induction false} BytesOfMinimal(x: nat)
    ensures Minimal(BytesOf(x)) && BE(BytesOf(x)) == x
    ensures x > 0 ==> BytesOf(x)[0] != 0
  {
    if x < 256 {
      assert BytesOf(x)[..0] == [];
    } else {
      BytesOfMinimal(x / 256);
      assert BytesOf(x)[..|BytesOf(x)| - 1] == BytesOf(x / 256);
    }
  }

  lemma {:induction false} MinimalPositive(b: Bytes)
    requires b != [] && b[0] != 0
    ensures BE(b) > 0
  {
    if |b| > 1 {
      MinimalPositive(b[..|b| - 1]);
    }
  }

  /** Minimal byte strings of one number are the same. */
  lemma {:induction false} MinimalUnique(b: Bytes)
    requires Minimal(b)
    ensures BytesOf(BE(b)) == b
    decreases |b|
  {
    var n := |b| - 1;
    if n == 0 {
      assert b[..0] == [] && BE(b) == b[0];
    } else {
      MinimalUnique(b[..n]);
      MinimalPositive(b[..n]);
      assert BE(b) / 256 == BE(b[..n]) && BE(b) % 256 == b[n];
      assert b[..n] + [b[n]] == b;
    }
  }

  function Pow256(n: nat): (r: nat)
    ensures r >= 1
  {
    if n == 0 then 1 else 256 * Pow256(n - 1)
  }

  lemma {:induction false} BytesOfSize(x: nat, n: nat)
    requires x < Pow256(n) && n > 0
    ensures |BytesOf(x)| <= n
  {
    if x >= 256 {
      assert Pow256(1) == 256;
      BytesOfSize(x / 256, n - 1);
    }
  }

  // ---------- The format (X.690 section 8.3 for the integers) ----------

  const INT_TAG: Byte := 2
  const SEQ_TAG: Byte := 0x30
  const NUMBER_BYTES: nat := 32

  /** The contents: a leading zero byte keeps the number from looking negative. */
  function Contents(x: nat): (c: Bytes)
    ensures c != [] && |BytesOf(x)| <= |c| <= |BytesOf(x)| + 1
  {
    if BytesOf(x)[0] >= 0x80 then [0] + BytesOf(x) else BytesOf(x)
  }

  predicate Number(x: nat) {
    x < Pow256(NUMBER_BYTES)
  }

  lemma IsNumber(x: nat)
    ensures Number(x) <==> x < Pow256(32)
  {
  }

  lemma ContentsFit(x: nat)
    requires Number(x)
    ensures |BytesOf(x)| <= 32 && |Contents(x)| <= 33
  {
    BytesOfSize(x, NUMBER_BYTES);
  }

  function DerInt(x: nat): (d: Bytes)
    requires Number(x)
    ensures |d| == 2 + |Contents(x)| <= 35
  {
    ContentsFit(x);
    [INT_TAG, |Contents(x)|] + Contents(x)
  }

  function DerSignature(r: nat, s: nat): (d: Bytes)
    requires Number(r) && Number(s)
    ensures |d| == 2 + |DerInt(r)| + |DerInt(s)|
  {
    [SEQ_TAG, |DerInt(r)| + |DerInt(s)|] + DerInt(r) + DerInt(s)
  }

  /** The first byte weighs most. */
  lemma {:induction false} BigEndian(b: Bytes)
    requires b != []
    ensures BE(b) == b[0] * Pow256(|b| - 1) + BE(b[1..])
  {
    var n := |b| - 1;
    if n > 0 {
      BigEndian(b[..n]);
      assert b[..n][1..] == b[1..][..n - 1];
      MulAssoc(b[0], Pow256(n - 1), 256);
    }
  }

  /** Section 8.3 of X.690: the shortest big-endian contents of x that do not look negative. */
  lemma ContentsForm(x: nat)
    ensures var c := Contents(x);
            BE(c) == x && c[0] < 0x80 && (|c| > 1 && c[0] == 0 ==> c[1] >= 0x80)
  {
    hide BytesOf, BE;
    BytesOfMinimal(x);
    if BytesOf(x)[0] >= 0x80 {
      BigEndian(Contents(x));
      assert Contents(x)[1..] == BytesOf(x);
    }
  }

  /** The frame byte by byte: tag 0x30, the length of the rest, and twice tag 2, a length and the contents. */
  lemma SignatureBytes(r: nat, s: nat)
    requires Number(r) && Number(s)
    ensures var d, c, e := DerSignature(r, s), Contents(r), Contents(s);
            var m := 4 + |c|;
            && |d| == m + 2 + |e| <= 72 && d[0] == 0x30 && d[1] == |d| - 2
            && d[2] == 2 && d[3] == |c| && d[4..m] == c
            && d[m] == 2 && d[m + 1] == |e| && d[m + 2..] == e
  {
    hide Contents, Number;
    ContentsFit(r);
    ContentsFit(s);
    var d := DerSignature(r, s);
    var m := 4 + |Contents(r)|;
    assert d == [0x30, |d| - 2, 2, |Contents(r)|] + Contents(r) + [2, |Contents(s)|] + Contents(s);
  }

  // ---------- Unique reading ----------

  lemma ContentsUnique(x: nat, y: nat)
    requires Contents(x) == Contents(y)
    ensures x == y
  {
    hide BytesOf, BE;
    BytesOfMinimal(x);
    BytesOfMinimal(y);
    var a, b := BytesOf(x), BytesOf(y);
    if a[0] >= 0x80 {
      assert Contents(x)[1..] == a;
      if b[0] >= 0x80 {
        assert Contents(y)[1..] == b;
      }
    }
  }

  /** A byte string starts with at most one integer. */
  lemma DerIntUnique(x: nat, t: Bytes, y: nat, u: Bytes)
    requires Number(x) && Number(y) && DerInt(x) + t == DerInt(y) + u
    ensures x == y && t == u
  {
    hide Contents, Number;
    var a := DerInt(x) + t;
    assert a[1] == |Contents(x)| && a[1] == |Contents(y)|;
    CancelLast(DerInt(x), t, DerInt(y), u);
    assert DerInt(x)[2..] == Contents(x) && DerInt(y)[2..] == Contents(y);
    ContentsUnique(x, y);
  }

  lemma DerSignatureUnique(r: nat, s: nat, t: Bytes, r': nat, s': nat, t': Bytes)
    requires Number(r) && Number(s) && Number(r') && Number(s')
    requires DerSignature(r, s) + t == DerSignature(r', s') + t'
    ensures r == r' && s == s' && t == t'
  {
    hide DerInt, Number;
    var x := DerSignature(r, s) + t;
    assert x[2..] == DerInt(r) + (DerInt(s) + t);
    assert x[2..] == DerInt(r') + (DerInt(s') + t');
    DerIntUnique(r, DerInt(s) + t, r', DerInt(s') + t');
    DerIntUnique(s, t, s', t');
  }

  // ---------- Reading ----------

  /** The checks on the contents of an integer. */
  predicate WellFormed(c: Bytes) {
    && 1 <= |c| <= 33
    && c[0] < 0x80
    && !(c[0] == 0 && |c| > 1 && c[1] < 0x80)
  }

  function Stripped(c: Bytes): Bytes
    requires c != []
  {
    if |c| > 1 && c[0] == 0 then c[1..] else c
  }

  /** Contents pass the checks exactly when they are the contents of the number read. */
  lemma ContentsRead(c: Bytes)
    requires WellFormed(c)
    ensures Contents(BE(Stripped(c))) == c
  {
    hide BytesOf, BE;
    MinimalUnique(Stripped(c));
    if |c| > 1 && c[0] == 0 {
      assert [0] + c[1..] == c;
    }
  }

  lemma ContentsChecked(x: nat)
    requires Number(x)
    ensures WellFormed(Contents(x)) && BE(Stripped(Contents(x))) == x
  {
    hide BytesOf, BE, Number;
    ContentsFit(x);
    BytesOfMinimal(x);
    if BytesOf(x)[0] >= 0x80 {
      assert Contents(x)[1..] == BytesOf(x);
    }
  }

  /** x is the answer to: which number below n stands, as an integer, at the start of t? */
  ghost predicate IsIntAt(t: Bytes, n: nat, x: Option<nat>)
    requires n <= Pow256(NUMBER_BYTES)
  {
    match x
    case Some(v) => v < n && DerInt(v) <= t
    case None => forall v: nat :: v < n ==> !(DerInt(v) <= t)
  }

  /** What the reader finds where an integer stands. */
  lemma IntFound(t: Bytes, v: nat)
    requires Number(v) && DerInt(v) <= t
    ensures |t| >= 2 && t[0] == INT_TAG && t[1] == |Contents(v)| <= 33 && |t| >= 2 + t[1]
    ensures t[2..2 + t[1]] == Contents(v) && WellFormed(Contents(v)) && BE(Stripped(Contents(v))) == v
  {
    hide BytesOf, BE, Contents, WellFormed, Stripped, Number;
    var d := DerInt(v);
    ContentsChecked(v);
    ContentsFit(v);
    assert t[..|d|] == d && t[0] == d[0] && t[1] == d[1];
    assert t[2..2 + t[1]] == d[2..];
  }

  lemma NoInt(t: Bytes, n: nat)
    requires n <= Pow256(NUMBER_BYTES)
    requires |t| < 2 || t[0] != INT_TAG || t[1] > 33 || |t| < 2 + t[1] || !WellFormed(t[2..2 + t[1]])
             || BE(Stripped(t[2..2 + t[1]])) >= n
    ensures IsIntAt(t, n, None)
  {
    hide BytesOf, BE, Contents, WellFormed, Stripped, DerInt;
    forall v: nat | v < n && DerInt(v) <= t
      ensures false
    {
      IntFound(t, v);
    }
  }

  /** Reads one integer below n; the size read is that of its encoding. */
  method LoadBigEndian(t: Bytes, n: nat) returns (x: Option<nat>, size: nat)
    requires n <= Pow256(NUMBER_BYTES)
    ensures IsIntAt(t, n, x)
    ensures x.Some? ==> size == |DerInt(x.value)|
  {
    hide BytesOf, BE, IsIntAt, Contents, Pow256;
    size := 0;
    if |t| < 1 || t[0] != INT_TAG || |t| < 2 {
      NoInt(t, n);
      return None, 0;
    }
    var k := t[1];
    if k == 0 || k > 33 || |t| < 2 + k {
      NoInt(t, n);
      return None, 0;
    }
    var c := t[2..2 + k];
    if c[0] >= 0x80 || (c[0] == 0 && k > 1 && c[1] < 0x80) {
      NoInt(t, n);
      return None, 0;
    }
    var v := BE(Stripped(c));
    if v >= n {
      NoInt(t, n);
      return None, 0;
    }
    ContentsRead(c);
    FoundInt(t, n, v, c);
    x, size := Some(v), k + 2;
  }

  lemma FoundInt(t: Bytes, n: nat, v: nat, c: Bytes)
    requires n <= Pow256(NUMBER_BYTES) && v < n && Contents(v) == c
    requires |t| >= 2 + |c| && t[0] == INT_TAG && t[1] == |c| && t[2..2 + |c|] == c
    ensures IsIntAt(t, n, Some(v)) && |DerInt(v)| == |c| + 2
  {
    hide Contents, Pow256;
    assert t[..2 + |c|] == [t[0], t[1]] + c;
  }

  /** The reader accepts exactly the encodings of pairs below n. */
  method Load(t: Bytes, n: nat) returns (sig: Option<(nat, nat)>)
    requires n <= Pow256(32)
    ensures sig.Some? ==> sig.value.0 < n && sig.value.1 < n && DerSignature(sig.value.0, sig.value.1) <= t
    ensures sig.None? ==> forall r: nat, s: nat :: r < n && s < n ==> !(DerSignature(r, s) <= t)
  {
    hide DerInt, Pow256;
    if |t| < 2 || t[0] != SEQ_TAG || t[1] >= 0x80 {
      NoSignature(t, n, None, None);
      return None;
    }
    var r, rn := LoadBigEndian(t[2..], n);
    if r.None? {
      NoSignature(t, n, r, None);
      return None;
    }
    var s, sn := LoadBigEndian(t[2 + rn..], n);
    if s.None? || t[1] != rn + sn {
      NoSignature(t, n, r, s);
      return None;
    }
    Joined(t, r.value, s.value);
    sig := Some((r.value, s.value));
  }

  lemma Joined(t: Bytes, r: nat, s: nat)
    requires Number(r) && Number(s) && |t| >= 2 && t[0] == SEQ_TAG && t[1] == |DerInt(r)| + |DerInt(s)|
    requires DerInt(r) <= t[2..] && DerInt(s) <= t[2 + |DerInt(r)|..]
    ensures DerSignature(r, s) <= t
  {
    hide DerInt, Number;
    var a, b := DerInt(r), DerInt(s);
    var m := 2 + |a|;
    assert t[2..m] == t[2..][..|a|] && t[m..m + |b|] == t[m..][..|b|];
    Extend(t, 2, m);
    Extend(t, m, m + |b|);
    assert t[..2] == [t[0], t[1]];
  }

  /** The two integers of a signature at the start of t. */
  lemma SignatureParts(t: Bytes, x: nat, y: nat)
    requires Number(x) && Number(y) && DerSignature(x, y) <= t
    ensures |t| >= 2 + |DerInt(x)| && t[0] == SEQ_TAG && t[1] == |DerInt(x)| + |DerInt(y)| < 0x80
    ensures DerInt(x) <= t[2..] && DerInt(y) <= t[2 + |DerInt(x)|..]
  {
    hide DerInt, Number;
    var d := DerSignature(x, y);
    var u := t[|d|..];
    assert t == d + u;
    assert t[2..] == DerInt(x) + (DerInt(y) + u);
    assert t[2 + |DerInt(x)|..] == DerInt(y) + u;
  }

  /** What a failed reading found: a wrong frame, a missing integer or a wrong total. */
  ghost predicate Failed(t: Bytes, n: nat, r: Option<nat>, s: Option<nat>)
    requires n <= Pow256(NUMBER_BYTES)
  {
    || |t| < 2 || t[0] != SEQ_TAG || t[1] >= 0x80
    || (r.None? && IsIntAt(t[2..], n, None))
    || (r.Some? && IsIntAt(t[2..], n, r)
        && var m := 2 + |DerInt(r.value)|;
           (s.None? && IsIntAt(t[m..], n, None))
           || (s.Some? && IsIntAt(t[m..], n, s) && t[1] != |DerInt(r.value)| + |DerInt(s.value)|))
  }

  lemma NoSignature(t: Bytes, n: nat, r: Option<nat>, s: Option<nat>)
    requires n <= Pow256(NUMBER_BYTES) && Failed(t, n, r, s)
    ensures forall r: nat, s: nat :: r < n && s < n ==> !(DerSignature(r, s) <= t)
  {
    hide DerInt, DerSignature, Pow256;
    forall x: nat, y: nat | x < n && y < n && DerSignature(x, y) <= t
      ensures false
    {
      SignatureParts(t, x, y);
      if r.Some? {
        SameInt(t[2..], x, r.value);
        if s.Some? {
          SameInt(t[2 + |DerInt(x)|..], y, s.value);
        }
      }
    }
  }

  lemma SameInt(t: Bytes, x: nat, y: nat)
    requires Number(x) && Number(y)
    ensures DerInt(x) <= t && DerInt(y) <= t ==> x == y
  {
    hide DerInt, Number;
    if DerInt(x) <= t && DerInt(y) <= t {
      assert t == DerInt(x) + t[|DerInt(x)|..] == DerInt(y) + t[|DerInt(y)|..];
      DerIntUnique(x, t[|DerInt(x)|..], y, t[|DerInt(y)|..]);
    }
  }

  // ---------- Writing ----------

  function LittleEndian(x: nat, n: nat): (b: Bytes)
    ensures |b| == n
  {
    if n == 0 then [] else [x % 256] + LittleEndian(x / 256, n - 1)
  }

  function Reversed(s: Bytes): (r: Bytes)
    ensures |r| == |s|
  {
    if s == [] then [] else Reversed(s[1..]) + [s[0]]
  }

  lemma {:induction false} ReversedFirst(s: Bytes)
    requires s != []
    ensures Reversed(s)[0] == s[|s| - 1]
  {
    if |s| > 1 {
      ReversedFirst(s[1..]);
    }
  }

  /** Stripping zeros above what a number needs keeps its value. */
  lemma {:induction false} StrippedValue(x: nat, m: nat, n: nat)
    requires x < Pow256(m) && n <= m && forall k :: n <= k < m ==> LittleEndian(x, m)[k] == 0
    ensures BE(Reversed(LittleEndian(x, m)[..n])) == x
    decreases m
  {
    var t := LittleEndian(x, m);
    if m > 0 {
      var tail := LittleEndian(x / 256, m - 1);
      forall k | 0 <= k < m - 1 && n - 1 <= k
        ensures tail[k] == 0
      {
        assert t[k + 1] == 0;
      }
      if n > 0 {
        StrippedValue(x / 256, m - 1, n - 1);
        assert t[..n][1..] == LittleEndian(x / 256, m - 1)[..n - 1];
        var r := Reversed(t[..n]);
        assert r[..|r| - 1] == Reversed(t[..n][1..]);
      } else {
        StrippedValue(x / 256, m - 1, 0);
        assert LittleEndian(x / 256, m - 1)[..0] == [] && t[0] == 0;
      }
    }
  }

  /** The shortest big-endian form, from a fixed little-endian buffer with its top zeros stripped. */
  method GetBigEndian(x: nat) returns (buf: Bytes)
    requires Number(x)
    ensures buf == BytesOf(x)
  {
    hide LittleEndian, Pow256, BytesOf, BE, Reversed;
    var t := LittleEndian(x, NUMBER_BYTES);
    var n: nat := NUMBER_BYTES;
    while n > 0 && t[n - 1] == 0
      invariant n <= NUMBER_BYTES && forall k :: n <= k < NUMBER_BYTES ==> t[k] == 0
    {
      n := n - 1;
    }
    if n == 0 {
      n := 1;
    }
    StrippedValue(x, NUMBER_BYTES, n);
    buf := Reversed(t[..n]);
    ReversedFirst(t[..n]);
    MinimalUnique(buf);
  }

  /** One integer behind what is already written. */
  method WriteInt(out: Bytes, buf: Bytes, ghost x: nat) returns (r: Bytes)
    requires Number(x) && buf == BytesOf(x)
    ensures r == out + DerInt(x)
  {
    hide BytesOf, Number, Contents;
    ContentsFit(x);
    ContentsCases(x);
    var adj := buf[0] >= 0x80;
    r := out + [INT_TAG];
    r := r + [|buf| + if adj then 1 else 0];
    if adj {
      r := r + [0];
    }
    r := r + buf;
    assert r == out + [INT_TAG, |Contents(x)|] + Contents(x);
  }

  lemma ContentsCases(x: nat)
    ensures Contents(x) == if BytesOf(x)[0] >= 0x80 then [0] + BytesOf(x) else BytesOf(x)
  {
  }

  /** The writer, for any two numbers of at most 32 bytes. */
  method Save(r: nat, s: nat) returns (out: Bytes)
    requires r < Pow256(32) && s < Pow256(32)
    ensures out == DerSignature(r, s)
  {
    hide BytesOf, Number, DerInt, Contents, Pow256;
    IsNumber(r);
    IsNumber(s);
    var rBuf := GetBigEndian(r);
    var sBuf := GetBigEndian(s);
    ContentsFit(r);
    ContentsFit(s);
    var n := 4 + |rBuf| + |sBuf| + (if rBuf[0] >= 0x80 then 1 else 0) + if sBuf[0] >= 0x80 then 1 else 0;
    ContentsSize(r);
    ContentsSize(s);
    out := [SEQ_TAG];
    out := out + [n];
    out := WriteInt(out, rBuf, r);
    out := WriteInt(out, sBuf, s);
  }

  lemma ContentsSize(x: nat)
    ensures |Contents(x)| == |BytesOf(x)| + if BytesOf(x)[0] >= 0x80 then 1 else 0
  {
  }
}
