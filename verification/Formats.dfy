/** The wire formats byte by byte: every field at its position, every number by its digits, and what each
    reader accepts, with nothing taken from the encoders' definitions. */
module Formats {
  import opened ByteStrings
  import opened Envelopes
  import opened KeySets
  import opened Wire
  import opened Wrappers

  /** The big-endian number at position i. */
  function NumberAt(b: Bytes, i: nat): nat
    requires i + 4 <= |b|
  {
    b[i] as nat * 0x100_0000 + b[i + 1] as nat * 0x1_0000 + b[i + 2] as nat * 0x100 + b[i + 3] as nat
  }

  lemma NumberIs(b: Bytes, i: nat)
    requires i + 4 <= |b|
    ensures U32At(b, i) == NumberAt(b, i)
  {
  }

  /** Equal numbers are equal bytes. */
  lemma SameBytes(x: Bytes, y: Bytes, i: nat)
    requires i + 4 <= |x| && i + 4 <= |y| && NumberAt(x, i) == NumberAt(y, i)
    ensures x[i..i + 4] == y[i..i + 4]
  {
    hide U32, FromU32;
    NumberIs(x, i);
    NumberIs(y, i);
    U32Here(x, i);
    U32Here(y, i);
  }

  /** What follows a prefix, cut into parts of these sizes. */
  predicate PartsAt(data: Bytes, i: nat, parts: seq<Bytes>)
    decreases |parts|
  {
    if parts == [] then i == |data|
    else i + |parts[0]| <= |data| && data[i..i + |parts[0]|] == parts[0] && PartsAt(data, i + |parts[0]|, parts[1..])
  }

  /** The lengths stand at i, four bytes each. */
  predicate LengthsAt(data: Bytes, i: nat, parts: seq<Bytes>)
    requires i + 4 * |parts| <= |data|
  {
    forall k :: 0 <= k < |parts| ==> NumberAt(data, i + 4 * k) == |parts[k]|
  }

  function Joined(parts: seq<Bytes>): Bytes {
    if parts == [] then [] else parts[0] + Joined(parts[1..])
  }

  lemma {:induction false} PartsAre(data: Bytes, i: nat, parts: seq<Bytes>)
    requires i <= |data|
    ensures PartsAt(data, i, parts) <==> data[i..] == Joined(parts)
    decreases |parts|
  {
    if parts != [] {
      var p, j := parts[0], i + |parts[0]|;
      if j <= |data| {
        assert data[i..] == data[i..j] + data[j..];
        PartsAre(data, j, parts[1..]);
        if data[i..] == p + Joined(parts[1..]) {
          CancelHead(data[i..j], data[j..], p, Joined(parts[1..]));
        }
      }
    }
  }

  /** A magic, version 1, the lengths of the parts, the parts, and no more. */
  ghost predicate Spells(data: Bytes, magic: Bytes, parts: seq<Bytes>) {
    && |data| >= 9 + 4 * |parts| && |magic| == 8
    && data[..8] == magic && data[8] == 1
    && LengthsAt(data, 9, parts) && PartsAt(data, 9 + 4 * |parts|, parts)
  }

  lemma SpelledOnce(x: Bytes, y: Bytes, magic: Bytes, parts: seq<Bytes>)
    requires Spells(x, magic, parts) && Spells(y, magic, parts)
    ensures x == y
  {
    hide NumberAt, Joined;
    var i := 9 + 4 * |parts|;
    PartsAre(x, i, parts);
    PartsAre(y, i, parts);
    forall k | 0 <= k < |parts|
      ensures x[9 + 4 * k..13 + 4 * k] == y[9 + 4 * k..13 + 4 * k]
    {
      assert NumberAt(x, 9 + 4 * k) == |parts[k]| == NumberAt(y, 9 + 4 * k);
      SameBytes(x, y, 9 + 4 * k);
    }
    SameHeads(x, y, |parts|);
    assert x == x[..i] + x[i..] && y == y[..i] + y[i..];
  }

  lemma SpelledFits(x: Bytes, magic: Bytes, parts: seq<Bytes>, k: nat)
    requires Spells(x, magic, parts) && k < |parts|
    ensures Fits(parts[k])
  {
    NumberIs(x, 9 + 4 * k);
  }

  /** Nine equal bytes and n equal numbers make equal fronts. */
  lemma {:induction false} SameHeads(x: Bytes, y: Bytes, n: nat)
    requires 9 + 4 * n <= |x| && 9 + 4 * n <= |y| && x[..8] == y[..8] && x[8] == y[8]
    requires forall k :: 0 <= k < n ==> x[9 + 4 * k..13 + 4 * k] == y[9 + 4 * k..13 + 4 * k]
    ensures x[..9 + 4 * n] == y[..9 + 4 * n]
  {
    if n == 0 {
      assert x[..9] == x[..8] + [x[8]] && y[..9] == y[..8] + [y[8]];
    } else {
      SameHeads(x, y, n - 1);
      Extend(x, 5 + 4 * n, 9 + 4 * n);
      Extend(y, 5 + 4 * n, 9 + 4 * n);
      assert x[9 + 4 * (n - 1)..13 + 4 * (n - 1)] == y[9 + 4 * (n - 1)..13 + 4 * (n - 1)];
    }
  }

  lemma JoinOne(a: Bytes, parts: seq<Bytes>)
    ensures Joined([a] + parts) == a + Joined(parts) && Joined([]) == []
  {
    assert ([a] + parts)[1..] == parts;
  }

  lemma JoinThree(a: Bytes, b: Bytes, c: Bytes, parts: seq<Bytes>)
    ensures Joined([a, b, c] + parts) == a + b + c + Joined(parts)
  {
    hide Joined;
    JoinOne(c, parts);
    JoinOne(b, [c] + parts);
    JoinOne(a, [b] + ([c] + parts));
    assert [a, b, c] + parts == [a] + ([b] + ([c] + parts));
    assert a + (b + (c + Joined(parts))) == a + b + c + Joined(parts);
  }

  lemma Marks()
    ensures ReleaseMagic() == [0x41, 0x53, 0x42, 0x46, 0x52, 0x45, 0x4c, 0x31]
    ensures KeySetMagic() == [0x41, 0x53, 0x42, 0x46, 0x53, 0x4b, 0x53, 0x31]
    ensures EnvelopeMagic() == [0x41, 0x53, 0x42, 0x46, 0x49, 0x42, 0x45, 0x31]
  {
  }

  // ---------- Key releases ----------

  function ReleaseParts(v: Release): seq<Bytes> {
    [v.profile, v.fid, v.workerIdentity, v.wrapKey, v.nonce, v.ciphertext]
  }

  /** "ASBFREL1" and six parts. */
  ghost predicate SpellsRelease(data: Bytes, v: Release) {
    Spells(data, [0x41, 0x53, 0x42, 0x46, 0x52, 0x45, 0x4c, 0x31],
           [v.profile, v.fid, v.workerIdentity, v.wrapKey, v.nonce, v.ciphertext])
  }

  lemma ReleaseTail(v: Release)
    requires ReleaseFits(v)
    ensures |EncodeRelease(v)| >= 33 && EncodeRelease(v)[33..] == Joined(ReleaseParts(v))
  {
    hide ReleaseHeader, Joined;
    var h := ReleaseHeader(|v.profile|, |v.fid|, |v.workerIdentity|, |v.wrapKey|, |v.nonce|, |v.ciphertext|);
    var x, last := v.wrapKey + v.nonce + v.ciphertext, [v.wrapKey, v.nonce, v.ciphertext];
    JoinOne([], []);
    JoinThree(v.wrapKey, v.nonce, v.ciphertext, []);
    assert last + [] == last && x + [] == x;
    JoinThree(v.profile, v.fid, v.workerIdentity, last);
    assert EncodeRelease(v) == h + (v.profile + v.fid + v.workerIdentity + x);
    assert ReleaseParts(v) == [v.profile, v.fid, v.workerIdentity] + last;
  }

  lemma EncodedSpells(v: Release)
    requires ReleaseFits(v)
    ensures SpellsRelease(EncodeRelease(v), v)
  {
    hide EncodeRelease, U32At, ReleaseMagic;
    var data, parts := EncodeRelease(v), ReleaseParts(v);
    assert data + [] == data;
    ReleaseShape(v, []);
    Marks();
    forall k | 0 <= k < 6
      ensures NumberAt(data, 9 + 4 * k) == |parts[k]|
    {
      NumberIs(data, 9 + 4 * k);
    }
    ReleaseTail(v);
    PartsAre(data, 33, parts);
  }

  /** Encoding is spelling. */
  lemma ReleaseBytes(data: Bytes, v: Release)
    ensures ReleaseFits(v) && data == EncodeRelease(v) <==> SpellsRelease(data, v)
  {
    hide EncodeRelease, Spells;
    if SpellsRelease(data, v) {
      var magic, parts := [0x41, 0x53, 0x42, 0x46, 0x52, 0x45, 0x4c, 0x31], ReleaseParts(v);
      forall k | 0 <= k < 6
        ensures Fits(parts[k])
      {
        SpelledFits(data, magic, parts, k);
      }
      assert Fits(parts[0]) && Fits(parts[1]) && Fits(parts[2]) && Fits(parts[3]) && Fits(parts[4]) && Fits(parts[5]);
      EncodedSpells(v);
      SpelledOnce(data, EncodeRelease(v), magic, parts);
    } else if ReleaseFits(v) {
      EncodedSpells(v);
    }
  }

  lemma WhichRelease(data: Bytes, r: Option<Release>, accepts: Release -> bool)
    requires IsReleaseIn(data, r, accepts)
    ensures forall v :: r == Some(v) <==> SpellsRelease(data, v) && accepts(v)
  {
    hide EncodeRelease, SpellsRelease;
    forall v: Release
      ensures ReleaseFits(v) && data == EncodeRelease(v) <==> SpellsRelease(data, v)
    {
      ReleaseBytes(data, v);
    }
    if r.Some? {
      forall v | ReleaseFits(v) && data == EncodeRelease(v)
        ensures v == r.value
      {
        ReleaseUnique(v, [], r.value, []);
      }
    }
  }

  /** What the worker reads as a release: all of data, for the one profile, with a 64-byte wrapping key, a
      12-byte nonce, and more than a tag of ciphertext. */
  lemma ReadByWorker(data: Bytes, r: Option<Release>)
    requires IsReleaseIn(data, r, WorkerAccepts)
    ensures forall v :: r == Some(v) <==>
              SpellsRelease(data, v) && v.profile == Ascii("bfibe-mcl-bls12381")
              && |v.wrapKey| == 64 && |v.nonce| == 12 && |v.ciphertext| > 16
  {
    hide SpellsRelease, Ascii;
    WhichRelease(data, r, WorkerAccepts);
  }

  /** What the Python tools read: any wrapping key and any ciphertext that are not empty, and text for fid
      and worker. */
  lemma ReadByTools(utf8: Bytes -> bool, data: Bytes, r: Option<Release>)
    requires IsReleaseIn(data, r, v => PythonAccepts(utf8, v))
    ensures forall v :: r == Some(v) <==>
              SpellsRelease(data, v) && v.profile == Ascii("bfibe-mcl-bls12381")
              && utf8(v.fid) && v.fid != [] && utf8(v.workerIdentity) && v.workerIdentity != []
              && v.wrapKey != [] && |v.nonce| == 12 && v.ciphertext != []
  {
    hide SpellsRelease, Ascii;
    WhichRelease(data, r, v => PythonAccepts(utf8, v));
  }

  // ---------- Key envelopes ----------

  function EnvelopeParts(e: Envelope): seq<Bytes> {
    [e.profile, e.purpose, e.identity, e.context, e.c1, e.nonce, e.ciphertext]
  }

  /** "ASBFIBE1" and seven parts. */
  ghost predicate SpellsEnvelope(data: Bytes, e: Envelope) {
    Spells(data, [0x41, 0x53, 0x42, 0x46, 0x49, 0x42, 0x45, 0x31],
           [e.profile, e.purpose, e.identity, e.context, e.c1, e.nonce, e.ciphertext])
  }

  lemma EnvelopeTail(e: Envelope)
    requires EnvelopeFits(e)
    ensures |EncodeEnvelope(e)| >= 37 && EncodeEnvelope(e)[37..] == Joined(EnvelopeParts(e))
  {
    hide HeaderOf, Joined;
    var x, last := e.c1 + e.nonce + e.ciphertext, [e.c1, e.nonce, e.ciphertext];
    JoinOne([], []);
    JoinThree(e.c1, e.nonce, e.ciphertext, []);
    assert last + [] == last && x + [] == x;
    JoinThree(e.purpose, e.identity, e.context, last);
    JoinOne(e.profile, [e.purpose, e.identity, e.context] + last);
    assert EncodeEnvelope(e) == HeaderOf(e) + (e.profile + (e.purpose + e.identity + e.context + x));
    assert EnvelopeParts(e) == [e.profile] + ([e.purpose, e.identity, e.context] + last);
  }

  lemma EncodedSpellsEnvelope(e: Envelope)
    requires EnvelopeFits(e)
    ensures SpellsEnvelope(EncodeEnvelope(e), e)
  {
    hide EncodeEnvelope, U32At, EnvelopeMagic;
    var data, parts := EncodeEnvelope(e), EnvelopeParts(e);
    assert data + [] == data;
    EnvelopeShape(e, []);
    Marks();
    forall k | 0 <= k < 7
      ensures NumberAt(data, 9 + 4 * k) == |parts[k]|
    {
      NumberIs(data, 9 + 4 * k);
    }
    EnvelopeTail(e);
    PartsAre(data, 37, parts);
  }

  lemma EnvelopeBytes(data: Bytes, e: Envelope)
    ensures EnvelopeFits(e) && data == EncodeEnvelope(e) <==> SpellsEnvelope(data, e)
  {
    hide EncodeEnvelope, Spells;
    if SpellsEnvelope(data, e) {
      var magic, parts := [0x41, 0x53, 0x42, 0x46, 0x49, 0x42, 0x45, 0x31], EnvelopeParts(e);
      forall k | 0 <= k < 7
        ensures Fits(parts[k])
      {
        SpelledFits(data, magic, parts, k);
      }
      assert Fits(parts[0]) && Fits(parts[1]) && Fits(parts[2]) && Fits(parts[3]) && Fits(parts[4]);
      assert Fits(parts[5]) && Fits(parts[6]);
      EncodedSpellsEnvelope(e);
      SpelledOnce(data, EncodeEnvelope(e), magic, parts);
    } else if EnvelopeFits(e) {
      EncodedSpellsEnvelope(e);
    }
  }

  lemma WhichEnvelope(data: Bytes, r: Option<Envelope>, accepts: Envelope -> bool)
    requires IsEnvelopeIn(data, r, accepts)
    ensures forall e :: r == Some(e) <==> SpellsEnvelope(data, e) && accepts(e)
  {
    hide EncodeEnvelope, SpellsEnvelope;
    forall e: Envelope
      ensures EnvelopeFits(e) && data == EncodeEnvelope(e) <==> SpellsEnvelope(data, e)
    {
      EnvelopeBytes(data, e);
    }
    if r.Some? {
      forall e | EnvelopeFits(e) && data == EncodeEnvelope(e)
        ensures e == r.value
      {
        EnvelopeUnique(e, [], r.value, []);
      }
    }
  }

  /** What the worker reads as an envelope. */
  lemma EnvelopeReadByWorker(data: Bytes, r: Option<Envelope>)
    requires IsEnvelopeIn(data, r, WorkerTakesEnvelope)
    ensures forall e :: r == Some(e) <==>
              SpellsEnvelope(data, e) && e.profile == Ascii("bfibe-mcl-bls12381")
              && (e.purpose == Ascii("request-key") || e.purpose == Ascii("function-key"))
              && e.identity != [] && e.c1 != [] && |e.nonce| == 12 && |e.ciphertext| > 16
  {
    hide SpellsEnvelope, Ascii;
    WhichEnvelope(data, r, WorkerTakesEnvelope);
  }

  /** The Python library is content with any ciphertext, but wants a text for the identity. */
  lemma EnvelopeReadByPython(utf8: Bytes -> bool, data: Bytes, r: Option<Envelope>)
    requires IsEnvelopeIn(data, r, e => PythonTakesEnvelope(utf8, e))
    ensures forall e :: r == Some(e) <==>
              SpellsEnvelope(data, e) && e.profile == Ascii("bfibe-mcl-bls12381")
              && (e.purpose == Ascii("request-key") || e.purpose == Ascii("function-key"))
              && utf8(e.identity) && e.identity != [] && e.c1 != [] && |e.nonce| == 12 && e.ciphertext != []
  {
    hide SpellsEnvelope, Ascii;
    WhichEnvelope(data, r, e => PythonTakesEnvelope(utf8, e));
  }

  /** The client tool looks at the profile alone. */
  lemma EnvelopeReadByTool(data: Bytes, r: Option<Envelope>)
    requires IsEnvelopeIn(data, r, ToolTakesEnvelope)
    ensures forall e :: r == Some(e) <==> SpellsEnvelope(data, e) && e.profile == Ascii("bfibe-mcl-bls12381")
  {
    hide SpellsEnvelope, Ascii;
    WhichEnvelope(data, r, ToolTakesEnvelope);
  }

  /** An envelope is known by its first nine bytes. */
  lemma EnvelopeMark(data: Bytes)
    ensures IsEnvelope(data) <==> [0x41, 0x53, 0x42, 0x46, 0x49, 0x42, 0x45, 0x31, 1] <= data
  {
    hide EnvelopeMagic;
    Marks();
    if |data| >= 9 {
      assert data[..9] == data[..8] + [data[8]];
    }
  }

  // ---------- Associated data ----------

  /** A magic and four parts, each after its length. */
  lemma TaggedBytes(magic: Bytes, a: Bytes, b: Bytes, c: Bytes, d: Bytes)
    requires Fits(a) && Fits(b) && Fits(c) && Fits(d)
    ensures var r := Tagged(magic, a, b, c, d);
            var i := |magic|; var j := i + 4 + |a|; var k := j + 4 + |b|; var l := k + 4 + |c|;
            && |r| == l + 4 + |d| && r[..i] == magic
            && NumberAt(r, i) == |a| && r[i + 4..j] == a && NumberAt(r, j) == |b| && r[j + 4..k] == b
            && NumberAt(r, k) == |c| && r[k + 4..l] == c && NumberAt(r, l) == |d| && r[l + 4..] == d
  {
    hide U32, NumberAt;
    var r := Tagged(magic, a, b, c, d);
    var i := |magic|;
    var j := i + 4 + |a|;
    var k := j + 4 + |b|;
    var l := k + 4 + |c|;
    assert r[i..i + 4] == U32(|a|) && r[j..j + 4] == U32(|b|) && r[k..k + 4] == U32(|c|) && r[l..l + 4] == U32(|d|);
    NumberWritten(r, i, |a|);
    NumberWritten(r, j, |b|);
    NumberWritten(r, k, |c|);
    NumberWritten(r, l, |d|);
  }

  lemma NumberWritten(r: Bytes, i: nat, v: nat)
    requires IsU32(v) && i + 4 <= |r| && r[i..i + 4] == U32(v)
    ensures NumberAt(r, i) == v
  {
    hide U32, FromU32;
    U32Read(r, i, v);
    NumberIs(r, i);
  }

  // ---------- Private-key sets ----------

  /** One record at i: three lengths, then purpose, identity and key. */
  ghost predicate RecordAt(data: Bytes, i: nat, r: Record) {
    var j := i + 12 + |r.purpose|;
    var k := j + |r.identity|;
    && k + |r.privateKey| <= |data|
    && NumberAt(data, i) == |r.purpose| && NumberAt(data, i + 4) == |r.identity|
    && NumberAt(data, i + 8) == |r.privateKey|
    && data[i + 12..j] == r.purpose && data[j..k] == r.identity && data[k..k + |r.privateKey|] == r.privateKey
  }

  function RecordSize(r: Record): nat {
    12 + |r.purpose| + |r.identity| + |r.privateKey|
  }

  /** The records stand one after the other from 35 to end. */
  ghost predicate RecordsUpTo(data: Bytes, end: nat, rs: seq<Record>) {
    if rs == [] then end == 35
    else
      var r := rs[|rs| - 1];
      end >= RecordSize(r) && RecordsUpTo(data, end - RecordSize(r), rs[..|rs| - 1])
      && RecordAt(data, end - RecordSize(r), r)
  }

  /** "ASBFSKS1", version 1, the profile's length and the number of records, the profile, the records. */
  ghost predicate SpellsKeySet(data: Bytes, rs: seq<Record>) {
    && |data| >= 35 && data[..8] == [0x41, 0x53, 0x42, 0x46, 0x53, 0x4b, 0x53, 0x31] && data[8] == 1
    && NumberAt(data, 9) == 18 && NumberAt(data, 13) == |rs| && data[17..35] == Ascii("bfibe-mcl-bls12381")
    && RecordsUpTo(data, |data|, rs)
  }

  lemma RecordBytes(data: Bytes, i: nat, r: Record)
    requires i + RecordSize(r) <= |data|
    ensures RecordAt(data, i, r) <==> RecordFits(r) && data[i..i + RecordSize(r)] == EncodeRecord(r)
  {
    hide RecordAt, EncodeRecord;
    if RecordAt(data, i, r) {
      RecordFound(data, i, r);
    } else if RecordFits(r) && data[i..i + RecordSize(r)] == EncodeRecord(r) {
      RecordWritten(data, i, r);
    }
  }

  lemma RecordFound(data: Bytes, i: nat, r: Record)
    requires RecordAt(data, i, r)
    ensures RecordFits(r) && data[i..i + RecordSize(r)] == EncodeRecord(r)
  {
    hide U32, U32At, NumberAt;
    var j := i + 12 + |r.purpose|;
    var k := j + |r.identity|;
    NumberIs(data, i);
    NumberIs(data, i + 4);
    NumberIs(data, i + 8);
    U32Here(data, i);
    U32Here(data, i + 4);
    U32Here(data, i + 8);
    var end := k + |r.privateKey|;
    assert data[i..end] ==
           data[i..i + 4] + data[i + 4..i + 8] + data[i + 8..i + 12] + data[i + 12..j] + data[j..k] + data[k..end];
  }

  lemma RecordSlices(r: Record)
    requires RecordFits(r)
    ensures var e := EncodeRecord(r);
            var j := 12 + |r.purpose|; var k := j + |r.identity|;
            && e[0..4] == U32(|r.purpose|) && e[4..8] == U32(|r.identity|) && e[8..12] == U32(|r.privateKey|)
            && e[12..j] == r.purpose && e[j..k] == r.identity && e[k..] == r.privateKey
  {
    hide U32;
  }

  lemma RecordWritten(data: Bytes, i: nat, r: Record)
    requires i + RecordSize(r) <= |data| && RecordFits(r) && data[i..i + RecordSize(r)] == EncodeRecord(r)
    ensures RecordAt(data, i, r)
  {
    hide U32, U32At, NumberAt, EncodeRecord;
    var e := EncodeRecord(r);
    var j := 12 + |r.purpose|;
    var k := j + |r.identity|;
    RecordSlices(r);
    Inside(data, i, e, 0, 4);
    Inside(data, i, e, 4, 8);
    Inside(data, i, e, 8, 12);
    NumberWritten(data, i, |r.purpose|);
    NumberWritten(data, i + 4, |r.identity|);
    NumberWritten(data, i + 8, |r.privateKey|);
    Inside(data, i, e, 12, j);
    Inside(data, i, e, j, k);
    Inside(data, i, e, k, |e|);
    assert e[k..|e|] == e[k..];
  }

  /** A slice of a slice. */
  lemma Inside(data: Bytes, i: nat, e: Bytes, a: nat, b: nat)
    requires a <= b <= |e| && i + |e| <= |data| && data[i..i + |e|] == e
    ensures data[i + a..i + b] == e[a..b]
  {
    forall k | 0 <= k < b - a
      ensures data[i + a..i + b][k] == e[a..b][k]
    {
      assert data[i..i + |e|][a + k] == e[a + k];
    }
  }

  lemma {:induction false} RecordsBytes(data: Bytes, end: nat, rs: seq<Record>)
    requires 35 <= end <= |data|
    ensures RecordsUpTo(data, end, rs) <==> RecordsFit(rs) && data[35..end] == EncodeRecords(rs)
  {
    hide EncodeRecord, RecordAt;
    if rs != [] {
      var n := |rs| - 1;
      var r, front := rs[n], rs[..n];
      var i := end - RecordSize(r);
      assert rs == front + [r];
      if i >= 35 {
        RecordsBytes(data, i, front);
        RecordBytes(data, i, r);
        assert data[35..end] == data[35..i] + data[i..end];
        if RecordsFit(rs) && data[35..end] == EncodeRecords(rs) {
          CancelLast(data[35..i], data[i..end], EncodeRecords(front), EncodeRecord(r));
        }
      } else if i >= 0 {
        TooShort(data, i, front);
      }
    }
  }

  lemma {:induction false} TooShort(data: Bytes, end: nat, rs: seq<Record>)
    requires end < 35
    ensures !RecordsUpTo(data, end, rs)
  {
    if rs != [] && end >= RecordSize(rs[|rs| - 1]) {
      TooShort(data, end - RecordSize(rs[|rs| - 1]), rs[..|rs| - 1]);
    }
  }

  lemma KeySetBytes(data: Bytes, rs: seq<Record>)
    ensures RecordsFit(rs) && IsU32(|rs|) && data == EncodeKeySet(rs) <==> SpellsKeySet(data, rs)
  {
    hide EncodeRecords, NumberAt, U32, RecordsUpTo, Ascii, KeySetMagic, U32At;
    Marks();
    if |data| >= 35 {
      RecordsBytes(data, |data|, rs);
      NumberIs(data, 9);
      NumberIs(data, 13);
      U32Here(data, 9);
      U32Here(data, 13);
      var h := data[..8] + [data[8]] + data[9..13] + data[13..17];
      assert data == h + data[17..35] + data[35..];
      assert h == data[..17];
      if RecordsFit(rs) && IsU32(|rs|) && data == EncodeKeySet(rs) {
        KeySetPieces(data, rs);
        U32Read(data, 9, 18);
        U32Read(data, 13, |rs|);
      }
    }
  }

  lemma KeySetPieces(data: Bytes, rs: seq<Record>)
    requires RecordsFit(rs) && IsU32(|rs|) && data == EncodeKeySet(rs)
    ensures |data| >= 35 && data[..8] == KeySetMagic() && data[8] == 1 && data[9..13] == U32(18)
    ensures data[13..17] == U32(|rs|) && data[17..35] == Profile() && data[35..] == EncodeRecords(rs)
  {
    hide EncodeRecords, EncodeKeySet, U32, KeySetMagic, Profile, KeySetHeader;
    var h := KeySetHeader(18, |rs|);
    HeaderPieces(|rs|);
    ThreeParts(data, rs);
    Inside(data, 0, h, 0, 8);
    Inside(data, 0, h, 9, 13);
    Inside(data, 0, h, 13, 17);
    assert data[..8] == data[0..8] && h[..8] == h[0..8];
  }

  lemma ThreeParts(data: Bytes, rs: seq<Record>)
    requires RecordsFit(rs) && IsU32(|rs|) && data == EncodeKeySet(rs)
    ensures |data| >= 35 && data[0..17] == KeySetHeader(18, |rs|) && data[17..35] == Profile()
    ensures data[35..] == EncodeRecords(rs)
  {
    hide EncodeRecords, Profile, KeySetHeader;
  }

  lemma HeaderPieces(n: nat)
    requires IsU32(n)
    ensures var h := KeySetHeader(18, n);
            h[..8] == KeySetMagic() && h[8] == 1 && h[9..13] == U32(18) && h[13..17] == U32(n)
  {
    hide U32, KeySetMagic;
  }

  lemma WhichKeySet(data: Bytes, rs: Option<seq<Record>>, rules: Rules)
    requires IsKeySetIn(data, rs, rules)
    ensures forall v: seq<Record> :: rs == Some(v) <==> SpellsKeySet(data, v) && Takes(rules, v)
  {
    hide EncodeKeySet, SpellsKeySet, AllGood, LastKey;
    forall v: seq<Record>
      ensures RecordsFit(v) && IsU32(|v|) && data == EncodeKeySet(v) <==> SpellsKeySet(data, v)
    {
      KeySetBytes(data, v);
    }
    if rs.Some? {
      forall v | RecordsFit(v) && IsU32(|v|) && data == EncodeKeySet(v)
        ensures v == rs.value
      {
        KeySetUnique(v, rs.value);
      }
    }
  }

  /** A record the worker imports for fid. */
  predicate ForWorker(fid: Bytes, r: Record) {
    && 1 <= |r.privateKey| <= 256
    && ((r.purpose == Ascii("request-key") && |fid| <= 155 && r.identity == Ascii("fid:") + fid)
        || (r.purpose == Ascii("function-key") && Ascii("label:") <= r.identity))
  }

  /** What the worker reads as a key set: records it can import, at least one of either purpose. */
  lemma KeySetReadByWorker(data: Bytes, fid: Bytes, rs: Option<seq<Record>>)
    requires IsKeySetIn(data, rs, WorkerFor(fid))
    ensures forall v: seq<Record> :: rs == Some(v) <==>
              SpellsKeySet(data, v) && (forall r :: r in v ==> ForWorker(fid, r))
              && (exists r: Record :: r in v && r.purpose == Ascii("request-key"))
              && (exists r: Record :: r in v && r.purpose == Ascii("function-key"))
  {
    hide SpellsKeySet, Ascii, LastKey, EncodeKeySet;
    WhichKeySet(data, rs, WorkerFor(fid));
    TwoPurposes();
    forall v: seq<Record> | SpellsKeySet(data, v)
      ensures Takes(WorkerFor(fid), v) <==>
                (forall r :: r in v ==> ForWorker(fid, r))
                && (exists r: Record :: r in v && r.purpose == Ascii("request-key"))
                && (exists r: Record :: r in v && r.purpose == Ascii("function-key"))
    {
      KeySetBytes(data, v);
      if forall r :: r in v ==> ForWorker(fid, r) {
        AnyKey(v, RequestPurpose());
        AnyKey(v, FunctionPurpose());
      }
    }
  }

  /** Some key of a purpose is held exactly when some record has that purpose. */
  lemma {:induction false} AnyKey(rs: seq<Record>, purpose: Bytes)
    requires forall r :: r in rs ==> r.privateKey != []
    ensures LastKey(rs, purpose) != [] <==> exists r :: r in rs && r.purpose == purpose
  {
    if rs != [] {
      var n := |rs| - 1;
      assert rs == rs[..n] + [rs[n]];
      AnyKey(rs[..n], purpose);
    }
  }

  /** The key held for a purpose is the one of its last record. */
  lemma {:induction false} LastKeyIs(rs: seq<Record>, purpose: Bytes, i: nat)
    requires i < |rs| && rs[i].purpose == purpose && forall k :: i < k < |rs| ==> rs[k].purpose != purpose
    ensures LastKey(rs, purpose) == rs[i].privateKey
  {
    if i < |rs| - 1 {
      LastKeyIs(rs[..|rs| - 1], purpose, i);
    }
  }

  /** What the Python tools read as a key set. */
  lemma KeySetReadByTools(utf8: Bytes -> bool, data: Bytes, rs: Option<seq<Record>>)
    requires IsKeySetIn(data, rs, PythonTool(utf8))
    ensures forall v: seq<Record> :: rs == Some(v) <==>
              SpellsKeySet(data, v) && v != []
              && forall r :: r in v ==>
                   (r.purpose == Ascii("request-key") || r.purpose == Ascii("function-key"))
                   && utf8(r.identity) && r.identity != [] && r.privateKey != []
  {
    hide SpellsKeySet, Ascii, LastKey, EncodeKeySet;
    WhichKeySet(data, rs, PythonTool(utf8));
    forall v: seq<Record> | SpellsKeySet(data, v)
      ensures RecordsFit(v) && IsU32(|v|)
    {
      KeySetBytes(data, v);
    }
  }
}
