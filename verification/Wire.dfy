/** The byte formats that carry BF-IBE keys from the key management enclave to the worker:
    the outer key release, the private-key set inside it, and the associated data of both sides. */
module Wire {
  import opened ByteStrings
  import opened Wrappers

  // ---------- Formats ----------

  const VERSION: Byte := 1
  const WRAP_KEY_LEN: nat := 64
  const NONCE_LEN: nat := 12
  const TAG_LEN: nat := 16

  function ReleaseMagic(): (b: Bytes)
    ensures |b| == 8
  {
    Ascii("ASBFREL1")
  }

  function KeySetMagic(): (b: Bytes)
    ensures |b| == 8
  {
    Ascii("ASBFSKS1")
  }

  function Profile(): (b: Bytes)
    ensures |b| == 18
  {
    Ascii("bfibe-mcl-bls12381")
  }

  function AadMagic(): (b: Bytes)
    ensures |b| == 30
  {
    Ascii("ASYNCS/BFIBE/KEYRELEASE/AAD/v1")
  }

  function RequestPurpose(): (b: Bytes)
    ensures |b| == 11
  {
    Ascii("request-key")
  }

  function FunctionPurpose(): (b: Bytes)
    ensures |b| == 12
  {
    Ascii("function-key")
  }

  lemma TwoPurposes()
    ensures RequestPurpose() != FunctionPurpose()
  {
  }

  datatype Release = Release(profile: Bytes, fid: Bytes, workerIdentity: Bytes,
                             wrapKey: Bytes, nonce: Bytes, ciphertext: Bytes)

  datatype Record = Record(purpose: Bytes, identity: Bytes, privateKey: Bytes)

  predicate Fits(b: Bytes) { IsU32(|b|) }

  predicate ReleaseFits(r: Release) {
    Fits(r.profile) && Fits(r.fid) && Fits(r.workerIdentity) && Fits(r.wrapKey) && Fits(r.nonce) && Fits(r.ciphertext)
  }

  function ReleaseHeader(a: nat, b: nat, c: nat, d: nat, e: nat, f: nat): (h: Bytes)
    requires IsU32(a) && IsU32(b) && IsU32(c) && IsU32(d) && IsU32(e) && IsU32(f)
    ensures |h| == 33
  {
    ReleaseMagic() + [VERSION] + U32(a) + U32(b) + U32(c) + U32(d) + U32(e) + U32(f)
  }

  function EncodeRelease(r: Release): Bytes
    requires ReleaseFits(r)
  {
    ReleaseHeader(|r.profile|, |r.fid|, |r.workerIdentity|, |r.wrapKey|, |r.nonce|, |r.ciphertext|)
    + r.profile + r.fid + r.workerIdentity + r.wrapKey + r.nonce + r.ciphertext
  }

  predicate RecordFits(r: Record) {
    Fits(r.purpose) && Fits(r.identity) && Fits(r.privateKey)
  }

  function EncodeRecord(r: Record): (e: Bytes)
    requires RecordFits(r)
    ensures |e| == 12 + |r.purpose| + |r.identity| + |r.privateKey|
  {
    U32(|r.purpose|) + U32(|r.identity|) + U32(|r.privateKey|) + r.purpose + r.identity + r.privateKey
  }

  predicate RecordsFit(rs: seq<Record>) {
    forall r :: r in rs ==> RecordFits(r)
  }

  function EncodeRecords(rs: seq<Record>): Bytes
    requires RecordsFit(rs)
  {
    if rs == [] then [] else EncodeRecords(rs[..|rs| - 1]) + EncodeRecord(rs[|rs| - 1])
  }

  function KeySetHeader(profileLen: nat, count: nat): (h: Bytes)
    requires IsU32(profileLen) && IsU32(count)
    ensures |h| == 17
  {
    KeySetMagic() + [VERSION] + U32(profileLen) + U32(count)
  }

  function EncodeKeySet(rs: seq<Record>): Bytes
    requires RecordsFit(rs) && IsU32(|rs|)
  {
    KeySetHeader(|Profile()|, |rs|) + Profile() + EncodeRecords(rs)
  }

  /** Associated data of either kind: a magic and four parts, each after its length. */
  function Tagged(magic: Bytes, a: Bytes, b: Bytes, c: Bytes, d: Bytes): (r: Bytes)
    requires Fits(a) && Fits(b) && Fits(c) && Fits(d)
    ensures |r| == |magic| + 16 + |a| + |b| + |c| + |d|
  {
    magic + U32(|a|) + a + U32(|b|) + b + U32(|c|) + c + U32(|d|) + d
  }

  /** The associated data that ties a release to fid, worker and wrapping key. */
  function Aad(profile: Bytes, fid: Bytes, workerIdentity: Bytes, wrapKey: Bytes): (r: Bytes)
    requires Fits(profile) && Fits(fid) && Fits(workerIdentity) && Fits(wrapKey)
    ensures |r| == 46 + |profile| + |fid| + |workerIdentity| + |wrapKey|
  {
    Tagged(AadMagic(), profile, fid, workerIdentity, wrapKey)
  }

  lemma PartUnique(a: Bytes, t: Bytes, b: Bytes, u: Bytes)
    requires Fits(a) && Fits(b) && U32(|a|) + (a + t) == U32(|b|) + (b + u)
    ensures a == b && t == u
  {
    hide U32;
    CancelHead(U32(|a|), a + t, U32(|b|), b + u);
    SameNumber(|a|, |b|);
    CancelHead(a, t, b, u);
  }

  lemma TaggedNested(magic: Bytes, p: Bytes, f: Bytes, w: Bytes, k: Bytes)
    requires Fits(p) && Fits(f) && Fits(w) && Fits(k)
    ensures Tagged(magic, p, f, w, k)
         == magic + (U32(|p|) + (p + (U32(|f|) + (f + (U32(|w|) + (w + (U32(|k|) + (k + []))))))))
  {
    hide U32;
  }

  /** Under one magic the parts can be told from the whole. */
  lemma TaggedInjective(magic: Bytes, p: Bytes, f: Bytes, w: Bytes, k: Bytes, p': Bytes, f': Bytes, w': Bytes, k': Bytes)
    requires Fits(p) && Fits(f) && Fits(w) && Fits(k) && Fits(p') && Fits(f') && Fits(w') && Fits(k')
    requires Tagged(magic, p, f, w, k) == Tagged(magic, p', f', w', k')
    ensures p == p' && f == f' && w == w' && k == k'
  {
    hide U32, Tagged;
    TaggedNested(magic, p, f, w, k);
    TaggedNested(magic, p', f', w', k');
    var k1, k2 := U32(|k|) + (k + []), U32(|k'|) + (k' + []);
    var w1, w2 := U32(|w|) + (w + k1), U32(|w'|) + (w' + k2);
    var f1, f2 := U32(|f|) + (f + w1), U32(|f'|) + (f' + w2);
    CancelFirst(magic, U32(|p|) + (p + f1), U32(|p'|) + (p' + f2));
    PartUnique(p, f1, p', f2);
    PartUnique(f, w1, f', w2);
    PartUnique(w, k1, w', k2);
    PartUnique(k, [], k', []);
  }

  // ---------- A bounded output buffer ----------

  class Writer {
    const out: array<Byte>
    var offset: nat

    ghost predicate Valid()
      reads this
    {
      offset <= out.Length
    }

    ghost function Contents(): (s: Bytes)
      reads this, out
      requires Valid()
      ensures |s| == offset
    {
      out[..offset]
    }

    constructor (buffer: array<Byte>)
      ensures Valid() && out == buffer && Contents() == []
    {
      out, offset := buffer, 0;
    }

    lemma ContentsAre()
      requires Valid()
      ensures Contents() == out[..offset]
    {
    }

    method AppendBytes(data: Bytes) returns (ok: bool)
      requires Valid()
      modifies this, out
      ensures Valid()
      ensures ok <==> old(offset) + |data| <= out.Length
      ensures Contents() == if ok then old(Contents()) + data else old(Contents())
    {
      if |data| > out.Length - offset {
        return false;
      }
      forall i | 0 <= i < |data| {
        out[offset + i] := data[i];
      }
      ghost var was := offset;
      offset := offset + |data|;
      assert out[..was] == old(Contents());
      assert out[was..offset] == data;
      ok := true;
    }

    method AppendU8(value: Byte) returns (ok: bool)
      requires Valid()
      modifies this, out
      ensures Valid()
      ensures ok <==> old(offset) + 1 <= out.Length
      ensures Contents() == if ok then old(Contents()) + [value] else old(Contents())
    {
      ok := AppendBytes([value]);
    }

    method AppendU32(value: nat) returns (ok: bool)
      requires Valid() && IsU32(value)
      modifies this, out
      ensures Valid()
      ensures ok <==> old(offset) + 4 <= out.Length
      ensures Contents() == if ok then old(Contents()) + U32(value) else old(Contents())
    {
      ok := AppendBytes(U32(value));
    }
  }

  // ---------- A cursor over input ----------

  class Reader {
    const data: Bytes
    var offset: nat

    ghost predicate Valid()
      reads this
    {
      offset <= |data|
    }

    /** What has been consumed. */
    ghost function Done(): (s: Bytes)
      reads this
      requires Valid()
      ensures |s| == offset
    {
      data[..offset]
    }

    constructor (data: Bytes)
      ensures Valid() && this.data == data && offset == 0
    {
      this.data, offset := data, 0;
    }

    /** Everything has been consumed. */
    lemma AllDone()
      requires Valid()
      ensures Done() <= data && (offset == |data| ==> Done() == data)
    {
    }

    lemma DoneIs()
      requires Valid()
      ensures Done() == data[..offset] && Done() <= data
    {
    }

    /** Steps over a part already compared in place. */
    method Skip(n: nat)
      requires offset == 0 && n <= |data|
      modifies this
      ensures Valid() && offset == n && Done() == data[..n]
    {
      offset := n;
    }

    method ReadU32() returns (ok: bool, v: nat)
      requires Valid()
      modifies this
      ensures Valid() && IsU32(v)
      ensures ok <==> old(offset) + 4 <= |data|
      ensures ok ==> Done() == old(Done()) + U32(v) && v == U32At(data, old(offset))
      ensures !ok ==> offset == old(offset)
    {
      if |data| - offset < 4 {
        return false, 0;
      }
      v := U32At(data, offset);
      U32Here(data, offset);
      Extend(data, offset, offset + 4);
      offset := offset + 4;
      ok := true;
    }

    method TakeBytes(len: nat) returns (ok: bool, bytes: Bytes)
      requires Valid()
      modifies this
      ensures Valid()
      ensures ok <==> old(offset) + len <= |data|
      ensures ok ==> Done() == old(Done()) + bytes && |bytes| == len && bytes == data[old(offset)..old(offset) + len]
      ensures !ok ==> offset == old(offset)
    {
      if len > |data| - offset {
        return false, [];
      }
      bytes := data[offset..offset + len];
      Extend(data, offset, offset + len);
      offset := offset + len;
      ok := true;
    }
  }

  // ---------- The encoders of the key management enclave ----------

  /** The fixed part: magic, version and the six lengths. */
  method AppendReleaseHeader(w: Writer, a: nat, b: nat, c: nat, d: nat, e: nat, f: nat) returns (ok: bool)
    requires w.Valid() && w.offset == 0
    requires IsU32(a) && IsU32(b) && IsU32(c) && IsU32(d) && IsU32(e) && IsU32(f)
    modifies w, w.out
    ensures w.Valid()
    ensures ok <==> 33 <= w.out.Length
    ensures ok ==> w.Contents() == ReleaseHeader(a, b, c, d, e, f)
  {
    hide Writer.Contents, ReleaseMagic, U32, ReleaseHeader;
    ok := w.AppendBytes(ReleaseMagic());
    if !ok { return; }
    assert w.Contents() == ReleaseMagic();
    ok := w.AppendU8(VERSION);
    if !ok { return; }
    ok := w.AppendU32(a);
    if !ok { return; }
    ok := w.AppendU32(b);
    if !ok { return; }
    ok := w.AppendU32(c);
    if !ok { return; }
    ok := w.AppendU32(d);
    if !ok { return; }
    ok := w.AppendU32(e);
    if !ok { return; }
    ok := w.AppendU32(f);
    HeaderIs(a, b, c, d, e, f);
  }

  lemma HeaderIs(a: nat, b: nat, c: nat, d: nat, e: nat, f: nat)
    requires IsU32(a) && IsU32(b) && IsU32(c) && IsU32(d) && IsU32(e) && IsU32(f)
    ensures ReleaseHeader(a, b, c, d, e, f)
         == ReleaseMagic() + [VERSION] + U32(a) + U32(b) + U32(c) + U32(d) + U32(e) + U32(f)
  {
  }

  method BuildRelease(r: Release, out: array<Byte>) returns (ok: bool, size: nat)
    requires ReleaseFits(r)
    modifies out
    ensures ok <==> |EncodeRelease(r)| <= out.Length
    ensures ok ==> size == |EncodeRelease(r)| && out[..size] == EncodeRelease(r)
  {
    hide Writer.Contents, ReleaseHeader, U32;
    size := 0;
    var w := new Writer(out);
    ok := AppendReleaseHeader(w, |r.profile|, |r.fid|, |r.workerIdentity|, |r.wrapKey|, |r.nonce|, |r.ciphertext|);
    if !ok { return; }
    ok := w.AppendBytes(r.profile);
    if !ok { return; }
    ok := w.AppendBytes(r.fid);
    if !ok { return; }
    ok := w.AppendBytes(r.workerIdentity);
    if !ok { return; }
    ok := w.AppendBytes(r.wrapKey);
    if !ok { return; }
    ok := w.AppendBytes(r.nonce);
    if !ok { return; }
    ok := w.AppendBytes(r.ciphertext);
    if !ok { return; }
    size := w.offset;
    w.ContentsAre();
  }

  method AppendPart(w: Writer, part: Bytes) returns (ok: bool)
    requires w.Valid() && Fits(part)
    modifies w, w.out
    ensures w.Valid()
    ensures ok <==> old(w.offset) + 4 + |part| <= w.out.Length
    ensures ok ==> w.Contents() == old(w.Contents()) + U32(|part|) + part
  {
    hide Writer.Contents, U32;
    ok := w.AppendU32(|part|);
    if !ok { return; }
    ok := w.AppendBytes(part);
  }

  /** Used on both sides: the enclave passes its constants, the worker the parsed fields. */
  method BuildAad(profile: Bytes, fid: Bytes, workerIdentity: Bytes, wrapKey: Bytes, out: array<Byte>)
    returns (ok: bool, size: nat)
    requires Fits(profile) && Fits(fid) && Fits(workerIdentity) && Fits(wrapKey)
    modifies out
    ensures ok <==> |Aad(profile, fid, workerIdentity, wrapKey)| <= out.Length
    ensures ok ==> size == |Aad(profile, fid, workerIdentity, wrapKey)|
    ensures ok ==> out[..size] == Aad(profile, fid, workerIdentity, wrapKey)
  {
    hide Tagged;
    ok, size := BuildTagged(AadMagic(), profile, fid, workerIdentity, wrapKey, out);
  }

  method BuildTagged(magic: Bytes, a: Bytes, b: Bytes, c: Bytes, d: Bytes, out: array<Byte>)
    returns (ok: bool, size: nat)
    requires Fits(a) && Fits(b) && Fits(c) && Fits(d)
    modifies out
    ensures ok <==> |Tagged(magic, a, b, c, d)| <= out.Length
    ensures ok ==> size == |Tagged(magic, a, b, c, d)| && out[..size] == Tagged(magic, a, b, c, d)
  {
    hide Writer.Contents, U32;
    size := 0;
    var w := new Writer(out);
    ok := w.AppendBytes(magic);
    if !ok { return; }
    assert w.Contents() == magic;
    ok := AppendPart(w, a);
    if !ok { return; }
    ok := AppendPart(w, b);
    if !ok { return; }
    ok := AppendPart(w, c);
    if !ok { return; }
    ok := AppendPart(w, d);
    if !ok { return; }
    size := w.offset;
    w.ContentsAre();
  }

  method AppendRecord(w: Writer, r: Record) returns (ok: bool)
    requires w.Valid() && RecordFits(r)
    modifies w, w.out
    ensures w.Valid()
    ensures ok <==> old(w.offset) + |EncodeRecord(r)| <= w.out.Length
    ensures ok ==> w.Contents() == old(w.Contents()) + EncodeRecord(r)
  {
    hide Writer.Contents, U32;
    ghost var c := w.Contents();
    ok := w.AppendU32(|r.purpose|);
    if !ok { return; }
    ok := w.AppendU32(|r.identity|);
    if !ok { return; }
    ok := w.AppendU32(|r.privateKey|);
    if !ok { return; }
    ok := w.AppendBytes(r.purpose);
    if !ok { return; }
    ok := w.AppendBytes(r.identity);
    if !ok { return; }
    ok := w.AppendBytes(r.privateKey);
    if !ok { return; }
    Regroup(c, U32(|r.purpose|), U32(|r.identity|), U32(|r.privateKey|), r.purpose, r.identity, r.privateKey);
  }

  lemma Regroup(c: Bytes, x: Bytes, y: Bytes, z: Bytes, u: Bytes, v: Bytes, w: Bytes)
    ensures c + x + y + z + u + v + w == c + (x + y + z + u + v + w)
  {
  }

  /** The key set of a release holds the request key first and the function key second. */
  method BuildKeySet(request: Record, function_: Record, out: array<Byte>) returns (ok: bool, size: nat)
    requires RecordFits(request) && RecordFits(function_)
    modifies out
    ensures ok <==> |EncodeKeySet([request, function_])| <= out.Length
    ensures ok ==> size == |EncodeKeySet([request, function_])|
    ensures ok ==> out[..size] == EncodeKeySet([request, function_])
  {
    hide Writer.Contents, U32, KeySetMagic, EncodeRecord, EncodeKeySet;
    TwoRecords(request, function_);
    size := 0;
    var w := new Writer(out);
    ok := w.AppendBytes(KeySetMagic());
    if !ok { return; }
    assert w.Contents() == KeySetMagic();
    ok := w.AppendU8(VERSION);
    if !ok { return; }
    ok := w.AppendU32(|Profile()|);
    if !ok { return; }
    ok := w.AppendU32(2);
    if !ok { return; }
    ok := w.AppendBytes(Profile());
    if !ok { return; }
    ok := AppendRecord(w, request);
    if !ok { return; }
    ok := AppendRecord(w, function_);
    if !ok { return; }
    size := w.offset;
    w.ContentsAre();
  }

  lemma TwoRecords(a: Record, b: Record)
    requires RecordFits(a) && RecordFits(b)
    ensures EncodeKeySet([a, b]) == KeySetHeader(|Profile()|, 2) + Profile() + EncodeRecord(a) + EncodeRecord(b)
  {
    hide EncodeRecord, KeySetHeader, Profile;
    assert [a, b][..1] == [a] && [a][..0] == [];
    assert EncodeRecords([a]) == EncodeRecord(a);
    assert EncodeRecords([a, b]) == EncodeRecord(a) + EncodeRecord(b);
  }

  // ---------- What an encoded release looks like ----------

  function BodyLen(r: Release): nat {
    |r.profile| + |r.fid| + |r.workerIdentity| + |r.wrapKey| + |r.nonce| + |r.ciphertext|
  }

  /** The release length announced by a header. */
  function Announced(data: Bytes): nat
    requires |data| >= 33
  {
    33 + U32At(data, 9) + U32At(data, 13) + U32At(data, 17) + U32At(data, 21) + U32At(data, 25) + U32At(data, 29)
  }

  predicate HasReleaseMagic(data: Bytes) {
    |data| >= 9 && data[..8] == ReleaseMagic() && data[8] == VERSION
  }

  predicate LengthsAre(data: Bytes, r: Release) {
    && |data| >= 33
    && U32At(data, 9) == |r.profile| && U32At(data, 13) == |r.fid| && U32At(data, 17) == |r.workerIdentity|
    && U32At(data, 21) == |r.wrapKey| && U32At(data, 25) == |r.nonce| && U32At(data, 29) == |r.ciphertext|
  }

  lemma HeaderSlices(a: nat, b: nat, c: nat, d: nat, e: nat, f: nat)
    requires IsU32(a) && IsU32(b) && IsU32(c) && IsU32(d) && IsU32(e) && IsU32(f)
    ensures var h := ReleaseHeader(a, b, c, d, e, f);
      && h[..8] == ReleaseMagic() && h[8] == VERSION && h[9..13] == U32(a) && h[13..17] == U32(b)
      && h[17..21] == U32(c) && h[21..25] == U32(d) && h[25..29] == U32(e) && h[29..33] == U32(f)
  {
    hide U32, ReleaseMagic;
  }

  lemma SliceOfPrefix(h: Bytes, x: Bytes, i: nat, v: nat)
    requires i + 4 <= |h| <= |x| && x[..|h|] == h && IsU32(v) && h[i..i + 4] == U32(v)
    ensures U32At(x, i) == v
  {
    hide U32, U32At;
    assert x[i..i + 4] == x[..|h|][i..i + 4];
    U32Read(x, i, v);
  }

  lemma ReleaseStarts(r: Release, t: Bytes)
    requires ReleaseFits(r)
    ensures var h := ReleaseHeader(|r.profile|, |r.fid|, |r.workerIdentity|, |r.wrapKey|, |r.nonce|, |r.ciphertext|);
            |EncodeRelease(r) + t| >= 33 && (EncodeRelease(r) + t)[..33] == h
    ensures |EncodeRelease(r)| == 33 + BodyLen(r)
  {
    hide ReleaseHeader;
  }

  /** Magic, version and lengths as they can be read back, whatever follows the release. */
  lemma ReleaseShape(r: Release, t: Bytes)
    requires ReleaseFits(r)
    ensures HasReleaseMagic(EncodeRelease(r) + t) && LengthsAre(EncodeRelease(r) + t, r)
    ensures |EncodeRelease(r)| == 33 + BodyLen(r)
  {
    hide ReleaseHeader, EncodeRelease, U32, ReleaseMagic, U32At;
    ReleaseStarts(r, t);
    var x := EncodeRelease(r) + t;
    var h := ReleaseHeader(|r.profile|, |r.fid|, |r.workerIdentity|, |r.wrapKey|, |r.nonce|, |r.ciphertext|);
    HeaderSlices(|r.profile|, |r.fid|, |r.workerIdentity|, |r.wrapKey|, |r.nonce|, |r.ciphertext|);
    assert x[..8] == h[..8] && x[8] == h[8];
    SliceOfPrefix(h, x, 9, |r.profile|);
    SliceOfPrefix(h, x, 13, |r.fid|);
    SliceOfPrefix(h, x, 17, |r.workerIdentity|);
    SliceOfPrefix(h, x, 21, |r.wrapKey|);
    SliceOfPrefix(h, x, 25, |r.nonce|);
    SliceOfPrefix(h, x, 29, |r.ciphertext|);
  }

  /** A byte string starts with at most one release. */
  lemma ReleaseUnique(r: Release, t: Bytes, s: Release, u: Bytes)
    requires ReleaseFits(r) && ReleaseFits(s) && EncodeRelease(r) + t == EncodeRelease(s) + u
    ensures r == s && t == u
  {
    hide EncodeRelease, U32At, HasReleaseMagic, ReleaseHeader;
    ReleaseShape(r, t);
    ReleaseShape(s, u);
    CancelLast(EncodeRelease(r), t, EncodeRelease(s), u);
    SameLengthsUnique(r, s);
  }

  lemma SameLengthsUnique(r: Release, s: Release)
    requires ReleaseFits(r) && ReleaseFits(s) && EncodeRelease(r) == EncodeRelease(s)
    requires |r.profile| == |s.profile| && |r.fid| == |s.fid| && |r.workerIdentity| == |s.workerIdentity|
    requires |r.wrapKey| == |s.wrapKey| && |r.nonce| == |s.nonce| && |r.ciphertext| == |s.ciphertext|
    ensures r == s
  {
    hide ReleaseHeader;
    var h := ReleaseHeader(|r.profile|, |r.fid|, |r.workerIdentity|, |r.wrapKey|, |r.nonce|, |r.ciphertext|);
    var p, q := h + r.profile, h + s.profile;
    CancelLast(p + r.fid + r.workerIdentity + r.wrapKey + r.nonce, r.ciphertext,
               q + s.fid + s.workerIdentity + s.wrapKey + s.nonce, s.ciphertext);
    CancelLast(p + r.fid + r.workerIdentity + r.wrapKey, r.nonce, q + s.fid + s.workerIdentity + s.wrapKey, s.nonce);
    CancelLast(p + r.fid + r.workerIdentity, r.wrapKey, q + s.fid + s.workerIdentity, s.wrapKey);
    CancelLast(p + r.fid, r.workerIdentity, q + s.fid, s.workerIdentity);
    CancelLast(p, r.fid, q, s.fid);
    CancelLast(h, r.profile, h, s.profile);
  }

  // ---------- The worker's and the tools' readers ----------

  predicate WorkerAccepts(r: Release) {
    r.profile == Profile() && |r.wrapKey| == WRAP_KEY_LEN && |r.nonce| == NONCE_LEN && |r.ciphertext| > TAG_LEN
  }

  /** r is the answer to: which acceptable release is data, in full, the encoding of? */
  ghost predicate IsReleaseIn(data: Bytes, r: Option<Release>, accepts: Release -> bool) {
    match r
    case Some(v) => ReleaseFits(v) && accepts(v) && data == EncodeRelease(v)
    case None => forall v :: ReleaseFits(v) && accepts(v) ==> data != EncodeRelease(v)
  }

  /** No release at all when the magic, a length field or the announced total is wrong. */
  lemma NoRelease(data: Bytes, accepts: Release -> bool)
    requires !HasReleaseMagic(data) || |data| < 33 || |data| != Announced(data)
    ensures IsReleaseIn(data, None, accepts)
  {
    hide EncodeRelease, U32At, ReleaseHeader;
    forall v | ReleaseFits(v) && data == EncodeRelease(v)
      ensures false
    {
      assert EncodeRelease(v) + [] == EncodeRelease(v);
      ReleaseShape(v, []);
    }
  }

  lemma OnlyThis(v: Release, accepts: Release -> bool)
    requires ReleaseFits(v)
    ensures IsReleaseIn(EncodeRelease(v), if accepts(v) then Some(v) else None, accepts)
  {
    hide EncodeRelease;
    forall w | ReleaseFits(w) && EncodeRelease(v) == EncodeRelease(w)
      ensures v == w
    {
      ReleaseUnique(v, [], w, []);
    }
  }

  method ReadReleaseHeader(rd: Reader) returns (ok: bool, a: nat, b: nat, c: nat, d: nat, e: nat, f: nat)
    requires rd.Valid() && rd.offset == 9 && rd.Done() == ReleaseMagic() + [VERSION]
    modifies rd
    ensures rd.Valid() && IsU32(a) && IsU32(b) && IsU32(c) && IsU32(d) && IsU32(e) && IsU32(f)
    ensures ok <==> |rd.data| >= 33
    ensures ok ==> rd.Done() == ReleaseHeader(a, b, c, d, e, f)
    ensures ok ==> Announced(rd.data) == 33 + a + b + c + d + e + f
  {
    hide Reader.Done, U32, U32At, ReleaseMagic, ReleaseHeader;
    a, b, c, d, e, f := 0, 0, 0, 0, 0, 0;
    ok, a := rd.ReadU32();
    if !ok { return; }
    ok, b := rd.ReadU32();
    if !ok { return; }
    ok, c := rd.ReadU32();
    if !ok { return; }
    ok, d := rd.ReadU32();
    if !ok { return; }
    ok, e := rd.ReadU32();
    if !ok { return; }
    ok, f := rd.ReadU32();
    HeaderIs(a, b, c, d, e, f);
  }

  /** The worker's reader accepts exactly the encodings of acceptable releases. */
  method ParseRelease(release: Bytes) returns (r: Option<Release>)
    ensures IsReleaseIn(release, r, WorkerAccepts)
  {
    hide Reader.Done, ReleaseMagic, ReleaseHeader, IsReleaseIn, Profile;
    if |release| < 9 || release[..8] != ReleaseMagic() || release[8] != VERSION {
      NoRelease(release, WorkerAccepts);
      return None;
    }
    var rd := new Reader(release);
    rd.Skip(9);
    assert rd.Done() == ReleaseMagic() + [VERSION];
    var ok, a, b, c, d, e, f := ReadReleaseHeader(rd);
    if !ok {
      NoRelease(release, WorkerAccepts);
      return None;
    }
    var v := TakeRelease(rd, a, b, c, d, e, f);
    if v.None? || rd.offset != |release| {
      NoRelease(release, WorkerAccepts);
      return None;
    }
    OnlyThis(v.value, WorkerAccepts);
    rd.AllDone();
    if WorkerAccepts(v.value) {
      r := v;
    } else {
      r := None;
    }
  }

  /** The six variable parts, in the order of their lengths. */
  method TakeRelease(rd: Reader, a: nat, b: nat, c: nat, d: nat, e: nat, f: nat) returns (r: Option<Release>)
    requires rd.Valid() && rd.offset == 33
    requires IsU32(a) && IsU32(b) && IsU32(c) && IsU32(d) && IsU32(e) && IsU32(f)
    requires rd.Done() == ReleaseHeader(a, b, c, d, e, f)
    modifies rd
    ensures rd.Valid()
    ensures r.Some? <==> 33 + a + b + c + d + e + f <= |rd.data|
    ensures r.Some? ==> rd.offset == 33 + a + b + c + d + e + f
    ensures r.Some? ==> ReleaseFits(r.value) && rd.Done() == EncodeRelease(r.value)
  {
    hide Reader.Done, ReleaseHeader;
    r := None;
    var ok, profile := rd.TakeBytes(a);
    if !ok { return; }
    var fid, workerIdentity, wrapKey, nonce, ciphertext;
    ok, fid := rd.TakeBytes(b);
    if !ok { return; }
    ok, workerIdentity := rd.TakeBytes(c);
    if !ok { return; }
    ok, wrapKey := rd.TakeBytes(d);
    if !ok { return; }
    ok, nonce := rd.TakeBytes(e);
    if !ok { return; }
    ok, ciphertext := rd.TakeBytes(f);
    if !ok { return; }
    r := Some(Release(profile, fid, workerIdentity, wrapKey, nonce, ciphertext));
  }

  /** What the Python value accepts; utf8 tells the byte strings that decode as text. */
  predicate PythonAccepts(utf8: Bytes -> bool, r: Release) {
    && utf8(r.fid) && utf8(r.workerIdentity)
    && r.profile == Profile() && r.fid != [] && r.workerIdentity != [] && r.wrapKey != []
    && |r.nonce| == NONCE_LEN && r.ciphertext != []
  }

  /** The Python decoder: the announced total must match before any part is taken. */
  method DecodeRelease(utf8: Bytes -> bool, data: Bytes) returns (r: Option<Release>)
    ensures IsReleaseIn(data, r, v => PythonAccepts(utf8, v))
  {
    hide Reader.Done, ReleaseMagic, ReleaseHeader, IsReleaseIn, Profile, U32At;
    ghost var accepts := v => PythonAccepts(utf8, v);
    if |data| < 33 || data[..8] != ReleaseMagic() || data[8] != VERSION {
      NoRelease(data, accepts);
      return None;
    }
    var rd := new Reader(data);
    rd.Skip(9);
    assert rd.Done() == ReleaseMagic() + [VERSION];
    var ok, a, b, c, d, e, f := ReadReleaseHeader(rd);
    if |data| != 33 + a + b + c + d + e + f {
      NoRelease(data, accepts);
      return None;
    }
    var v := TakeRelease(rd, a, b, c, d, e, f);
    OnlyThis(v.value, accepts);
    rd.AllDone();
    if PythonAccepts(utf8, v.value) {
      r := v;
    } else {
      r := None;
    }
  }

  const MAX_RELEASE_LEN: nat := 4096

  /** The response starts with release w. */
  ghost predicate StartsWith(buffer: Bytes, w: Release) {
    ReleaseFits(w) && EncodeRelease(w) <= buffer
  }

  /** The host cuts a response to the release it starts with: the length is right whatever trailer
      follows, and refused exactly when the response does not start with a release of at most
      4096 bytes. */
  method PayloadLen(buffer: Bytes) returns (r: int)
    ensures r >= 0 ==> exists w :: StartsWith(buffer, w) && r == |EncodeRelease(w)| <= 4096
    ensures r < 0 ==> r == -1 && forall w :: StartsWith(buffer, w) ==> |EncodeRelease(w)| > 4096
  {
    hide Reader.Done, ReleaseMagic, ReleaseHeader, Profile, U32At, EncodeRelease;
    r := -1;
    if |buffer| < 9 || buffer[..8] != ReleaseMagic() || buffer[8] != VERSION {
      NoPayload(buffer);
      return;
    }
    var rd := new Reader(buffer);
    rd.Skip(9);
    assert rd.Done() == ReleaseMagic() + [VERSION];
    var ok, a, b, c, d, e, f := ReadReleaseHeader(rd);
    if !ok {
      NoPayload(buffer);
      return;
    }
    var total := 33 + a + b + c + d + e + f;
    if total > |buffer| || total > MAX_RELEASE_LEN {
      NoPayload(buffer);
      return;
    }
    rd.DoneIs();
    ghost var v := StartsWithRelease(buffer, rd.Done(), a, b, c, d, e, f);
    assert StartsWith(buffer, v.value);
    r := total;
  }

  /** A header with room for what it announces is followed by a whole release. */
  lemma StartsWithRelease(data: Bytes, h: Bytes, a: nat, b: nat, c: nat, d: nat, e: nat, f: nat) returns (v: Option<Release>)
    requires IsU32(a) && IsU32(b) && IsU32(c) && IsU32(d) && IsU32(e) && IsU32(f)
    requires h == ReleaseHeader(a, b, c, d, e, f) && h <= data && 33 + a + b + c + d + e + f <= |data|
    ensures v.Some? && ReleaseFits(v.value) && EncodeRelease(v.value) <= data
    ensures |EncodeRelease(v.value)| == 33 + a + b + c + d + e + f
  {
    hide ReleaseHeader, EncodeRelease, U32;
    var i := 33 + a;
    var j := i + b;
    var k := j + c;
    var l := k + d;
    var m := l + e;
    var n := m + f;
    SixSlices(data, 33, i, j, k, l, m, n);
    assert data[..33] == h;
    v := Some(Release(data[33..i], data[i..j], data[j..k], data[k..l], data[l..m], data[m..n]));
    EncodingIs(v.value, h, data[..n]);
    ReleaseStarts(v.value, []);
  }

  lemma EncodingIs(r: Release, h: Bytes, x: Bytes)
    requires ReleaseFits(r)
    requires h == ReleaseHeader(|r.profile|, |r.fid|, |r.workerIdentity|, |r.wrapKey|, |r.nonce|, |r.ciphertext|)
    requires x == h + r.profile + r.fid + r.workerIdentity + r.wrapKey + r.nonce + r.ciphertext
    ensures EncodeRelease(r) == x
  {
    hide ReleaseHeader;
  }

  lemma SixSlices(s: Bytes, h: nat, i: nat, j: nat, k: nat, l: nat, m: nat, n: nat)
    requires h <= i <= j <= k <= l <= m <= n <= |s|
    ensures s[..h] + s[h..i] + s[i..j] + s[j..k] + s[k..l] + s[l..m] + s[m..n] == s[..n]
  {
    Extend(s, h, i);
    Extend(s, i, j);
    Extend(s, j, k);
    Extend(s, k, l);
    Extend(s, l, m);
    Extend(s, m, n);
  }

  lemma NoPayload(buffer: Bytes)
    requires !HasReleaseMagic(buffer) || |buffer| < 33 || Announced(buffer) > |buffer| || Announced(buffer) > MAX_RELEASE_LEN
    ensures forall w :: StartsWith(buffer, w) ==> |EncodeRelease(w)| > 4096
  {
    hide EncodeRelease, U32At;
    forall w | StartsWith(buffer, w) && |EncodeRelease(w)| <= MAX_RELEASE_LEN
      ensures false
    {
      var n := |EncodeRelease(w)|;
      assert buffer == EncodeRelease(w) + buffer[n..];
      ReleaseShape(w, buffer[n..]);
    }
  }
}
