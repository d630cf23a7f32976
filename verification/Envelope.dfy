/** The envelope that carries a key to a BF-IBE identity: its bytes, its associated data, and the
    three readers of the worker, the Python library and the client tool. */
module Envelopes {
  import opened ByteStrings
  import opened Wire
  import opened Wrappers

  // ---------- Format ----------

  datatype Envelope = Envelope(profile: Bytes, purpose: Bytes, identity: Bytes, context: Bytes,
                               c1: Bytes, nonce: Bytes, ciphertext: Bytes)

  function EnvelopeMagic(): (b: Bytes)
    ensures |b| == 8
  {
    Ascii("ASBFIBE1")
  }

  function EnvelopeAadMagic(): (b: Bytes)
    ensures |b| == 19
  {
    Ascii("ASYNCS/BFIBE/AAD/v1")
  }

  predicate EnvelopeFits(e: Envelope) {
    && Fits(e.profile) && Fits(e.purpose) && Fits(e.identity) && Fits(e.context)
    && Fits(e.c1) && Fits(e.nonce) && Fits(e.ciphertext)
  }

  predicate SevenU32(a: int, b: int, c: int, d: int, e: int, f: int, g: int) {
    IsU32(a) && IsU32(b) && IsU32(c) && IsU32(d) && IsU32(e) && IsU32(f) && IsU32(g)
  }

  function EnvelopeHeader(a: nat, b: nat, c: nat, d: nat, e: nat, f: nat, g: nat): (h: Bytes)
    requires SevenU32(a, b, c, d, e, f, g)
    ensures |h| == 37
  {
    EnvelopeMagic() + [VERSION] + U32(a) + U32(b) + U32(c) + U32(d) + U32(e) + U32(f) + U32(g)
  }

  function HeaderOf(e: Envelope): (h: Bytes)
    requires EnvelopeFits(e)
    ensures |h| == 37
  {
    EnvelopeHeader(|e.profile|, |e.purpose|, |e.identity|, |e.context|, |e.c1|, |e.nonce|, |e.ciphertext|)
  }

  function EncodeEnvelope(e: Envelope): Bytes
    requires EnvelopeFits(e)
  {
    HeaderOf(e) + e.profile + e.purpose + e.identity + e.context + e.c1 + e.nonce + e.ciphertext
  }

  /** The associated data that ties the sealed key to purpose, identity and context. */
  function EnvelopeAad(e: Envelope): (r: Bytes)
    requires EnvelopeFits(e)
    ensures |r| == 35 + |e.profile| + |e.purpose| + |e.identity| + |e.context|
  {
    Tagged(EnvelopeAadMagic(), e.profile, e.purpose, e.identity, e.context)
  }

  /** Envelopes with the same associated data agree in profile, purpose, identity and context. */
  lemma EnvelopeAadInjective(e: Envelope, f: Envelope)
    requires EnvelopeFits(e) && EnvelopeFits(f) && EnvelopeAad(e) == EnvelopeAad(f)
    ensures e.profile == f.profile && e.purpose == f.purpose && e.identity == f.identity && e.context == f.context
  {
    hide Tagged;
    TaggedInjective(EnvelopeAadMagic(), e.profile, e.purpose, e.identity, e.context,
                    f.profile, f.purpose, f.identity, f.context);
  }

  /** The associated data of an envelope is never that of a release. */
  lemma AadsApart(e: Envelope, profile: Bytes, fid: Bytes, workerIdentity: Bytes, wrapKey: Bytes)
    requires EnvelopeFits(e) && Fits(profile) && Fits(fid) && Fits(workerIdentity) && Fits(wrapKey)
    ensures EnvelopeAad(e) != Aad(profile, fid, workerIdentity, wrapKey)
  {
    hide U32;
    var x, y := EnvelopeAad(e), Aad(profile, fid, workerIdentity, wrapKey);
    assert x[13] == EnvelopeAadMagic()[13] == 'A' as int;
    assert y[13] == AadMagic()[13] == 'K' as int;
  }

  // ---------- What an encoded envelope looks like ----------

  predicate IsEnvelope(data: Bytes) {
    |data| >= 9 && data[..8] == EnvelopeMagic() && data[8] == VERSION
  }

  /** The envelope length announced by a header. */
  function AnnouncedEnvelope(data: Bytes): nat
    requires |data| >= 37
  {
    37 + U32At(data, 9) + U32At(data, 13) + U32At(data, 17) + U32At(data, 21) + U32At(data, 25) + U32At(data, 29)
    + U32At(data, 33)
  }

  predicate EnvelopeLengthsAre(data: Bytes, e: Envelope) {
    && |data| >= 37
    && U32At(data, 9) == |e.profile| && U32At(data, 13) == |e.purpose| && U32At(data, 17) == |e.identity|
    && U32At(data, 21) == |e.context| && U32At(data, 25) == |e.c1| && U32At(data, 29) == |e.nonce|
    && U32At(data, 33) == |e.ciphertext|
  }

  lemma EnvelopeSlices(a: nat, b: nat, c: nat, d: nat, e: nat, f: nat, g: nat)
    requires SevenU32(a, b, c, d, e, f, g)
    ensures var h := EnvelopeHeader(a, b, c, d, e, f, g);
      && h[..8] == EnvelopeMagic() && h[8] == VERSION && h[9..13] == U32(a) && h[13..17] == U32(b)
      && h[17..21] == U32(c) && h[21..25] == U32(d) && h[25..29] == U32(e) && h[29..33] == U32(f) && h[33..37] == U32(g)
  {
    hide U32, EnvelopeMagic;
  }

  lemma EnvelopeStarts(e: Envelope, t: Bytes)
    requires EnvelopeFits(e)
    ensures |EncodeEnvelope(e)| ==
            37 + |e.profile| + |e.purpose| + |e.identity| + |e.context| + |e.c1| + |e.nonce| + |e.ciphertext|
    ensures (EncodeEnvelope(e) + t)[..37] == HeaderOf(e)
  {
    hide HeaderOf;
  }

  /** Magic, version and lengths as they can be read back, whatever follows the envelope. */
  lemma EnvelopeShape(e: Envelope, t: Bytes)
    requires EnvelopeFits(e)
    ensures IsEnvelope(EncodeEnvelope(e) + t) && EnvelopeLengthsAre(EncodeEnvelope(e) + t, e)
    ensures |EncodeEnvelope(e)| ==
            37 + |e.profile| + |e.purpose| + |e.identity| + |e.context| + |e.c1| + |e.nonce| + |e.ciphertext|
  {
    hide EnvelopeHeader, EncodeEnvelope, U32, EnvelopeMagic, U32At;
    EnvelopeStarts(e, t);
    var x, h := EncodeEnvelope(e) + t, HeaderOf(e);
    EnvelopeSlices(|e.profile|, |e.purpose|, |e.identity|, |e.context|, |e.c1|, |e.nonce|, |e.ciphertext|);
    assert x[..8] == h[..8] && x[8] == h[8];
    SliceOfPrefix(h, x, 9, |e.profile|);
    SliceOfPrefix(h, x, 13, |e.purpose|);
    SliceOfPrefix(h, x, 17, |e.identity|);
    SliceOfPrefix(h, x, 21, |e.context|);
    SliceOfPrefix(h, x, 25, |e.c1|);
    SliceOfPrefix(h, x, 29, |e.nonce|);
    SliceOfPrefix(h, x, 33, |e.ciphertext|);
  }

  /** A byte string starts with at most one envelope. */
  lemma EnvelopeUnique(e: Envelope, t: Bytes, f: Envelope, u: Bytes)
    requires EnvelopeFits(e) && EnvelopeFits(f) && EncodeEnvelope(e) + t == EncodeEnvelope(f) + u
    ensures e == f && t == u
  {
    hide EncodeEnvelope, U32At, IsEnvelope, EnvelopeHeader;
    EnvelopeShape(e, t);
    EnvelopeShape(f, u);
    CancelLast(EncodeEnvelope(e), t, EncodeEnvelope(f), u);
    SameSizesUnique(e, f);
  }

  lemma SameSizesUnique(e: Envelope, f: Envelope)
    requires EnvelopeFits(e) && EnvelopeFits(f) && EncodeEnvelope(e) == EncodeEnvelope(f)
    requires |e.profile| == |f.profile| && |e.purpose| == |f.purpose| && |e.identity| == |f.identity|
    requires |e.context| == |f.context| && |e.c1| == |f.c1| && |e.nonce| == |f.nonce|
    requires |e.ciphertext| == |f.ciphertext|
    ensures e == f
  {
    hide EnvelopeHeader;
    var p, q := HeaderOf(e) + e.profile, HeaderOf(f) + f.profile;
    var r, s := p + e.purpose + e.identity, q + f.purpose + f.identity;
    CancelLast(r + e.context + e.c1 + e.nonce, e.ciphertext, s + f.context + f.c1 + f.nonce, f.ciphertext);
    CancelLast(r + e.context + e.c1, e.nonce, s + f.context + f.c1, f.nonce);
    CancelLast(r + e.context, e.c1, s + f.context, f.c1);
    CancelLast(r, e.context, s, f.context);
    CancelLast(p + e.purpose, e.identity, q + f.purpose, f.identity);
    CancelLast(p, e.purpose, q, f.purpose);
    CancelLast(HeaderOf(e), e.profile, HeaderOf(f), f.profile);
  }

  // ---------- The readers ----------

  predicate AllowedPurpose(purpose: Bytes) {
    purpose == RequestPurpose() || purpose == FunctionPurpose()
  }

  predicate WorkerTakesEnvelope(e: Envelope) {
    && e.profile == Profile() && AllowedPurpose(e.purpose)
    && e.identity != [] && e.c1 != [] && |e.nonce| == NONCE_LEN && |e.ciphertext| > TAG_LEN
  }

  /** utf8 tells the byte strings that decode as text. */
  predicate PythonTakesEnvelope(utf8: Bytes -> bool, e: Envelope) {
    && utf8(e.identity)
    && e.profile == Profile() && AllowedPurpose(e.purpose)
    && e.identity != [] && e.c1 != [] && |e.nonce| == NONCE_LEN && e.ciphertext != []
  }

  predicate ToolTakesEnvelope(e: Envelope) {
    e.profile == Profile()
  }

  /** r is the answer to: which acceptable envelope is data, in full, the encoding of? */
  ghost predicate IsEnvelopeIn(data: Bytes, r: Option<Envelope>, accepts: Envelope -> bool) {
    match r
    case Some(e) => EnvelopeFits(e) && accepts(e) && data == EncodeEnvelope(e)
    case None => forall e :: EnvelopeFits(e) && accepts(e) ==> data != EncodeEnvelope(e)
  }

  lemma NoEnvelope(data: Bytes, accepts: Envelope -> bool)
    requires !IsEnvelope(data) || |data| < 37 || |data| != AnnouncedEnvelope(data)
    ensures IsEnvelopeIn(data, None, accepts)
  {
    hide EncodeEnvelope, U32At, EnvelopeHeader;
    forall e | EnvelopeFits(e) && data == EncodeEnvelope(e)
      ensures false
    {
      assert EncodeEnvelope(e) + [] == EncodeEnvelope(e);
      EnvelopeShape(e, []);
    }
  }

  lemma OnlyThisEnvelope(e: Envelope, accepts: Envelope -> bool)
    requires EnvelopeFits(e)
    ensures IsEnvelopeIn(EncodeEnvelope(e), if accepts(e) then Some(e) else None, accepts)
  {
    hide EncodeEnvelope;
    forall f | EnvelopeFits(f) && EncodeEnvelope(e) == EncodeEnvelope(f)
      ensures e == f
    {
      EnvelopeUnique(e, [], f, []);
    }
  }

  /** The acceptable envelope that data encodes, if there is one. */
  ghost function Decoded(data: Bytes): (r: Option<Envelope>)
    ensures IsEnvelopeIn(data, r, WorkerTakesEnvelope)
  {
    if exists e :: EnvelopeFits(e) && WorkerTakesEnvelope(e) && data == EncodeEnvelope(e) then
      var e :| EnvelopeFits(e) && WorkerTakesEnvelope(e) && data == EncodeEnvelope(e);
      Some(e)
    else
      None
  }

  lemma DecodedIs(data: Bytes, r: Option<Envelope>)
    requires IsEnvelopeIn(data, r, WorkerTakesEnvelope)
    ensures Decoded(data) == r
  {
    hide EncodeEnvelope, WorkerTakesEnvelope;
    var d := Decoded(data);
    if d.Some? && r.Some? {
      EnvelopeUnique(d.value, [], r.value, []);
    }
  }

  method ReadEnvelopeHeader(rd: Reader) returns (ok: bool, a: nat, b: nat, c: nat, d: nat, e: nat, f: nat, g: nat)
    requires rd.Valid() && rd.offset == 9 && rd.Done() == EnvelopeMagic() + [VERSION]
    modifies rd
    ensures rd.Valid() && SevenU32(a, b, c, d, e, f, g)
    ensures ok <==> |rd.data| >= 37
    ensures ok ==> rd.Done() == EnvelopeHeader(a, b, c, d, e, f, g)
    ensures ok ==> AnnouncedEnvelope(rd.data) == 37 + a + b + c + d + e + f + g
  {
    hide Reader.Done, U32, U32At, EnvelopeMagic;
    a, b, c, d, e, f, g := 0, 0, 0, 0, 0, 0, 0;
    ok, a := rd.ReadU32();
    if !ok { return; }
    ok, b := rd.ReadU32();
    if !ok { return; }
    ok, c := rd.ReadU32();
    if !ok { return; }
    ok, d := rd.ReadU32();
    if !ok { return; }
    ok, e := rd.ReadU32();
    if !ok { return; }
    ok, f := rd.ReadU32();
    if !ok { return; }
    ok, g := rd.ReadU32();
  }

  /** The four parts that the associated data repeat. */
  method TakeFront(rd: Reader, a: nat, b: nat, c: nat, d: nat)
    returns (ok: bool, profile: Bytes, purpose: Bytes, identity: Bytes, context: Bytes)
    requires rd.Valid()
    modifies rd
    ensures rd.Valid()
    ensures ok <==> old(rd.offset) + a + b + c + d <= |rd.data|
    ensures ok ==> |profile| == a && |purpose| == b && |identity| == c && |context| == d
    ensures ok ==> rd.offset == old(rd.offset) + a + b + c + d
    ensures ok ==> rd.Done() == old(rd.Done()) + profile + purpose + identity + context
  {
    hide Reader.Done;
    profile, purpose, identity, context := [], [], [], [];
    ok, profile := rd.TakeBytes(a);
    if !ok { return; }
    ok, purpose := rd.TakeBytes(b);
    if !ok { return; }
    ok, identity := rd.TakeBytes(c);
    if !ok { return; }
    ok, context := rd.TakeBytes(d);
  }

  /** The sealed key and what opens it. */
  method TakeSealed(rd: Reader, e: nat, f: nat, g: nat) returns (ok: bool, c1: Bytes, nonce: Bytes, ciphertext: Bytes)
    requires rd.Valid()
    modifies rd
    ensures rd.Valid()
    ensures ok <==> old(rd.offset) + e + f + g <= |rd.data|
    ensures ok ==> |c1| == e && |nonce| == f && |ciphertext| == g
    ensures ok ==> rd.offset == old(rd.offset) + e + f + g
    ensures ok ==> rd.Done() == old(rd.Done()) + c1 + nonce + ciphertext
  {
    hide Reader.Done;
    c1, nonce, ciphertext := [], [], [];
    ok, c1 := rd.TakeBytes(e);
    if !ok { return; }
    ok, nonce := rd.TakeBytes(f);
    if !ok { return; }
    ok, ciphertext := rd.TakeBytes(g);
  }

  /** The seven variable parts, in the order of their lengths. */
  method TakeEnvelope(rd: Reader, a: nat, b: nat, c: nat, d: nat, e: nat, f: nat, g: nat) returns (r: Option<Envelope>)
    requires rd.Valid() && rd.offset == 37 && SevenU32(a, b, c, d, e, f, g)
    requires rd.Done() == EnvelopeHeader(a, b, c, d, e, f, g)
    modifies rd
    ensures rd.Valid()
    ensures r.Some? <==> 37 + a + b + c + d + e + f + g <= |rd.data|
    ensures r.Some? ==> rd.offset == 37 + a + b + c + d + e + f + g
    ensures r.Some? ==> EnvelopeFits(r.value) && rd.Done() == EncodeEnvelope(r.value)
  {
    hide Reader.Done, EnvelopeHeader;
    r := None;
    var ok, profile, purpose, identity, context := TakeFront(rd, a, b, c, d);
    if !ok { return; }
    var c1, nonce, ciphertext;
    ok, c1, nonce, ciphertext := TakeSealed(rd, e, f, g);
    if !ok { return; }
    r := Some(Envelope(profile, purpose, identity, context, c1, nonce, ciphertext));
  }

  /** The worker's reader accepts exactly the encodings of acceptable envelopes. */
  method ParseEnvelope(data: Bytes) returns (r: Option<Envelope>)
    ensures IsEnvelopeIn(data, r, WorkerTakesEnvelope)
  {
    hide Reader.Done, EnvelopeMagic, EnvelopeHeader, IsEnvelopeIn, Profile;
    if |data| < 9 || data[..8] != EnvelopeMagic() || data[8] != VERSION {
      NoEnvelope(data, WorkerTakesEnvelope);
      return None;
    }
    var rd := new Reader(data);
    rd.Skip(9);
    assert rd.Done() == EnvelopeMagic() + [VERSION];
    var ok, a, b, c, d, e, f, g := ReadEnvelopeHeader(rd);
    if !ok {
      NoEnvelope(data, WorkerTakesEnvelope);
      return None;
    }
    var v := TakeEnvelope(rd, a, b, c, d, e, f, g);
    if v.None? || rd.offset != |data| {
      NoEnvelope(data, WorkerTakesEnvelope);
      return None;
    }
    OnlyThisEnvelope(v.value, WorkerTakesEnvelope);
    rd.AllDone();
    if WorkerTakesEnvelope(v.value) {
      r := v;
    } else {
      r := None;
    }
  }

  /** The Python decoder: the announced total must match before any part is taken. */
  method DecodeEnvelope(utf8: Bytes -> bool, data: Bytes) returns (r: Option<Envelope>)
    ensures IsEnvelopeIn(data, r, e => PythonTakesEnvelope(utf8, e))
  {
    hide Reader.Done, EnvelopeMagic, EnvelopeHeader, IsEnvelopeIn, Profile, U32At;
    ghost var accepts := e => PythonTakesEnvelope(utf8, e);
    if |data| < 37 || data[..8] != EnvelopeMagic() || data[8] != VERSION {
      NoEnvelope(data, accepts);
      return None;
    }
    var rd := new Reader(data);
    rd.Skip(9);
    assert rd.Done() == EnvelopeMagic() + [VERSION];
    var ok, a, b, c, d, e, f, g := ReadEnvelopeHeader(rd);
    if |data| != 37 + a + b + c + d + e + f + g {
      NoEnvelope(data, accepts);
      return None;
    }
    var v := TakeEnvelope(rd, a, b, c, d, e, f, g);
    OnlyThisEnvelope(v.value, accepts);
    rd.AllDone();
    if PythonTakesEnvelope(utf8, v.value) {
      r := v;
    } else {
      r := None;
    }
  }

  /** The client tool asks for the profile alone, which it compares before it takes the other parts. */
  method DecodeEnvelopeTool(data: Bytes) returns (r: Option<Envelope>)
    ensures IsEnvelopeIn(data, r, ToolTakesEnvelope)
  {
    hide Reader.Done, EnvelopeMagic, EnvelopeHeader, IsEnvelopeIn, Profile, U32At;
    if |data| < 37 || data[..8] != EnvelopeMagic() || data[8] != VERSION {
      NoEnvelope(data, ToolTakesEnvelope);
      return None;
    }
    var rd := new Reader(data);
    rd.Skip(9);
    assert rd.Done() == EnvelopeMagic() + [VERSION];
    var ok, a, b, c, d, e, f, g := ReadEnvelopeHeader(rd);
    var v := TakeEnvelope(rd, a, b, c, d, e, f, g);
    if v.None? || rd.offset != |data| {
      NoEnvelope(data, ToolTakesEnvelope);
      return None;
    }
    OnlyThisEnvelope(v.value, ToolTakesEnvelope);
    rd.AllDone();
    if v.value.profile == Profile() {
      r := v;
    } else {
      r := None;
    }
  }
}
