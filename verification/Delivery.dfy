/** From the key management enclave through the host to the worker, and from the client to the worker:
    the keys that were extracted are the keys that are imported, and they open what the client sealed. */
module Delivery {
  import opened ByteStrings
  import opened Envelopes
  import Kms
  import opened Wire
  import opened KeySets
  import opened KeyRelease
  import opened WorkerEnclave
  import opened Wrappers

  function Sent(c: Crypto, fid: Bytes, lbl: Bytes): seq<Record> {
    [RequestRecord(c, fid), FunctionRecord(c, lbl)]
  }

  lemma SentIsTaken(c: Crypto, fid: Bytes, lbl: Bytes)
    requires Sized(c) && |fid| <= MAX_FID && |lbl| <= 65
    requires c.extract(RequestIdentity(fid)) != [] && c.extract(FunctionIdentity(lbl)) != []
    ensures Takes(WorkerFor(fid), Sent(c, fid, lbl))
    ensures LastKey(Sent(c, fid, lbl), RequestPurpose()) == c.extract(RequestIdentity(fid))
    ensures LastKey(Sent(c, fid, lbl), FunctionPurpose()) == c.extract(FunctionIdentity(lbl))
  {
    hide Ascii, RequestPurpose, FunctionPurpose, LastKey;
    TwoPurposes();
    var a, b := RequestRecord(c, fid), FunctionRecord(c, lbl);
    assert Importable(fid, a) && Importable(fid, b);
    assert Sent(c, fid, lbl) == [a] + [b] && [a] == [] + [a];
    LastKeySnoc([a], b, RequestPurpose());
    LastKeySnoc([a], b, FunctionPurpose());
    LastKeySnoc([], a, RequestPurpose());
  }

  /** What the key management enclave releases for a worker's key loads in that worker. */
  lemma ReleaseLoads(c: Crypto, s: State, mrenclave: Bytes, fid: Bytes, lbl: Bytes,
                     secret: Bytes, nonce: Bytes, r: Release)
    requires Lawful(c) && Fits(fid) && |mrenclave| == 32 && |nonce| == NONCE_LEN && s.keypairReady
    requires Releases(c, mrenclave, fid, lbl, c.publicOf(s.privateKey), secret, nonce, r)
    ensures LoadsAs(c, s, EncodeRelease(r), fid, r, Sent(c, fid, lbl))
  {
    hide Ascii, EncodeRelease, Profile, Aad, Hex, Takes, RequestRecord, FunctionRecord;
    SentIsTaken(c, fid, lbl);
    var rs := Sent(c, fid, lbl);
    var p := EncodeKeySet(rs);
    SetIsNonempty(rs);
    hide EncodeKeySet;
    var pub := c.publicOf(secret);
    var aad := Aad(Profile(), fid, WorkerIdentity(mrenclave), pub);
    var shared := c.dh(s.privateKey, pub).value;
    var sealed := c.seal(shared[..16], nonce, aad, p);
    assert r.ciphertext[..|p|] == sealed.0 && r.ciphertext[|p|..] == sealed.1;
    assert c.open(shared[..16], nonce, aad, sealed.0, sealed.1) == Some(p);
  }

  lemma SetIsNonempty(rs: seq<Record>)
    requires RecordsFit(rs) && IsU32(|rs|)
    ensures |EncodeKeySet(rs)| >= 35
  {
    hide EncodeRecords, KeySetHeader, Profile;
  }

  /** What the enclave releases, written out: both keys in one set, sealed under the first half of the shared
      secret with the release's other fields as associated data. */
  lemma ReleaseContents(c: Crypto, mrenclave: Bytes, fid: Bytes, lbl: Bytes, workerKey: Bytes,
                        secret: Bytes, nonce: Bytes, r: Release)
    requires Sized(c) && Fits(fid) && |mrenclave| == 32 && |nonce| == 12
    requires Releases(c, mrenclave, fid, lbl, workerKey, secret, nonce, r)
    ensures |fid| <= 54 && |lbl| <= 65 && c.dh(secret, workerKey).Some?
    ensures var request, function_ := Ascii("fid:") + fid, Ascii("label:") + lbl;
            var rs := [Record(Ascii("request-key"), request, c.extract(request)),
                       Record(Ascii("function-key"), function_, c.extract(function_))];
            var profile, identity := Ascii("bfibe-mcl-bls12381"), Ascii("mrenclave:") + Hex(mrenclave);
            var aad := Tagged(Ascii("ASYNCS/BFIBE/KEYRELEASE/AAD/v1"), profile, fid, identity, c.publicOf(secret));
            && RecordsFit(rs)
            && var (sealed, tag) := c.seal(c.dh(secret, workerKey).value[..16], nonce, aad, EncodeKeySet(rs));
            r == Release(profile, fid, identity, c.publicOf(secret), nonce, sealed + tag)
  {
    hide Ascii, Hex, EncodeKeySet, EncodeRelease, Tagged;
  }

  /** What a worker loads was sealed for it under its own fid: the release names the fid, has the one profile,
      and its ciphertext opens under the shared secret and the release's other fields. */
  lemma LoadedIsOwn(c: Crypto, s: State, release: Bytes, fid: Bytes, v: Release, rs: seq<Record>)
    requires LoadsAs(c, s, release, fid, v, rs)
    ensures s.keypairReady && v.fid == fid && v.profile == Ascii("bfibe-mcl-bls12381")
    ensures |v.wrapKey| == 64 && |v.nonce| == 12 && |v.ciphertext| > 16
    ensures Fits(v.fid) && Fits(v.workerIdentity)
    ensures var aad := Tagged(Ascii("ASYNCS/BFIBE/KEYRELEASE/AAD/v1"), v.profile, v.fid, v.workerIdentity, v.wrapKey);
            var shared := c.dh(s.privateKey, v.wrapKey);
            var n := |v.ciphertext| - 16;
            && |aad| <= 256 && shared.Some? && |shared.value| >= 16 && RecordsFit(rs) && IsU32(|rs|)
            && c.open(shared.value[..16], v.nonce, aad, v.ciphertext[..n], v.ciphertext[n..]) == Some(EncodeKeySet(rs))
  {
    hide Ascii, EncodeKeySet, EncodeRelease, Tagged, LastKey, AllGood;
  }

  /** A byte string loads in at most one way. */
  lemma LoadUnique(c: Crypto, s: State, release: Bytes, fid: Bytes, v: Release, rs: seq<Record>,
                   w: Release, ss: seq<Record>)
    requires LoadsAs(c, s, release, fid, v, rs) && LoadsAs(c, s, release, fid, w, ss)
    ensures v == w && rs == ss
  {
    hide EncodeRelease, EncodeKeySet, OpenRelease, WorkerAccepts;
    ReleaseUnique(v, [], w, []);
    KeySetUnique(rs, ss);
  }

  /** The keys of fid and label as a fetch leaves them. */
  ghost predicate Fetched(c: Crypto, s: State, fid: Bytes, lbl: Bytes) {
    && s.bfibeLoaded && s.bfibeFid == fid
    && s.requestSk == c.extract(Ascii("fid:") + fid) && s.functionSk == c.extract(Ascii("label:") + lbl)
    && s.requestSk != [] && s.functionSk != []
  }

  /** What a fetch makes of a worker's state: the two keys, the fid, and the cached code only where the
      fid that was loaded has the same first 128 characters. */
  function WithKeys(c: Crypto, s: State, fid: Bytes, lbl: Bytes): State {
    s.(requestSk := c.extract(Ascii("fid:") + fid), functionSk := c.extract(Ascii("label:") + lbl),
       bfibeFid := fid, bfibeLoaded := true,
       cache := if s.bfibeLoaded && Cut(s.bfibeFid, 128) == Cut(fid, 128) then s.cache else None)
  }

  lemma LoadedKeys(c: Crypto, s: State, fid: Bytes, lbl: Bytes)
    requires Sized(c) && |fid| <= 54 && |lbl| <= 65
    requires c.extract(Ascii("fid:") + fid) != [] && c.extract(Ascii("label:") + lbl) != []
    ensures Loaded(s, fid, Sent(c, fid, lbl)) == WithKeys(c, s, fid, lbl)
  {
    hide Sent, LastKey, Cut, Ascii, RequestPurpose, FunctionPurpose;
    SentIsTaken(c, fid, lbl);
    assert Cut(fid, 127) == fid;
  }

  /** From the extraction of the keys to their import, the gates passed. */
  method Carry(c: Crypto, mrenclave: Bytes, worker: Worker, fid: Bytes, lbl: Bytes,
               secret: Bytes, nonce: Bytes, trailer: Bytes) returns (ok: bool)
    requires Lawful(c) && Sized(c) && worker.c == c && worker.keypairReady && |mrenclave| == 32
    requires Fits(fid) && Fits(lbl) && |nonce| == NONCE_LEN
    modifies worker
    ensures ok <==>
              && |fid| <= 54 && |lbl| <= 65
              && c.extract(Ascii("fid:") + fid) != [] && c.extract(Ascii("label:") + lbl) != []
              && c.dh(secret, c.publicOf(old(worker.privateKey))).Some?
    ensures ok ==> worker.Now() == Loaded(old(worker.Now()), fid, Sent(c, fid, lbl))
    ensures !ok ==> worker.Now() == old(worker.Now())
  {
    hide LoadsAs, StartsWith, ReleaseFor, EncodeRelease, Lawful, Sized, Loaded, Ascii;
    ghost var s := worker.Now();
    var pub := c.publicOf(worker.privateKey);
    var out := new Byte[MAX_RELEASE_LEN](_ => 0);
    ghost var r;
    var size;
    ok, size, r := GetBfibeKeyRelease(c, mrenclave, fid, lbl, pub, secret, nonce, out);
    if !ok {
      return;
    }
    var response := out[..size] + trailer;
    OnlyStart(r, trailer);
    var n := PayloadLen(response);
    ReleaseLoads(c, s, mrenclave, fid, lbl, secret, nonce, r);
    assert response[..n] == EncodeRelease(r);
    ghost var w, rs;
    ok, w, rs := worker.EcallLoadBfibeKeyRelease(response[..n], fid);
    LoadUnique(c, s, EncodeRelease(r), fid, r, Sent(c, fid, lbl), w, rs);
  }

  /** One key fetch, gates included. It succeeds exactly when the enclave's state admits the fid, the
      label and this worker's key, and the release can be built, which it cannot for a fid of more
      than 54 bytes; then the worker holds the extracted keys and is loaded for the fid. */
  method FetchKeys(c: Crypto, kms: Kms.Enclave, worker: Worker, fid: Bytes, lbl: Bytes,
                   secret: Bytes, nonce: Bytes, trailer: Bytes) returns (ok: bool)
    requires Lawful(c) && worker.c == c && kms.hash == c.hash && worker.keypairReady
    requires Fits(fid) && Fits(lbl) && |nonce| == NONCE_LEN && Kms.WellSized(kms.Now())
    modifies worker
    ensures ok <==> var pk := c.publicOf(old(worker.privateKey));
                    && Kms.Step(c.hash, kms.Now(), Kms.Event(Kms.GetBfibeKeyRelease(fid, lbl, pk), true)).1 == 0
                    && |fid| <= 54 && |lbl| <= 65
                    && c.extract(Ascii("fid:") + fid) != [] && c.extract(Ascii("label:") + lbl) != []
                    && c.dh(secret, pk).Some?
    ensures ok ==> worker.Now() == WithKeys(c, old(worker.Now()), fid, lbl) && Fetched(c, worker.Now(), fid, lbl)
    ensures !ok ==> worker.Now() == old(worker.Now())
  {
    hide Kms.Step, Kms.Attested, Kms.KeyBound, Kms.Bound, Lawful, Sized, LastKey, Ascii, Loaded, Sent;
    ghost var s := worker.Now();
    LawsHaveSizes(c);
    var pub := c.publicOf(worker.privateKey);
    var gate := kms.EcallGetBfibeKeyRelease(fid, lbl, pub, true);
    ok := gate == 0;
    if !ok {
      return;
    }
    ok := Carry(c, kms.verifiedMrenclave, worker, fid, lbl, secret, nonce, trailer);
    if ok {
      LoadedKeys(c, s, fid, lbl);
    }
  }

  lemma LawsHaveSizes(c: Crypto)
    requires Lawful(c)
    ensures Sized(c)
  {
  }

  /** A response of a release and any trailer starts with that release and no other. */
  lemma OnlyStart(r: Release, trailer: Bytes)
    requires ReleaseFits(r)
    ensures StartsWith(EncodeRelease(r) + trailer, r)
    ensures forall w :: StartsWith(EncodeRelease(r) + trailer, w) ==> w == r
  {
    hide EncodeRelease;
    var x := EncodeRelease(r) + trailer;
    forall w | StartsWith(x, w)
      ensures w == r
    {
      var u := x[|EncodeRelease(w)|..];
      assert x == EncodeRelease(w) + u;
      ReleaseUnique(r, trailer, w, u);
    }
  }

  // ---------- The contexts of a request ----------

  predicate IsDigit(ch: Byte, v: nat) {
    if v < 10 then ch == '0' as int + v else v < 16 && (ch == 'a' as int + v - 10 || ch == 'A' as int + v - 10)
  }

  /** 64 hexadecimal digits of either case stand for the 32 bytes they spell. */
  lemma HexFid(fid: Bytes, b: Bytes)
    requires |fid| == 64 && |b| == 32
    requires forall k :: 0 <= k < 32 ==> IsDigit(fid[2 * k], b[k] / 16) && IsDigit(fid[2 * k + 1], b[k] % 16)
    ensures FidBytes(fid) == b
  {
    hide FidBytes, IsDigit, HexValue;
    forall j | 0 <= j < 32
      ensures HexValue(fid[2 * j]) == b[j] / 16 && HexValue(fid[2 * j + 1]) == b[j] % 16
    {
      DigitValue(fid[2 * j], b[j] / 16);
      DigitValue(fid[2 * j + 1], b[j] % 16);
    }
    AllDigits(fid, b);
    PairsSpell(fid, b);
  }

  lemma AllDigits(fid: Bytes, b: Bytes)
    requires |fid| == 64 && |b| == 32
    requires forall j :: 0 <= j < 32 ==> HexValue(fid[2 * j]) == b[j] / 16 && HexValue(fid[2 * j + 1]) == b[j] % 16
    ensures forall k :: 0 <= k < 64 ==> HexValue(fid[k]) >= 0
  {
    hide HexValue;
    forall k | 0 <= k < 64
      ensures HexValue(fid[k]) >= 0
    {
      var j := k / 2;
      assert k == 2 * j || k == 2 * j + 1;
      assert HexValue(fid[2 * j]) == b[j] / 16 && HexValue(fid[2 * j + 1]) == b[j] % 16;
    }
  }

  lemma PairsSpell(fid: Bytes, b: Bytes)
    requires |fid| == 64 && |b| == 32 && forall k :: 0 <= k < 64 ==> HexValue(fid[k]) >= 0
    requires forall j :: 0 <= j < 32 ==> HexValue(fid[2 * j]) == b[j] / 16 && HexValue(fid[2 * j + 1]) == b[j] % 16
    ensures FidBytes(fid) == b
  {
    hide HexValue;
    var r := FidBytes(fid);
    forall j | 0 <= j < 32
      ensures r[j] == b[j]
    {
      PairByte(b[j]);
    }
  }

  lemma PairByte(x: Byte)
    ensures (x / 16 * 16 + x % 16) % 256 == x
  {
  }

  lemma DigitValue(ch: Byte, v: nat)
    requires IsDigit(ch, v)
    ensures HexValue(ch) == v
  {
  }

  /** Any other fid stands for its first 128 bytes. */
  lemma PlainFid(fid: Bytes, k: nat)
    requires |fid| != 64 || (k < 64 && forall v :: 0 <= v < 16 ==> !IsDigit(fid[k], v))
    ensures FidBytes(fid) == Cut(fid, 128)
  {
    if |fid| == 64 {
      var v := HexValue(fid[k]);
      assert v < 0 || !IsDigit(fid[k], v);
    }
  }

  /** What the code names a worker by is what the request contexts are made of. */
  lemma HexFidComesBack(b: Bytes)
    requires |b| == 32
    ensures FidBytes(Hex(b)) == b
  {
    hide Hex, FidBytes;
    forall k | 0 <= k < 32
      ensures IsDigit(Hex(b)[2 * k], b[k] / 16) && IsDigit(Hex(b)[2 * k + 1], b[k] % 16)
    {
      HexAt(b, k);
    }
    HexFid(Hex(b), b);
  }

  /** "PKG" and the fid's bytes; "REQ", the fid's bytes, the nonce and the hash of the client's key. */
  lemma Contexts(c: Crypto, fid: Bytes, i: Invocation)
    ensures PkgAad(fid) == [0x50, 0x4b, 0x47] + FidBytes(fid)
    ensures ReqAad(c, fid, i) == [0x52, 0x45, 0x51] + FidBytes(fid) + i.nonce + c.hash(i.pkU)
  {
    hide FidBytes;
    assert Ascii("PKG") == [0x50, 0x4b, 0x47] && Ascii("REQ") == [0x52, 0x45, 0x51];
  }

  // ---------- The client's requests ----------

  /** A key sealed for an identity and a context; shared is the point and the hashed pairing value. */
  function SealedEnvelope(c: Crypto, purpose: Bytes, identity: Bytes, context: Bytes, key: Bytes,
                          shared: (Bytes, Bytes), nonce: Bytes): Envelope
    requires Fits(purpose) && Fits(identity) && Fits(context)
  {
    var e := Envelope(Profile(), purpose, identity, context, shared.0, nonce, []);
    var aad := Tagged(EnvelopeAadMagic(), e.profile, e.purpose, e.identity, e.context);
    var sealed := c.seal(Cut(shared.1, 16), nonce, aad, key);
    e.(ciphertext := sealed.0 + sealed.1)
  }

  predicate KeySize(n: nat) {
    n == 16 || n == 32
  }

  /** The client tool. */
  method EncryptKeyEnvelope(c: Crypto, purpose: Bytes, identity: Bytes, context: Bytes, key: Bytes,
                            secret: Bytes, nonce: Bytes) returns (r: Option<Bytes>)
    requires Sized(c) && Fits(purpose) && Fits(identity) && Fits(context)
    ensures r.Some? <==>
              && (purpose == Ascii("request-key") || purpose == Ascii("function-key"))
              && (|key| == 16 || |key| == 32) && |nonce| == 12 && c.encap(identity, secret).Some?
    ensures r.Some? ==>
              var e := SealedEnvelope(c, purpose, identity, context, key, c.encap(identity, secret).value, nonce);
              EnvelopeFits(e) && r.value == EncodeEnvelope(e)
    ensures r.Some? ==>
              var profile := Ascii("bfibe-mcl-bls12381");
              var (point, shared) := c.encap(identity, secret).value;
              var aad := Tagged(Ascii("ASYNCS/BFIBE/AAD/v1"), profile, purpose, identity, context);
              var (sealed, tag) := c.seal(shared[..16], nonce, aad, key);
              var e := Envelope(profile, purpose, identity, context, point, nonce, sealed + tag);
              EnvelopeFits(e) && r.value == EncodeEnvelope(e)
    ensures r.Some? && identity != [] ==>
              var e := SealedEnvelope(c, purpose, identity, context, key, c.encap(identity, secret).value, nonce);
              WorkerTakesEnvelope(e)
  {
    hide Tagged, EncodeEnvelope, Ascii;
    if !AllowedPurpose(purpose) || !KeySize(|key|) {
      return None;
    }
    var shared := c.encap(identity, secret);
    if shared.None? || |nonce| != NONCE_LEN {
      return None;
    }
    r := Some(EncodeEnvelope(SealedEnvelope(c, purpose, identity, context, key, shared.value, nonce)));
  }

  /** The worker holds the private key of this identity, for this purpose. */
  ghost predicate Holds(c: Crypto, s: State, purpose: Bytes, identity: Bytes) {
    && s.bfibeLoaded && c.extract(identity) != []
    && if purpose == RequestPurpose() then
         && s.requestSk == c.extract(identity) && identity == RequestIdentity(s.bfibeFid)
         && |identity| < EXPECTED_IDENTITY_BUFFER
       else
         s.functionSk == c.extract(identity) && Ascii("label:") <= identity
  }

  /** The worker opens what the client sealed for an identity it holds, in that context and no other. */
  lemma SealedOpens(c: Crypto, s: State, cap: Option<Bytes>, purpose: Bytes, identity: Bytes, context: Bytes, key: Bytes,
                    secret: Bytes, nonce: Bytes, context': Bytes)
    requires Lawful(c) && AllowedPurpose(purpose) && Fits(identity) && Fits(context)
    requires KeySize(|key|) && |nonce| == NONCE_LEN
    requires Holds(c, s, purpose, identity) && c.encap(identity, secret).Some? && identity != []
    requires 65 + |identity| + |context| <= ENVELOPE_AAD_BUFFER
    ensures var e := SealedEnvelope(c, purpose, identity, context, key, c.encap(identity, secret).value, nonce);
            EnvelopeFits(e)
            && DecKey(c, s, cap, EncodeEnvelope(e), context') == if context' == context then Some(Pad32(key)) else None
  {
    hide Tagged, EncodeEnvelope, Decoded, Ascii, Pad32;
    LawsHaveSizes(c);
    TwoPurposes();
    var e := SealedEnvelope(c, purpose, identity, context, key, c.encap(identity, secret).value, nonce);
    EnvelopeShape(e, []);
    assert EncodeEnvelope(e) + [] == EncodeEnvelope(e);
    OnlyThisEnvelope(e, WorkerTakesEnvelope);
    DecodedIs(EncodeEnvelope(e), Some(e));
    if context' == context {
      SealedKey(c, c.extract(identity), e, key, identity, secret);
    }
  }

  /** What an envelope needs to open, in full: its context, an identity that fits its purpose and this worker,
      the key for that purpose, associated data that fit their buffer, and a sealed key of 16 or 32 bytes. */
  lemma OpensExactly(c: Crypto, s: State, e: Envelope, context: Bytes, k: Bytes)
    requires Sized(c) && EnvelopeFits(e) && WorkerTakesEnvelope(e)
    ensures var request := e.purpose == Ascii("request-key");
            var sk := if request then s.requestSk else s.functionSk;
            var aad := Tagged(Ascii("ASYNCS/BFIBE/AAD/v1"), e.profile, e.purpose, e.identity, e.context);
            var n := |e.ciphertext| - 16;
            OpenKeyEnvelope(c, s, e, context) == Some(k) <==>
              && e.context == context && sk != [] && |aad| <= 512
              && (if request then e.identity == Ascii("fid:") + s.bfibeFid && |e.identity| < 160
                  else Ascii("label:") <= e.identity)
              && (n == 16 || n == 32) && c.pair(sk, e.c1).Some?
              && exists p ::
                   c.open(c.pair(sk, e.c1).value[..16], e.nonce, aad, e.ciphertext[..n], e.ciphertext[n..]) == Some(p)
                   && |p| == n && k == p + Zeros(32 - n)
  {
    hide Ascii, Tagged;
  }

  lemma SealedKey(c: Crypto, sk: Bytes, e: Envelope, key: Bytes, identity: Bytes, secret: Bytes)
    requires Lawful(c) && EnvelopeFits(e) && KeySize(|key|) && |e.nonce| == NONCE_LEN
    requires sk == c.extract(identity) != [] && c.encap(identity, secret).Some?
    requires var shared := c.encap(identity, secret).value;
             var sealed := c.seal(Cut(shared.1, 16), e.nonce, EnvelopeAad(e), key);
             e.c1 == shared.0 && e.ciphertext == sealed.0 + sealed.1
    ensures DecryptKeyEnvelope(c, sk, e.c1, e.nonce, e.ciphertext, EnvelopeAad(e)) == Some(Pad32(key))
  {
    hide EnvelopeAad, Pad32;
    LawsHaveSizes(c);
    var shared := c.encap(identity, secret).value;
    var sealed := c.seal(Cut(shared.1, 16), e.nonce, EnvelopeAad(e), key);
    assert e.ciphertext[..|key|] == sealed.0 && e.ciphertext[|key|..] == sealed.1;
  }

  /** The client's choices for one key: the key itself, its secret and its nonce. */
  datatype Choice = Choice(key: Bytes, secret: Bytes, nonce: Bytes)

  ghost predicate GoodChoice(c: Crypto, identity: Bytes, k: Choice) {
    KeySize(|k.key|) && |k.nonce| == NONCE_LEN && c.encap(identity, k.secret).Some?
  }

  ghost predicate SealedFor(c: Crypto, ct: Bytes, purpose: Bytes, identity: Bytes, context: Bytes, k: Choice)
    requires Sized(c) && Fits(purpose) && Fits(identity) && Fits(context) && GoodChoice(c, identity, k)
  {
    var e := SealedEnvelope(c, purpose, identity, context, k.key, c.encap(identity, k.secret).value, k.nonce);
    EnvelopeFits(e) && ct == EncodeEnvelope(e)
  }

  /** A request for fid as the client makes it: both keys in envelopes, code and input under them. */
  ghost predicate Prepared(c: Crypto, i: Invocation, fid: Bytes, lbl: Bytes, wasm: Bytes, input: Bytes,
                           f: Choice, q: Choice)
    requires Sized(c)
  {
    && |fid| <= 54 && |lbl| <= 65 && |i.nonce| == 16
    && GoodChoice(c, FunctionIdentity(lbl), f) && GoodChoice(c, RequestIdentity(fid), q)
    && SealedFor(c, i.ckfunc, FunctionPurpose(), FunctionIdentity(lbl), PkgAad(fid), f)
    && SealedFor(c, i.ckey, RequestPurpose(), RequestIdentity(fid), ReqAad(c, fid, i), q)
    && (i.cfunc, i.wasmMac) == c.seal(f.key[..16], i.wasmIv, PkgAad(fid), wasm)
    && (i.input, i.inputMac) == c.seal(q.key[..16], i.inputIv, ReqAad(c, fid, i), input)
  }

  lemma IdentitySizes(fid: Bytes, lbl: Bytes)
    ensures |RequestIdentity(fid)| == 4 + |fid| && |FunctionIdentity(lbl)| == 6 + |lbl|
    ensures Ascii("label:") <= FunctionIdentity(lbl)
  {
  }

  lemma ContextSizes(c: Crypto, fid: Bytes, i: Invocation)
    requires Sized(c) && |fid| <= MAX_FID && |i.nonce| == 16
    ensures |PkgAad(fid)| <= 57 && |ReqAad(c, fid, i)| <= 105
  {
  }

  lemma RequestKeyArrives(c: Crypto, s: State, i: Invocation, fid: Bytes, lbl: Bytes, wasm: Bytes, input: Bytes,
                          f: Choice, q: Choice)
    requires Lawful(c) && Prepared(c, i, fid, lbl, wasm, input, f, q) && Fetched(c, s, fid, lbl)
    ensures IsEnvelope(i.ckey) && UsesBfibe(i) && RequestKey(c, s, i) == Some(Pad32(q.key))
  {
    hide EncodeEnvelope, PkgAad, ReqAad, Pad32, SealedEnvelope, DecKey, Ascii;
    LawsHaveSizes(c);
    IdentitySizes(fid, lbl);
    ContextSizes(c, fid, i);
    var id, x := RequestIdentity(fid), ReqAad(c, fid, i);
    var e := SealedEnvelope(c, RequestPurpose(), id, x, q.key, c.encap(id, q.secret).value, q.nonce);
    EnvelopeShape(e, []);
    assert EncodeEnvelope(e) + [] == EncodeEnvelope(e);
    SealedOpens(c, s, None, RequestPurpose(), id, x, q.key, q.secret, q.nonce, x);
  }

  lemma FunctionKeyArrives(c: Crypto, s: State, i: Invocation, fid: Bytes, lbl: Bytes, wasm: Bytes, input: Bytes,
                           f: Choice, q: Choice)
    requires Lawful(c) && Prepared(c, i, fid, lbl, wasm, input, f, q) && Fetched(c, s, fid, lbl) && UsesBfibe(i)
    ensures i.ckfunc != [] && FunctionKey(c, s, i) == Some(Pad32(f.key))
  {
    hide EncodeEnvelope, PkgAad, ReqAad, Pad32, SealedEnvelope, DecKey, Ascii;
    hide UsesBfibe, RequestPurpose, FunctionPurpose;
    LawsHaveSizes(c);
    IdentitySizes(fid, lbl);
    ContextSizes(c, fid, i);
    TwoPurposes();
    var id, x := FunctionIdentity(lbl), PkgAad(fid);
    var e := SealedEnvelope(c, FunctionPurpose(), id, x, f.key, c.encap(id, f.secret).value, f.nonce);
    EnvelopeShape(e, []);
    SealedOpens(c, s, None, FunctionPurpose(), id, x, f.key, f.secret, f.nonce, x);
  }

  lemma PaddedFront(k: Bytes)
    requires KeySize(|k|)
    ensures Cut(Pad32(k), 16) == k[..16]
  {
  }

  /** A worker that fetched the keys of fid and label runs what the client prepared for them: the input
      always, and the code unless some is cached for that fid and ciphertext hash. */
  lemma PreparedRuns(c: Crypto, s: State, i: Invocation, fid: Bytes, lbl: Bytes, wasm: Bytes, input: Bytes,
                     f: Choice, q: Choice)
    requires Lawful(c) && Prepared(c, i, fid, lbl, wasm, input, f, q) && Fetched(c, s, fid, lbl)
    ensures DoInvoke(c, s, i).1 ==
            if s.cache.Some? && Cut(s.cache.value.fid, 128) == Cut(fid, 128) && s.cache.value.hash == c.hash(i.cfunc)
            then Some(Run(s.cache.value.wasm, input, true))
            else Some(Run(wasm, input, false))
  {
    hide PkgAad, ReqAad, Pad32, SealedFor, DecKey, RequestKey, FunctionKey, UsesBfibe, Cut;
    hide RequestIdentity, FunctionIdentity;
    PaddedFront(f.key);
    PaddedFront(q.key);
    LawsHaveSizes(c);
    RequestKeyArrives(c, s, i, fid, lbl, wasm, input, f, q);
    FunctionKeyArrives(c, s, i, fid, lbl, wasm, input, f, q);
    assert OpenInput(c, s, i, Pad32(q.key)) == Some(input);
    assert OpenCode(c, s, i) == Some(wasm);
  }
}
