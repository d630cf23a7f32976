/** The older key path: two 32-byte keys sealed by the key management enclave, carried by the host and
    opened by the worker, and the key ciphertexts a client makes for them. */
module LegacyPath {
  import opened ByteStrings
  import opened Envelopes
  import Kms
  import opened Wire
  import opened KeyRelease
  import opened WorkerEnclave
  import opened Wrappers

  // ---------- Keys and packets ----------

  /** The key of a fid; the test identity has a fixed one. */
  function FidKey(c: Crypto, msk: Bytes, fid: Bytes): Bytes {
    if fid == Ascii("default_fid") then seq(32, _ => 0xBB) else c.hash(msk + fid)
  }

  function LabelKey(c: Crypto, msk: Bytes, lbl: Bytes): Bytes {
    c.hash(msk + lbl)
  }

  /** p carries key to the holder of sk: the sender's public key, a nonce, the tag and the sealed key. */
  ghost predicate CarriesKey(c: Crypto, p: Bytes, sk: Bytes, secret: Bytes, key: Bytes) {
    && |p| == 124 && p[..64] == c.publicOf(secret)
    && c.dh(secret, c.publicOf(sk)).Some? && |c.dh(secret, c.publicOf(sk)).value| >= 16
    && (p[92..124], p[76..92]) == c.seal(c.dh(secret, c.publicOf(sk)).value[..16], p[64..76], [], key)
  }

  /** The enclave seals a key for a worker's public key. */
  method SealKey(c: Crypto, pk: Bytes, key: Bytes, secret: Bytes, nonce: Bytes) returns (packet: Option<Bytes>)
    requires Sized(c) && |key| == 32 && |nonce| == 12
    ensures packet.Some? <==> c.dh(secret, pk).Some?
    ensures packet.Some? ==> |packet.value| == 124 && packet.value[..64] == c.publicOf(secret)
    ensures packet.Some? ==> forall sk :: pk == c.publicOf(sk) ==> CarriesKey(c, packet.value, sk, secret, key)
  {
    var shared := c.dh(secret, pk);
    if shared.None? {
      return None;
    }
    var sealed := c.seal(shared.value[..16], nonce, [], key);
    var p := c.publicOf(secret) + nonce + sealed.1 + sealed.0;
    assert p[..64] == c.publicOf(secret) && p[64..76] == nonce && p[76..92] == sealed.1 && p[92..124] == sealed.0;
    packet := Some(p);
  }

  /** The worker a packet is for opens it. */
  lemma PacketOpens(c: Crypto, s: State, p: Bytes, secret: Bytes, key: Bytes)
    requires Lawful(c) && CarriesKey(c, p, s.privateKey, secret, key)
    ensures OpenPacked(c, s, p) == Some(key)
  {
  }

  /** What a single key leaves behind. */
  lemma KeyArrives(c: Crypto, s: State, p: Bytes, fid: Bytes, secret: Bytes, k: Bytes)
    requires Lawful(c) && CarriesKey(c, p, s.privateKey, secret, k)
    ensures DoDecryptKey(c, s, p, fid) ==
            s.(workerKey := k, workerFid := Cut(fid, 128), keyLoaded := true,
               cache := if s.keyLoaded && Cut(s.workerFid, 128) == Cut(fid, 128) then s.cache else None)
  {
    hide OpenPacked, CarriesKey, Lawful, Cut;
    PacketOpens(c, s, p, secret, k);
  }

  /** The first key becomes the worker's key and the second one its label key; the cache survives only
      a fid with the same first 128 characters. */
  lemma BothKeysArrive(c: Crypto, s: State, p: Bytes, q: Bytes, fid: Bytes, secret: Bytes, secret': Bytes, k: Bytes, l: Bytes)
    requires Lawful(c) && CarriesKey(c, p, s.privateKey, secret, k) && CarriesKey(c, q, s.privateKey, secret', l)
    ensures DoDecryptKeysBatch(c, s, p, q, fid) ==
            s.(workerKey := k, dklabel := l, dklabelFromKms := true, workerFid := Cut(fid, 128), keyLoaded := true,
               cache := if s.keyLoaded && Cut(s.workerFid, 128) == Cut(fid, 128) then s.cache else None)
  {
    hide OpenPacked, CarriesKey, Lawful, Cut;
    PacketOpens(c, s, p, secret, k);
    PacketOpens(c, s.(workerKey := k), q, secret', l);
  }

  /** When only the first packet opens, its key is kept and nothing else changes. */
  lemma FirstKeyAlone(c: Crypto, s: State, p: Bytes, q: Bytes, fid: Bytes, secret: Bytes, k: Bytes)
    requires Lawful(c) && CarriesKey(c, p, s.privateKey, secret, k) && |q| == 124 && OpenPacked(c, s, q).None?
    ensures DoDecryptKeysBatch(c, s, p, q, fid) == s.(workerKey := k)
  {
    hide CarriesKey, Lawful;
    PacketOpens(c, s, p, secret, k);
    assert OpenPacked(c, s.(workerKey := k), q) == OpenPacked(c, s, q);
  }

  // ---------- A whole fetch ----------

  datatype Sending = Sending(secret: Bytes, nonce: Bytes)

  /** A response starting like this is taken for a BF-IBE release, whatever sent it. */
  predicate Marked(response: Bytes) {
    |response| >= 9 && response[..8] == Ascii("ASBFREL1") && response[8] == 1
  }

  /** Gates, sealing and the host's answer, None for its error message. */
  method Respond(c: Crypto, kms: Kms.Enclave, msk: Bytes, fid: Bytes, lbl: Bytes, pk: Bytes, a: Sending, b: Sending,
                 trailer: Bytes) returns (response: Option<Bytes>)
    requires Sized(c) && kms.hash == c.hash && |a.nonce| == 12 && |b.nonce| == 12
    ensures response.Some? <==>
              && Kms.Step(c.hash, kms.Now(), Kms.Event(Kms.DeriveKeysBatch(fid, lbl, pk), true)).1 == 0
              && c.dh(a.secret, pk).Some? && c.dh(b.secret, pk).Some?
    ensures response.Some? ==> |response.value| >= 248 && response.value[..64] == c.publicOf(a.secret)
    ensures response.Some? ==> forall sk :: pk == c.publicOf(sk) ==>
              && CarriesKey(c, response.value[..124], sk, a.secret, FidKey(c, msk, fid))
              && CarriesKey(c, response.value[124..248], sk, b.secret, LabelKey(c, msk, lbl))
  {
    hide CarriesKey;
    hide Kms.Attested, Kms.KeyBound, Kms.Bound, Kms.Exempt;
    var p := SealKey(c, pk, FidKey(c, msk, fid), a.secret, a.nonce);
    var q := SealKey(c, pk, LabelKey(c, msk, lbl), b.secret, b.nonce);
    var ret := kms.EcallDeriveKeysBatch(fid, lbl, pk, p.Some? && q.Some?);
    if ret != 0 {
      return None;
    }
    var r := p.value + q.value + trailer;
    assert r[..124] == p.value && r[124..248] == q.value && r[..64] == p.value[..64];
    response := Some(r);
  }

  /** One fetch on the older path. It succeeds exactly when the gates pass, both key agreements succeed
      and the enclave's first public key does not read as the start of a release; then the worker holds
      the fid's key and the label's key, in this order, and is loaded for the fid. */
  method FetchKeysBatch(c: Crypto, kms: Kms.Enclave, worker: Worker, msk: Bytes, fid: Bytes, lbl: Bytes,
                        a: Sending, b: Sending, trailer: Bytes) returns (ok: bool)
    requires Lawful(c) && worker.c == c && kms.hash == c.hash && |a.nonce| == 12 && |b.nonce| == 12
    modifies worker
    ensures ok <==> var pk := c.publicOf(old(worker.privateKey));
                    && Kms.Step(c.hash, kms.Now(), Kms.Event(Kms.DeriveKeysBatch(fid, lbl, pk), true)).1 == 0
                    && c.dh(a.secret, pk).Some? && c.dh(b.secret, pk).Some?
                    && c.publicOf(a.secret)[..9] != Ascii("ASBFREL1") + [1]
    ensures ok ==>
              var s := old(worker.Now());
              worker.Now() == s.(
                workerKey := if fid == Ascii("default_fid") then seq(32, _ => 0xBB) else c.hash(msk + fid),
                dklabel := c.hash(msk + lbl), dklabelFromKms := true, workerFid := Cut(fid, 128), keyLoaded := true,
                cache := if s.keyLoaded && Cut(s.workerFid, 128) == Cut(fid, 128) then s.cache else None)
    ensures !ok && c.publicOf(a.secret)[..9] != Ascii("ASBFREL1") + [1] ==> worker.Now() == old(worker.Now())
  {
    hide CarriesKey, Kms.Step, DoDecryptKeysBatch, LoadStep, Cut, Lawful, Ascii;
    ghost var s := worker.Now();
    SizesOf(c);
    var response := Respond(c, kms, msk, fid, lbl, c.publicOf(worker.privateKey), a, b, trailer);
    if response.None? {
      return false;
    }
    var r := response.value;
    FirstNine(r, c.publicOf(a.secret));
    ok := HandOver(worker, r, fid);
    if ok {
      BothKeysArrive(c, s, r[..124], r[124..248], fid, a.secret, b.secret, FidKey(c, msk, fid), LabelKey(c, msk, lbl));
    }
  }

  lemma FirstNine(r: Bytes, front: Bytes)
    requires |r| >= 64 && r[..64] == front
    ensures Marked(r) <==> front[..9] == Ascii("ASBFREL1") + [1]
  {
    hide Ascii;
    assert r[..64][..9] == r[..9] && r[..9] == r[..8] + [r[8]];
  }

  /** The host passes a response on: as a release if it is marked as one, else as two keys. */
  method HandOver(worker: Worker, r: Bytes, fid: Bytes) returns (keys: bool)
    requires |r| >= 248
    modifies worker
    ensures keys <==> !Marked(r)
    ensures keys ==> worker.Now() == DoDecryptKeysBatch(worker.c, old(worker.Now()), r[..124], r[124..248], fid)
  {
    hide DoDecryptKeysBatch, LoadStep, Ascii;
    keys := !Marked(r);
    if keys {
      worker.EcallDecryptKeysBatch(r[..124], r[124..248], fid);
    } else {
      var n := PayloadLen(r);
      if 0 < n {
        var loaded, v, rs := worker.EcallLoadBfibeKeyRelease(r[..n], fid);
      }
    }
  }

  lemma SizesOf(c: Crypto)
    requires Lawful(c)
    ensures Sized(c) && forall s :: |c.publicOf(s)| == 64
  {
  }

  // ---------- The client's key ciphertexts ----------

  /** ct carries a key to the holder of cap: an uncompressed point, big-endian where the enclave's numbers
      are little-endian, a nonce, the tag and the sealed key. */
  ghost predicate KeyCiphertext(c: Crypto, ct: Bytes, cap: Bytes, secret: Bytes, key: Bytes)
    requires Sized(c)
  {
    var shared := c.dh(secret, c.publicOf(cap));
    && (|key| == 16 || |key| == 32) && |ct| == 93 + |key| && ct[0] == 4
    && (forall i :: 0 <= i < 32 ==> ct[1..33][i] == c.publicOf(secret)[31 - i])
    && (forall i :: 0 <= i < 32 ==> ct[33..65][i] == c.publicOf(secret)[63 - i])
    && shared.Some?
    && (ct[93..], ct[77..93]) == c.seal(c.hash(shared.value + Ascii("ECC-IBE-ENC"))[..16], ct[65..77], [], key)
  }

  /** The client tool; it refuses keys of other sizes. */
  method EncryptKeyCiphertext(c: Crypto, pk: Bytes, key: Bytes, secret: Bytes, nonce: Bytes) returns (r: Option<Bytes>)
    requires Sized(c) && |nonce| == 12
    ensures r.Some? <==> (|key| == 16 || |key| == 32) && c.dh(secret, pk).Some?
    ensures r.Some? ==> forall cap :: pk == c.publicOf(cap) ==> KeyCiphertext(c, r.value, cap, secret, key)
  {
    if |key| != 16 && |key| != 32 {
      return None;
    }
    var shared := c.dh(secret, pk);
    if shared.None? {
      return None;
    }
    var mine := c.publicOf(secret);
    var sealed := c.seal(c.hash(shared.value + Ascii("ECC-IBE-ENC"))[..16], nonce, [], key);
    var x, y := Reversed(mine[..32]), Reversed(mine[32..64]);
    var ct := [4] + x + y + nonce + sealed.1 + sealed.0;
    assert ct[1..33] == x && ct[33..65] == y && ct[65..77] == nonce && ct[77..93] == sealed.1 && ct[93..] == sealed.0;
    r := Some(ct);
  }

  lemma PointComesBack(c: Crypto, ct: Bytes, cap: Bytes, secret: Bytes, key: Bytes)
    requires Sized(c) && KeyCiphertext(c, ct, cap, secret, key)
    ensures Reversed(ct[1..33]) + Reversed(ct[33..65]) == c.publicOf(secret)
  {
    var p := c.publicOf(secret);
    forall i | 0 <= i < 32
      ensures Reversed(ct[1..33])[i] == p[i] && Reversed(ct[33..65])[i] == p[32 + i]
    {
      assert ct[1..33][31 - i] == p[31 - (31 - i)] && ct[33..65][31 - i] == p[63 - (31 - i)];
    }
  }

  /** Whoever holds the capability gets the key, at 32 bytes. */
  lemma CiphertextOpens(c: Crypto, ct: Bytes, cap: Bytes, secret: Bytes, key: Bytes)
    requires Lawful(c) && Sized(c) && KeyCiphertext(c, ct, cap, secret, key)
    ensures LegacyKey(c, cap, ct) == Some(key + Zeros(32 - |key|)) && !IsEnvelope(ct)
  {
    hide Reversed;
    PointComesBack(c, ct, cap, secret, key);
  }

  /** Both halves of the point in a ciphertext, each from its last byte to its first. */
  function PointIn(ct: Bytes): Bytes
    requires |ct| >= 65
  {
    seq(64, i requires 0 <= i < 64 => if i < 32 then ct[32 - i] else ct[96 - i])
  }

  lemma PointIs(ct: Bytes)
    requires |ct| >= 65
    ensures Reversed(ct[1..33]) + Reversed(ct[33..65]) == PointIn(ct)
  {
  }

  /** What a key ciphertext needs to open, in full. */
  lemma OpensOnly(c: Crypto, cap: Bytes, ct: Bytes, k: Bytes)
    requires Sized(c)
    ensures LegacyKey(c, cap, ct) == Some(k) <==>
              && (|ct| == 109 || |ct| == 125) && ct[0] == 4 && c.dh(cap, PointIn(ct)).Some?
              && var key := c.hash(c.dh(cap, PointIn(ct)).value + Ascii("ECC-IBE-ENC"))[..16];
                 exists p ::
                   c.open(key, ct[65..77], [], ct[93..], ct[77..93]) == Some(p)
                   && |p| == |ct| - 93 && k == p + Zeros(32 - |p|)
  {
    hide Ascii, PointIn, Reversed;
    if |ct| >= 65 {
      PointIs(ct);
    }
  }

  /** Code and input sealed under two keys, whose ciphertexts are made for the capabilities the worker
      holds: its key, and the label key that came with it or, without one, the one it derives. */
  ghost predicate PreparedFor(c: Crypto, s: State, i: Invocation, wasm: Bytes, input: Bytes,
                              f: Bytes, secret: Bytes, q: Bytes, secret': Bytes)
    requires Sized(c)
  {
    var own := if s.dklabelFromKms then s.dklabel
                 else c.hash(c.hash(s.workerKey + c.hash(i.cfunc)) + Ascii("DKLABEL"));
    && KeyCiphertext(c, i.ckfunc, own, secret, f) && KeyCiphertext(c, i.ckey, s.workerKey, secret', q)
    && (i.cfunc, i.wasmMac) == c.seal(f[..16], i.wasmIv, PkgAad(s.workerFid), wasm)
    && (i.input, i.inputMac) == c.seal(q[..16], i.inputIv, ReqAad(c, s.workerFid, i), input)
  }

  /** The worker runs what was prepared for its keys: the input always, and the code unless some is cached
      for its fid and the same ciphertext hash. */
  lemma LegacyRuns(c: Crypto, s: State, i: Invocation, wasm: Bytes, input: Bytes,
                   f: Bytes, secret: Bytes, q: Bytes, secret': Bytes)
    requires Lawful(c) && Sized(c) && s.keyLoaded && PreparedFor(c, s, i, wasm, input, f, secret, q, secret')
    ensures DoInvoke(c, s, i).1 ==
            if s.cache.Some? && Cut(s.cache.value.fid, 128) == Cut(s.workerFid, 128)
               && s.cache.value.hash == c.hash(i.cfunc)
            then Some(Run(s.cache.value.wasm, input, true))
            else Some(Run(wasm, input, false))
  {
    hide LegacyKey, KeyCiphertext, PkgAad, ReqAad, IsEnvelope;
    var own := LabelCapability(c, s, i.cfunc);
    CiphertextOpens(c, i.ckfunc, own, secret, f);
    CiphertextOpens(c, i.ckey, s.workerKey, secret', q);
    NotEmpty(c, i.ckfunc, own, secret, f);
    NotEmpty(c, i.ckey, s.workerKey, secret', q);
    assert Cut(f + Zeros(32 - |f|), 16) == f[..16] && Cut(q + Zeros(32 - |q|), 16) == q[..16];
    assert OpenCode(c, s, i) == Some(wasm);
    assert OpenInput(c, s, i, q + Zeros(32 - |q|)) == Some(input);
  }

  lemma NotEmpty(c: Crypto, ct: Bytes, cap: Bytes, secret: Bytes, key: Bytes)
    requires Sized(c) && KeyCiphertext(c, ct, cap, secret, key)
    ensures |ct| >= 109 && (|key| == 16 || |key| == 32)
  {
  }

  /** From one key fetch to one invocation: what a client seals for the fid's key and the label's key runs
      in a fresh worker that received them. */
  lemma FetchedKeysRun(c: Crypto, s: State, i: Invocation, p: Bytes, p': Bytes, fid: Bytes, a: Sending, b: Sending,
                       k: Bytes, l: Bytes, wasm: Bytes, input: Bytes, f: Bytes, secret: Bytes, q: Bytes, secret': Bytes)
    requires Lawful(c) && Sized(c) && !s.keyLoaded && |fid| <= 128
    requires CarriesKey(c, p, s.privateKey, a.secret, k) && CarriesKey(c, p', s.privateKey, b.secret, l)
    requires KeyCiphertext(c, i.ckfunc, l, secret, f) && KeyCiphertext(c, i.ckey, k, secret', q)
    requires |f| >= 16 && |q| >= 16
    requires (i.cfunc, i.wasmMac) == c.seal(f[..16], i.wasmIv, PkgAad(fid), wasm)
    requires (i.input, i.inputMac) == c.seal(q[..16], i.inputIv, ReqAad(c, fid, i), input)
    ensures DoInvoke(c, DoDecryptKeysBatch(c, s, p, p', fid), i).1 == Some(Run(wasm, input, false))
  {
    assert |p| == 124 && |p'| == 124;
    hide CarriesKey, KeyCiphertext, DoDecryptKeysBatch, DoInvoke, PkgAad, ReqAad, Lawful, Sized, Ascii;
    BothKeysArrive(c, s, p, p', fid, a.secret, b.secret, k, l);
    LegacyRuns(c, DoDecryptKeysBatch(c, s, p, p', fid), i, wasm, input, f, secret, q, secret');
  }
}
