/** The BF-IBE release of the key management enclave: identities, private-key set, associated data,
    encryption to the worker's key, and the envelope handed to the host. */
module KeyRelease {
  import opened ByteStrings
  import opened Wire
  import opened KeySets
  import opened Wrappers

  /** Foreign cryptography, as uninterpreted functions. */
  datatype Crypto = Crypto(
    extract: Bytes -> Bytes,                                    // identity to private key, empty on failure
    publicOf: Bytes -> Bytes,
    dh: (Bytes, Bytes) -> Option<Bytes>,                        // own secret, other's public key
    seal: (Bytes, Bytes, Bytes, Bytes) -> (Bytes, Bytes),       // key, nonce, associated data, plaintext
    open: (Bytes, Bytes, Bytes, Bytes, Bytes) -> Option<Bytes>, // key, nonce, associated data, ciphertext, tag
    hash: Bytes -> Bytes,
    pair: (Bytes, Bytes) -> Option<Bytes>,                      // private key, envelope's point; hashed pairing value
    encap: (Bytes, Bytes) -> Option<(Bytes, Bytes)>)            // identity, client's secret; point, hashed pairing value

  /** The sizes of the foreign functions' results. */
  ghost predicate Sized(c: Crypto) {
    && (forall id :: |c.extract(id)| <= KEY_BUFFER)
    && (forall s :: |c.publicOf(s)| == WRAP_KEY_LEN)
    && (forall s, p :: c.dh(s, p).Some? ==> |c.dh(s, p).value| == 32)
    && (forall k, n, a, p :: |c.seal(k, n, a, p).0| == |p| && |c.seal(k, n, a, p).1| == TAG_LEN)
    && (forall k, n, a, t, g :: c.open(k, n, a, t, g).Some? ==> |c.open(k, n, a, t, g).value| == |t|)
    && (forall b :: |c.hash(b)| == 32)
    && (forall k, u :: c.pair(k, u).Some? ==> |c.pair(k, u).value| == 32)
    && (forall id, r :: c.encap(id, r).Some? ==>
          0 < |c.encap(id, r).value.0| <= POINT_BUFFER && |c.encap(id, r).value.1| == 32)
  }

  /** Both sides of a key agreement get the same secret, as do both sides of a pairing, and decryption
      undoes encryption. */
  ghost predicate Lawful(c: Crypto) {
    && Sized(c)
    && (forall a, b :: c.dh(a, c.publicOf(b)) == c.dh(b, c.publicOf(a)))
    && (forall k, n, a, p :: c.open(k, n, a, c.seal(k, n, a, p).0, c.seal(k, n, a, p).1) == Some(p))
    && (forall id, r :: c.encap(id, r).Some? && c.extract(id) != [] ==>
          c.pair(c.extract(id), c.encap(id, r).value.0) == Some(c.encap(id, r).value.1))
  }

  const POINT_BUFFER: nat := 96

  // ---------- Identities ----------

  function HexDigit(d: nat): (r: Byte)
    requires d < 16
  {
    if d < 10 then 48 + d else 87 + d
  }

  function Hex(b: Bytes): (r: Bytes)
    ensures |r| == 2 * |b|
  {
    if b == [] then [] else Hex(b[..|b| - 1]) + [HexDigit(b[|b| - 1] / 16), HexDigit(b[|b| - 1] % 16)]
  }

  lemma DigitsUnique(x: Byte, y: Byte)
    requires HexDigit(x / 16) == HexDigit(y / 16) && HexDigit(x % 16) == HexDigit(y % 16)
    ensures x == y
  {
  }

  lemma {:induction false} HexInjective(a: Bytes, b: Bytes)
    requires Hex(a) == Hex(b)
    ensures a == b
  {
    hide HexDigit;
    if a != [] {
      var n := |a| - 1;
      var p, q := [HexDigit(a[n] / 16), HexDigit(a[n] % 16)], [HexDigit(b[n] / 16), HexDigit(b[n] % 16)];
      CancelLast(Hex(a[..n]), p, Hex(b[..n]), q);
      assert p[0] == q[0] && p[1] == q[1];
      DigitsUnique(a[n], b[n]);
      HexInjective(a[..n], b[..n]);
      assert a == a[..n] + [a[n]] && b == b[..n] + [b[n]];
    }
  }

  /** Byte k becomes two lower-case digits at 2k. */
  lemma {:induction false} HexAt(b: Bytes, k: nat)
    requires k < |b|
    ensures var h, l := b[k] / 16, b[k] % 16;
            && Hex(b)[2 * k] == (if h < 10 then '0' as int + h else 'a' as int + h - 10)
            && Hex(b)[2 * k + 1] == (if l < 10 then '0' as int + l else 'a' as int + l - 10)
  {
    if k < |b| - 1 {
      HexAt(b[..|b| - 1], k);
    }
  }

  method HexEncode(input: Bytes) returns (r: Bytes)
    ensures r == Hex(input)
  {
    var out := new Byte[2 * |input|](_ => 0);
    for i := 0 to |input|
      invariant out[..2 * i] == Hex(input[..i])
    {
      out[2 * i] := HexDigit(input[i] / 16);
      out[2 * i + 1] := HexDigit(input[i] % 16);
      assert input[..i + 1][..i] == input[..i];
      assert out[..2 * (i + 1)] == out[..2 * i] + [out[2 * i], out[2 * i + 1]];
    }
    assert input[..|input|] == input && out[..2 * |input|] == out[..];
    r := out[..];
  }

  function RequestIdentity(fid: Bytes): Bytes { Ascii("fid:") + fid }

  function FunctionIdentity(lbl: Bytes): Bytes { Ascii("label:") + lbl }

  function WorkerIdentity(mrenclave: Bytes): (r: Bytes)
    ensures |r| == 10 + 2 * |mrenclave|
  {
    Ascii("mrenclave:") + Hex(mrenclave)
  }

  const REQUEST_IDENTITY_BUFFER: nat := 133
  const FUNCTION_IDENTITY_BUFFER: nat := 72
  const WORKER_IDENTITY_BUFFER: nat := 80
  const KEY_SET_BUFFER: nat := 2048
  const AAD_BUFFER: nat := 256
  const MAX_FID: nat := 54

  // ---------- Associated data ----------

  /** Releases with the same associated data agree in profile, fid, worker identity and wrapping key. */
  lemma AadInjective(p: Bytes, f: Bytes, w: Bytes, k: Bytes, p': Bytes, f': Bytes, w': Bytes, k': Bytes)
    requires Fits(p) && Fits(f) && Fits(w) && Fits(k) && Fits(p') && Fits(f') && Fits(w') && Fits(k')
    requires Aad(p, f, w, k) == Aad(p', f', w', k')
    ensures p == p' && f == f' && w == w' && k == k'
  {
    hide Tagged;
    TaggedInjective(AadMagic(), p, f, w, k, p', f', w', k');
  }

  /** Associated data for one measurement never fits another fid or measurement. */
  lemma AadNamesWorker(fid: Bytes, mrenclave: Bytes, k: Bytes, fid': Bytes, mrenclave': Bytes, k': Bytes)
    requires Fits(fid) && Fits(fid') && Fits(k) && Fits(k') && |mrenclave| == 32 && |mrenclave'| == 32
    requires Aad(Profile(), fid, WorkerIdentity(mrenclave), k) == Aad(Profile(), fid', WorkerIdentity(mrenclave'), k')
    ensures fid == fid' && mrenclave == mrenclave' && k == k'
  {
    hide Aad, Hex, Profile, Ascii;
    AadInjective(Profile(), fid, WorkerIdentity(mrenclave), k, Profile(), fid', WorkerIdentity(mrenclave'), k');
    CancelFirst(Ascii("mrenclave:"), Hex(mrenclave), Hex(mrenclave'));
    HexInjective(mrenclave, mrenclave');
  }

  // ---------- Building a release ----------

  function RequestRecord(c: Crypto, fid: Bytes): Record {
    Record(RequestPurpose(), RequestIdentity(fid), c.extract(RequestIdentity(fid)))
  }

  function FunctionRecord(c: Crypto, lbl: Bytes): Record {
    Record(FunctionPurpose(), FunctionIdentity(lbl), c.extract(FunctionIdentity(lbl)))
  }

  function AesKey(secret: Bytes): (k: Bytes)
    requires |secret| == 32
    ensures |k| == 16
  {
    secret[..16]
  }

  /** The release for a worker key, given the enclave's fresh secret and nonce. */
  function ReleaseFor(c: Crypto, mrenclave: Bytes, fid: Bytes, keySet: Bytes, shared: Bytes,
                      pub: Bytes, nonce: Bytes): Release
    requires Fits(fid) && |mrenclave| == 32 && |pub| == WRAP_KEY_LEN && |shared| == 32
  {
    var aad := Aad(Profile(), fid, WorkerIdentity(mrenclave), pub);
    var sealed := c.seal(AesKey(shared), nonce, aad, keySet);
    Release(Profile(), fid, WorkerIdentity(mrenclave), pub, nonce, sealed.0 + sealed.1)
  }

  lemma KeySetSize(a: Record, b: Record)
    requires RecordFits(a) && RecordFits(b) && RecordsFit([a, b])
    ensures |EncodeKeySet([a, b])| ==
            59 + |a.purpose| + |a.identity| + |a.privateKey| + |b.purpose| + |b.identity| + |b.privateKey|
  {
    hide EncodeKeySet, EncodeRecord, KeySetHeader, Profile;
    TwoRecords(a, b);
  }

  ghost predicate CanRelease(c: Crypto, fid: Bytes, lbl: Bytes, workerKey: Bytes, secret: Bytes) {
    && |fid| <= MAX_FID && |lbl| <= 65
    && c.extract(RequestIdentity(fid)) != [] && c.extract(FunctionIdentity(lbl)) != []
    && c.dh(secret, workerKey).Some?
  }

  /** What a successful release puts into the output buffer. */
  ghost predicate Releases(c: Crypto, mrenclave: Bytes, fid: Bytes, lbl: Bytes, workerKey: Bytes,
                           secret: Bytes, nonce: Bytes, r: Release)
    requires Sized(c) && Fits(fid) && |mrenclave| == 32
  {
    && CanRelease(c, fid, lbl, workerKey, secret)
    && var rs := [RequestRecord(c, fid), FunctionRecord(c, lbl)];
    && RecordsFit(rs)
    && r == ReleaseFor(c, mrenclave, fid, EncodeKeySet(rs), c.dh(secret, workerKey).value, c.publicOf(secret), nonce)
    && ReleaseFits(r)
  }

  /** After the gates. The 256 bytes for the associated data leave room for fids of at most 54. */
  method GetBfibeKeyRelease(c: Crypto, mrenclave: Bytes, fid: Bytes, lbl: Bytes, workerKey: Bytes,
                            secret: Bytes, nonce: Bytes, out: array<Byte>)
    returns (ok: bool, size: nat, ghost r: Release)
    requires Sized(c) && Fits(fid) && Fits(lbl) && |mrenclave| == 32 && |nonce| == NONCE_LEN
    modifies out
    ensures CanRelease(c, fid, lbl, workerKey, secret) ==>
              Releases(c, mrenclave, fid, lbl, workerKey, secret, nonce, r) && |EncodeRelease(r)| <= 994
    ensures ok <==> CanRelease(c, fid, lbl, workerKey, secret) && |EncodeRelease(r)| <= out.Length
    ensures ok ==> size == |EncodeRelease(r)| && out[..size] == EncodeRelease(r)
  {
    hide Ascii, Aad, EncodeKeySet, EncodeRelease, Hex, Profile, EncodeRecord, ReleaseFor;
    ok, size := false, 0;
    r := Release([], [], [], [], [], []);
    if |RequestIdentity(fid)| >= REQUEST_IDENTITY_BUFFER || |FunctionIdentity(lbl)| >= FUNCTION_IDENTITY_BUFFER {
      return;
    }
    var hex := HexEncode(mrenclave);
    var workerIdentity := Ascii("mrenclave:") + hex;
    if |workerIdentity| >= WORKER_IDENTITY_BUFFER {
      return;
    }
    var request, function_ := RequestRecord(c, fid), FunctionRecord(c, lbl);
    if request.privateKey == [] || function_.privateKey == [] {
      return;
    }
    var keySet := new Byte[KEY_SET_BUFFER](_ => 0);
    KeySetSize(request, function_);
    var built, keySetSize := BuildKeySet(request, function_, keySet);
    if !built {
      return;
    }
    var shared := c.dh(secret, workerKey);
    if shared.None? {
      return;
    }
    ok, size, r := SealRelease(c, mrenclave, workerIdentity, fid, keySet[..keySetSize], shared.value,
                               c.publicOf(secret), nonce, out);
  }

  /** Associated data, encryption and envelope. */
  method SealRelease(c: Crypto, ghost mrenclave: Bytes, workerIdentity: Bytes, fid: Bytes, keySet: Bytes,
                     shared: Bytes, pub: Bytes, nonce: Bytes, out: array<Byte>)
    returns (ok: bool, size: nat, ghost r: Release)
    requires Sized(c) && |mrenclave| == 32 && workerIdentity == WorkerIdentity(mrenclave)
    requires Fits(fid) && |shared| == 32 && |pub| == WRAP_KEY_LEN && |nonce| == NONCE_LEN && |keySet| <= KEY_SET_BUFFER
    modifies out
    ensures r == ReleaseFor(c, mrenclave, fid, keySet, shared, pub, nonce) && ReleaseFits(r)
    ensures |EncodeRelease(r)| == 33 + 18 + |fid| + 74 + 64 + 12 + |keySet| + 16
    ensures ok <==> |fid| <= MAX_FID && |EncodeRelease(r)| <= out.Length
    ensures ok ==> size == |EncodeRelease(r)| && out[..size] == EncodeRelease(r)
  {
    hide Ascii, EncodeRelease, Hex, Profile;
    ok, size := false, 0;
    r := ReleaseFor(c, mrenclave, fid, keySet, shared, pub, nonce);
    ReleaseStarts(r, []);
    var aad := new Byte[AAD_BUFFER](_ => 0);
    var fits, aadSize := BuildAad(Profile(), fid, workerIdentity, pub, aad);
    if !fits {
      return;
    }
    var sealed := c.seal(AesKey(shared), nonce, aad[..aadSize], keySet);
    var release := Release(Profile(), fid, workerIdentity, pub, nonce, sealed.0 + sealed.1);
    ok, size := BuildRelease(release, out);
  }
}
