/** The worker enclave: key loads, the one-entry function-code cache and invocations, first as
    transitions between states, then as the ecalls that make them. */
module WorkerEnclave {
  import opened ByteStrings
  import opened Envelopes
  import opened Wire
  import opened KeySets
  import opened KeyRelease
  import opened Wrappers

  // ---------- State ----------

  datatype Entry = Entry(fid: Bytes, hash: Bytes, wasm: Bytes)

  datatype State = State(
    privateKey: Bytes, keypairReady: bool,
    workerKey: Bytes, workerFid: Bytes, keyLoaded: bool,
    dklabel: Bytes, dklabelFromKms: bool,
    requestSk: Bytes, functionSk: Bytes, bfibeFid: Bytes, bfibeLoaded: bool,
    cache: Option<Entry>)

  function Initial(): State {
    State(Zeros(32), false, Zeros(32), [], false, Zeros(32), false, [], [], [], false, None)
  }

  const COMPARED: nat := 128
  const BFIBE_FID_CHARS: nat := 127

  /** A bounded comparison of two C strings. */
  predicate SameFid(a: Bytes, b: Bytes) {
    Cut(a, COMPARED) == Cut(b, COMPARED)
  }

  // ---------- Loading the legacy keys ----------

  const PACKED_KEY_LEN: nat := 124

  /** A 32-byte key packed as sender key, nonce, tag and ciphertext. */
  function OpenPacked(c: Crypto, s: State, packed: Bytes): Option<Bytes>
    requires |packed| == PACKED_KEY_LEN
  {
    var shared := c.dh(s.privateKey, packed[..64]);
    if shared.None? || |shared.value| < 16 then None
    else c.open(shared.value[..16], packed[64..76], [], packed[92..124], packed[76..92])
  }

  /** A change of fid empties the cache. */
  function StoreWorkerFid(s: State, fid: Bytes): State {
    s.(cache := if !s.keyLoaded || !SameFid(s.workerFid, fid) then None else s.cache,
       workerFid := Cut(fid, COMPARED), keyLoaded := true)
  }

  function DoDecryptKey(c: Crypto, s: State, packed: Bytes, fid: Bytes): State
    requires |packed| == PACKED_KEY_LEN
  {
    match OpenPacked(c, s, packed)
    case None => s
    case Some(key) => StoreWorkerFid(s.(workerKey := key), fid)
  }

  /** The first key is stored before the second one is tried. */
  function DoDecryptKeysBatch(c: Crypto, s: State, dkf: Bytes, dklabel: Bytes, fid: Bytes): State
    requires |dkf| == PACKED_KEY_LEN && |dklabel| == PACKED_KEY_LEN
  {
    match OpenPacked(c, s, dkf)
    case None => s
    case Some(key) =>
      var t := s.(workerKey := key);
      match OpenPacked(c, t, dklabel)
      case None => t
      case Some(l) => StoreWorkerFid(t.(dklabel := l, dklabelFromKms := true), fid)
  }

  // ---------- Loading a BF-IBE release ----------

  /** The plaintext of an accepted release for fid. */
  function OpenRelease(c: Crypto, privateKey: Bytes, fid: Bytes, v: Release): Option<Bytes>
    requires ReleaseFits(v) && WorkerAccepts(v)
  {
    var n := |v.ciphertext| - TAG_LEN;
    var aad := Aad(v.profile, v.fid, v.workerIdentity, v.wrapKey);
    if v.fid != fid || |aad| > AAD_BUFFER then None
    else
      var shared := c.dh(privateKey, v.wrapKey);
      if shared.None? || |shared.value| < 16 then None
      else c.open(shared.value[..16], v.nonce, aad, v.ciphertext[..n], v.ciphertext[n..])
  }

  /** release is the encoding of v, which opens to the encoding of the importable records rs. */
  ghost predicate LoadsAs(c: Crypto, s: State, release: Bytes, fid: Bytes, v: Release, rs: seq<Record>) {
    && s.keypairReady
    && ReleaseFits(v) && WorkerAccepts(v) && release == EncodeRelease(v)
    && Takes(WorkerFor(fid), rs)
    && OpenRelease(c, s.privateKey, fid, v) == Some(EncodeKeySet(rs))
  }

  /** A change of fid empties the cache here, too. */
  function StoreBfibeFid(s: State, fid: Bytes): State {
    s.(cache := if !s.bfibeLoaded || !SameFid(s.bfibeFid, fid) then None else s.cache,
       bfibeFid := Cut(fid, BFIBE_FID_CHARS), bfibeLoaded := true)
  }

  function Loaded(s: State, fid: Bytes, rs: seq<Record>): State {
    StoreBfibeFid(s.(requestSk := LastKey(rs, RequestPurpose()), functionSk := LastKey(rs, FunctionPurpose())), fid)
  }

  /** A load succeeds exactly when the release can be read as some record list; a failed one may
      have overwritten the key bytes, and nothing else. */
  ghost predicate LoadStep(c: Crypto, s: State, release: Bytes, fid: Bytes, t: State, ok: bool) {
    if ok then
      exists v, rs :: LoadsAs(c, s, release, fid, v, rs) && t == Loaded(s, fid, rs)
    else
      && (forall v, rs :: !LoadsAs(c, s, release, fid, v, rs))
      && t == s.(requestSk := t.requestSk, functionSk := t.functionSk)
  }

  // ---------- Invocations ----------

  datatype Invocation = Invocation(
    cfunc: Bytes, wasmIv: Bytes, wasmMac: Bytes, ckfunc: Bytes, ckey: Bytes,
    input: Bytes, inputIv: Bytes, inputMac: Bytes, nonce: Bytes, pkU: Bytes)

  /** What is handed to the runtime. */
  datatype Run = Run(wasm: Bytes, input: Bytes, hit: bool)

  predicate UsesBfibe(i: Invocation) {
    IsEnvelope(i.ckey) || IsEnvelope(i.ckfunc)
  }

  predicate KeyPresent(s: State, i: Invocation) {
    if UsesBfibe(i) then s.bfibeLoaded else s.keyLoaded
  }

  function InvocationFid(s: State, i: Invocation): Bytes {
    if UsesBfibe(i) then s.bfibeFid else s.workerFid
  }

  function HexValue(ch: Byte): int {
    if 48 <= ch <= 57 then ch - 48
    else if 97 <= ch <= 102 then ch - 87
    else if 65 <= ch <= 70 then ch - 55
    else -1
  }

  /** A 64-digit hexadecimal fid stands for its 32 bytes, any other for itself. */
  function FidBytes(fid: Bytes): Bytes {
    if |fid| == 64 && forall k :: 0 <= k < 64 ==> HexValue(fid[k]) >= 0
    then seq(32, k requires 0 <= k < 32 => (HexValue(fid[2 * k]) * 16 + HexValue(fid[2 * k + 1])) % 256)
    else Cut(fid, COMPARED)
  }

  function PkgAad(fid: Bytes): Bytes { Ascii("PKG") + FidBytes(fid) }

  function ReqAad(c: Crypto, fid: Bytes, i: Invocation): Bytes {
    Ascii("REQ") + FidBytes(fid) + i.nonce + c.hash(i.pkU)
  }

  // ---------- Keys from key ciphertexts ----------

  const ENVELOPE_AAD_BUFFER: nat := 512
  const EXPECTED_IDENTITY_BUFFER: nat := 160
  const LEGACY_HEADER: nat := 93

  /** Keys are handed on in 32 bytes. */
  function Pad32(k: Bytes): (r: Bytes)
    ensures |r| == 32
  {
    Cut(k, 32) + Zeros(32 - |Cut(k, 32)|)
  }

  function Reversed(b: Bytes): (r: Bytes)
    ensures |r| == |b|
  {
    seq(|b|, i requires 0 <= i < |b| => b[|b| - 1 - i])
  }

  /** An ephemeral public key, nonce, tag and the sealed key of 16 or 32 bytes. */
  function LegacyKey(c: Crypto, cap: Bytes, ct: Bytes): Option<Bytes> {
    if |ct| != LEGACY_HEADER + 16 && |ct| != LEGACY_HEADER + 32 then None
    else if ct[0] != 4 then None
    else
      match c.dh(cap, Reversed(ct[1..33]) + Reversed(ct[33..65]))
      case None => None
      case Some(shared) =>
        match c.open(Cut(c.hash(shared + Ascii("ECC-IBE-ENC")), 16), ct[65..77], [], ct[93..], ct[77..93])
        case None => None
        case Some(k) => Some(Pad32(k))
  }

  /** The sealed key of 16 or 32 bytes under the hashed pairing value. */
  function DecryptKeyEnvelope(c: Crypto, sk: Bytes, c1: Bytes, nonce: Bytes, ciphertext: Bytes, aad: Bytes)
    : Option<Bytes>
  {
    if |nonce| != NONCE_LEN || (|ciphertext| != TAG_LEN + 16 && |ciphertext| != TAG_LEN + 32) then None
    else
      var n := |ciphertext| - TAG_LEN;
      match c.pair(sk, c1)
      case None => None
      case Some(shared) =>
        match c.open(Cut(shared, 16), nonce, aad, ciphertext[..n], ciphertext[n..])
        case None => None
        case Some(k) => Some(Pad32(k))
  }

  /** The private key for an envelope's purpose, once its identity is the expected one. */
  function KeyForIdentity(s: State, e: Envelope): Option<Bytes> {
    if e.purpose == RequestPurpose() then
      if |RequestIdentity(s.bfibeFid)| >= EXPECTED_IDENTITY_BUFFER || e.identity != RequestIdentity(s.bfibeFid) then None
      else Some(s.requestSk)
    else if !(Ascii("label:") <= e.identity) then None
    else Some(s.functionSk)
  }

  function OpenKeyEnvelope(c: Crypto, s: State, e: Envelope, context: Bytes): Option<Bytes>
    requires EnvelopeFits(e) && WorkerTakesEnvelope(e)
  {
    if e.context != context then None
    else
      match KeyForIdentity(s, e)
      case None => None
      case Some(sk) =>
        if sk == [] || |EnvelopeAad(e)| > ENVELOPE_AAD_BUFFER then None
        else DecryptKeyEnvelope(c, sk, e.c1, e.nonce, e.ciphertext, EnvelopeAad(e))
  }

  /** The key inside a key ciphertext; envelopes need the imported keys, others a capability, and only
      envelopes are tied to the context. */
  ghost function DecKey(c: Crypto, s: State, cap: Option<Bytes>, ct: Bytes, context: Bytes): Option<Bytes> {
    if IsEnvelope(ct) then
      if !s.bfibeLoaded then None
      else
        match Decoded(ct)
        case None => None
        case Some(e) => OpenKeyEnvelope(c, s, e, context)
    else if cap.None? then None
    else LegacyKey(c, cap.value, ct)
  }

  function LabelCapability(c: Crypto, s: State, cfunc: Bytes): Bytes {
    if s.dklabelFromKms then s.dklabel else c.hash(c.hash(s.workerKey + c.hash(cfunc)) + Ascii("DKLABEL"))
  }

  ghost function RequestKey(c: Crypto, s: State, i: Invocation): Option<Bytes> {
    if UsesBfibe(i) then DecKey(c, s, None, i.ckey, ReqAad(c, InvocationFid(s, i), i))
    else DecKey(c, s, Some(s.workerKey), i.ckey, Ascii("C_KEY"))
  }

  ghost function FunctionKey(c: Crypto, s: State, i: Invocation): Option<Bytes> {
    if UsesBfibe(i) then DecKey(c, s, None, i.ckfunc, PkgAad(InvocationFid(s, i)))
    else DecKey(c, s, Some(LabelCapability(c, s, i.cfunc)), i.ckfunc, Ascii("C_K_FUNC"))
  }

  /** The function code of an invocation, decrypted. */
  ghost function OpenCode(c: Crypto, s: State, i: Invocation): Option<Bytes> {
    match FunctionKey(c, s, i)
    case None => None
    case Some(k) => c.open(Cut(k, 16), i.wasmIv, PkgAad(InvocationFid(s, i)), i.cfunc, i.wasmMac)
  }

  function OpenInput(c: Crypto, s: State, i: Invocation, k: Bytes): Option<Bytes> {
    if i.input == [] then Some([])
    else c.open(Cut(k, 16), i.inputIv, ReqAad(c, InvocationFid(s, i), i), i.input, i.inputMac)
  }

  function Lookup(s: State, fid: Bytes, hash: Bytes): Option<Bytes> {
    if s.cache.Some? && SameFid(s.cache.value.fid, fid) && s.cache.value.hash == hash then Some(s.cache.value.wasm)
    else None
  }

  /** Empty code is never stored. */
  function Stored(s: State, fid: Bytes, hash: Bytes, wasm: Bytes): State {
    if wasm == [] then s else s.(cache := Some(Entry(Cut(fid, COMPARED), hash, wasm)))
  }

  function RunWith(c: Crypto, s: State, i: Invocation, k: Bytes, wasm: Bytes, hit: bool): Option<Run> {
    match OpenInput(c, s, i, k)
    case None => None
    case Some(input) => Some(Run(wasm, input, hit))
  }

  /** The state after an invocation and what it ran; code is stored even if the input then fails. */
  ghost function DoInvoke(c: Crypto, s: State, i: Invocation): (State, Option<Run>) {
    if !KeyPresent(s, i) then (s, None)
    else
      var fid, hash := InvocationFid(s, i), c.hash(i.cfunc);
      var found := Lookup(s, fid, hash);
      if i.ckey == [] || (found.None? && i.ckfunc == []) then (s, None)
      else
        match RequestKey(c, s, i)
        case None => (s, None)
        case Some(k) =>
          if found.Some? then (s, RunWith(c, s, i, k, found.value, true))
          else
            match OpenCode(c, s, i)
            case None => (s, None)
            case Some(wasm) => (Stored(s, fid, hash, wasm), RunWith(c, s, i, k, wasm, false))
  }

  // ---------- One ecall ----------

  datatype Call =
    | CreateReport(privateKey: Bytes)
    | DecryptKey(packed: Bytes, fid: Bytes)
    | DecryptKeysBatch(dkf: Bytes, dklabel: Bytes, fid: Bytes)
    | LoadRelease(release: Bytes, fid: Bytes)
    | Invoke(i: Invocation)

  datatype Out = Void | Ret(ok: bool) | Ran(run: Option<Run>)

  ghost predicate Next(c: Crypto, s: State, call: Call, t: State, out: Out) {
    match call
    case CreateReport(sk) => t == s.(privateKey := sk, keypairReady := true) && out == Void
    case DecryptKey(p, fid) => |p| == PACKED_KEY_LEN && t == DoDecryptKey(c, s, p, fid) && out == Void
    case DecryptKeysBatch(p, q, fid) =>
      |p| == PACKED_KEY_LEN && |q| == PACKED_KEY_LEN && t == DoDecryptKeysBatch(c, s, p, q, fid) && out == Void
    case LoadRelease(release, fid) => out.Ret? && LoadStep(c, s, release, fid, t, out.ok)
    case Invoke(i) => var (u, run) := DoInvoke(c, s, i); t == u && out == Ran(run)
  }

  // ---------- Runs ----------

  datatype Trace = Trace(states: seq<State>, calls: seq<Call>, outs: seq<Out>)

  ghost predicate IsRun(c: Crypto, r: Trace) {
    && |r.states| == |r.calls| + 1 && |r.outs| == |r.calls|
    && r.states[0] == Initial()
    && forall n :: 0 <= n < |r.calls| ==> StepAt(c, r, n)
  }

  ghost predicate StepAt(c: Crypto, r: Trace, n: nat)
    requires |r.states| == |r.calls| + 1 && |r.outs| == |r.calls| && n < |r.calls|
  {
    Next(c, r.states[n], r.calls[n], r.states[n + 1], r.outs[n])
  }

  /** The fid is the one some key is currently loaded for. */
  predicate IsLoaded(s: State, fid: Bytes) {
    (s.keyLoaded && SameFid(s.workerFid, fid)) || (s.bfibeLoaded && SameFid(s.bfibeFid, fid))
  }

  /** Call m decrypted code for this fid from a ciphertext with this hash, and stored it. */
  ghost predicate StoredBy(c: Crypto, r: Trace, m: nat, e: Entry)
    requires |r.states| == |r.calls| + 1
  {
    && m < |r.calls| && r.calls[m].Invoke?
    && var s := r.states[m]; var i := r.calls[m].i;
    && KeyPresent(s, i) && SameFid(InvocationFid(s, i), e.fid)
    && c.hash(i.cfunc) == e.hash
    && OpenCode(c, s, i) == Some(e.wasm) && e.wasm != []
  }

  /** From m + 1 to n the cache holds e and e's fid stays loaded. */
  ghost predicate HeldSince(r: Trace, m: nat, n: nat, e: Entry)
    requires |r.states| == |r.calls| + 1 && n < |r.states|
  {
    m < n && forall k :: m < k <= n ==> r.states[k].cache == Some(e) && IsLoaded(r.states[k], e.fid)
  }

  predicate Legal(s: State) {
    && |s.workerFid| <= COMPARED && |s.bfibeFid| <= BFIBE_FID_CHARS
    && (s.cache.Some? ==> IsLoaded(s, s.cache.value.fid) && |s.cache.value.fid| <= COMPARED)
  }

  /** One call keeps the entry legal, and an entry it did not find it has just stored. */
  lemma StepLegal(c: Crypto, s: State, call: Call, t: State, out: Out)
    requires Legal(s) && Next(c, s, call, t, out)
    ensures Legal(t)
    ensures t.cache.Some? && t.cache != s.cache ==>
              call.Invoke? && KeyPresent(s, call.i)
              && var e := t.cache.value;
                 SameFid(InvocationFid(s, call.i), e.fid) && c.hash(call.i.cfunc) == e.hash
                 && OpenCode(c, s, call.i) == Some(e.wasm) && e.wasm != []
  {
    hide OpenPacked, OpenCode, UsesBfibe, LoadStep, SameFid, StoreWorkerFid, DoInvoke, Cut, Legal;
    match call
    case CreateReport(sk) => SameFidsLegal(s, t);
    case DecryptKey(p, fid) =>
      if OpenPacked(c, s, p).Some? {
        StoreFidLegal(s, s.(workerKey := OpenPacked(c, s, p).value), fid);
      }
    case DecryptKeysBatch(p, q, fid) => BatchLegal(c, s, p, q, fid);
    case LoadRelease(release, fid) => LoadLegal(c, s, release, fid, t, out.ok);
    case Invoke(i) => InvokeLegal(c, s, i);
  }

  /** Only the keys may differ. */
  ghost predicate SameFids(s: State, t: State) {
    && t.workerFid == s.workerFid && t.keyLoaded == s.keyLoaded && t.cache == s.cache
    && t.bfibeFid == s.bfibeFid && t.bfibeLoaded == s.bfibeLoaded
  }

  lemma SameFidsLegal(s: State, t: State)
    requires Legal(s) && SameFids(s, t)
    ensures Legal(t)
  {
    hide SameFid;
  }

  lemma StoreFidLegal(s: State, t: State, fid: Bytes)
    requires Legal(s) && SameFids(s, t)
    ensures Legal(StoreWorkerFid(t, fid))
    ensures var u := StoreWorkerFid(t, fid); u.cache.Some? ==> u.cache == s.cache
  {
  }

  lemma BatchLegal(c: Crypto, s: State, p: Bytes, q: Bytes, fid: Bytes)
    requires Legal(s) && |p| == PACKED_KEY_LEN && |q| == PACKED_KEY_LEN
    ensures Legal(DoDecryptKeysBatch(c, s, p, q, fid))
    ensures var u := DoDecryptKeysBatch(c, s, p, q, fid); u.cache.Some? ==> u.cache == s.cache
  {
    hide OpenPacked, StoreWorkerFid, Legal, SameFid;
    match OpenPacked(c, s, p)
    case None =>
    case Some(key) =>
      var t := s.(workerKey := key);
      match OpenPacked(c, t, q)
      case None => SameFidsLegal(s, t);
      case Some(l) => StoreFidLegal(s, t.(dklabel := l, dklabelFromKms := true), fid);
  }

  lemma LoadLegal(c: Crypto, s: State, release: Bytes, fid: Bytes, t: State, ok: bool)
    requires Legal(s) && LoadStep(c, s, release, fid, t, ok)
    ensures Legal(t) && (t.cache.Some? ==> t.cache == s.cache)
  {
    hide LoadsAs, LastKey;
  }

  lemma InvokeLegal(c: Crypto, s: State, i: Invocation)
    requires Legal(s)
    ensures var t := DoInvoke(c, s, i).0;
      && Legal(t)
      && (t.cache.Some? && t.cache != s.cache ==>
            var e := t.cache.value;
            KeyPresent(s, i) && SameFid(InvocationFid(s, i), e.fid) && c.hash(i.cfunc) == e.hash
            && OpenCode(c, s, i) == Some(e.wasm) && e.wasm != [])
  {
    hide OpenCode, OpenInput, RequestKey, UsesBfibe, FidBytes;
  }

  /** In every run a cached entry belongs to a loaded fid and holds the code of an earlier successful
      decryption for that fid, kept unchanged since. */
  lemma {:induction false} CacheHasCause(c: Crypto, r: Trace, n: nat) returns (m: nat)
    requires IsRun(c, r) && n < |r.states|
    ensures Legal(r.states[n])
    ensures r.states[n].cache.Some? ==>
              StoredBy(c, r, m, r.states[n].cache.value) && HeldSince(r, m, n, r.states[n].cache.value)
  {
    hide Next, OpenCode, OpenInput, RequestKey, UsesBfibe, LoadsAs, LastKey, FidBytes, KeyPresent, InvocationFid, SameFid;
    m := 0;
    if n > 0 {
      m := CacheHasCause(c, r, n - 1);
      assert StepAt(c, r, n - 1);
      var s, t := r.states[n - 1], r.states[n];
      StepLegal(c, s, r.calls[n - 1], t, r.outs[n - 1]);
      if t.cache != s.cache {
        m := n - 1;
      }
    }
  }

  /** A hit runs exactly the code an earlier miss decrypted, for the same fid and a ciphertext with
      the same hash; the fid stayed loaded and the entry unchanged in between. */
  lemma HitRunsStoredCode(c: Crypto, r: Trace, n: nat) returns (m: nat)
    requires IsRun(c, r) && n < |r.calls| && r.calls[n].Invoke?
    requires r.outs[n].Ran? && r.outs[n].run.Some? && r.outs[n].run.value.hit
    ensures m < n && r.calls[m].Invoke? && r.states[n].cache.Some?
    ensures var e := r.states[n].cache.value;
            StoredBy(c, r, m, e) && HeldSince(r, m, n, e)
            && r.outs[n].run.value.wasm == e.wasm
            && c.hash(r.calls[n].i.cfunc) == e.hash && SameFid(InvocationFid(r.states[n], r.calls[n].i), e.fid)
  {
    hide OpenCode, OpenInput, RequestKey, UsesBfibe, LoadsAs, LastKey, FidBytes;
    assert StepAt(c, r, n);
    m := CacheHasCause(c, r, n);
  }

  /** Whatever an invocation runs was decrypted, then or earlier, for the fid it is made for. */
  lemma RunsDecryptedCode(c: Crypto, r: Trace, n: nat) returns (m: nat)
    requires IsRun(c, r) && n < |r.calls| && r.calls[n].Invoke?
    requires r.outs[n].Ran? && r.outs[n].run.Some?
    ensures m <= n && r.calls[m].Invoke?
    ensures var s, i := r.states[m], r.calls[m].i;
            && KeyPresent(s, i) && OpenCode(c, s, i) == Some(r.outs[n].run.value.wasm)
            && c.hash(i.cfunc) == c.hash(r.calls[n].i.cfunc)
            && SameFid(InvocationFid(s, i), InvocationFid(r.states[n], r.calls[n].i))
  {
    hide OpenCode, OpenInput, RequestKey, UsesBfibe, LoadsAs, LastKey, FidBytes;
    assert StepAt(c, r, n);
    if r.outs[n].run.value.hit {
      m := HitRunsStoredCode(c, r, n);
    } else {
      m := n;
    }
  }

  // ---------- What an envelope is good for ----------

  /** An envelope opens only for its own context, and for the identity of a key that is held. */
  lemma OwnContext(c: Crypto, s: State, cap: Option<Bytes>, ct: Bytes, context: Bytes) returns (e: Envelope)
    requires IsEnvelope(ct) && DecKey(c, s, cap, ct, context).Some?
    ensures s.bfibeLoaded && EnvelopeFits(e) && WorkerTakesEnvelope(e) && ct == EncodeEnvelope(e)
    ensures e.context == context
    ensures e.purpose == RequestPurpose() ==> e.identity == RequestIdentity(s.bfibeFid) && s.requestSk != []
    ensures e.purpose == FunctionPurpose() ==> Ascii("label:") <= e.identity && s.functionSk != []
  {
    hide Ascii, EncodeEnvelope, EnvelopeAad, DecryptKeyEnvelope;
    TwoPurposes();
    e := Decoded(ct).value;
  }

  /** What a BF-IBE invocation needs of its key ciphertexts. */
  lemma OwnRequest(c: Crypto, s: State, i: Invocation) returns (e: Envelope)
    requires UsesBfibe(i) && RequestKey(c, s, i).Some?
    ensures s.bfibeLoaded && EnvelopeFits(e) && WorkerTakesEnvelope(e) && i.ckey == EncodeEnvelope(e)
    ensures e.context == ReqAad(c, s.bfibeFid, i)
  {
    hide ReqAad, EncodeEnvelope, WorkerTakesEnvelope, Decoded, OpenKeyEnvelope;
    e := OwnContext(c, s, None, i.ckey, ReqAad(c, s.bfibeFid, i));
  }

  lemma OwnFunction(c: Crypto, s: State, i: Invocation) returns (e: Envelope)
    requires UsesBfibe(i) && FunctionKey(c, s, i).Some?
    ensures s.bfibeLoaded && EnvelopeFits(e) && WorkerTakesEnvelope(e) && i.ckfunc == EncodeEnvelope(e)
    ensures e.context == PkgAad(s.bfibeFid)
  {
    hide PkgAad, EncodeEnvelope, WorkerTakesEnvelope, Decoded, OpenKeyEnvelope;
    e := OwnContext(c, s, None, i.ckfunc, PkgAad(s.bfibeFid));
  }

  /** No envelope ever opens both as a request key and as a function key. */
  lemma SlotsApart(c: Crypto, s: State, i: Invocation, t: State, j: Invocation)
    requires UsesBfibe(i) && RequestKey(c, s, i).Some? && UsesBfibe(j) && FunctionKey(c, t, j).Some?
    ensures i.ckey != j.ckfunc
  {
    hide RequestKey, FunctionKey, EncodeEnvelope, ReqAad, PkgAad, UsesBfibe;
    var e := OwnRequest(c, s, i);
    var f := OwnFunction(c, t, j);
    ContextsApart(c, s.bfibeFid, i, t.bfibeFid);
    if i.ckey == j.ckfunc {
      EnvelopeUnique(e, [], f, []);
    }
  }

  lemma ContextsApart(c: Crypto, fid: Bytes, i: Invocation, fid': Bytes)
    ensures ReqAad(c, fid, i) != PkgAad(fid')
  {
    hide FidBytes;
    assert ReqAad(c, fid, i)[0] == 'R' as int && PkgAad(fid')[0] == 'P' as int;
  }

  /** A request envelope that opens in two invocations opens for the same fid bytes, nonce and client key hash. */
  lemma RequestEnvelopeBinds(c: Crypto, s: State, i: Invocation, t: State, j: Invocation)
    requires UsesBfibe(i) && RequestKey(c, s, i).Some? && UsesBfibe(j) && RequestKey(c, t, j).Some?
    requires i.ckey == j.ckey && |i.nonce| == |j.nonce| && |c.hash(i.pkU)| == |c.hash(j.pkU)|
    ensures FidBytes(s.bfibeFid) == FidBytes(t.bfibeFid) && i.nonce == j.nonce && c.hash(i.pkU) == c.hash(j.pkU)
  {
    hide RequestKey, EncodeEnvelope, FidBytes, UsesBfibe, Ascii;
    var e := OwnRequest(c, s, i);
    var f := OwnRequest(c, t, j);
    EnvelopeUnique(e, [], f, []);
    var a, b := Ascii("REQ") + FidBytes(s.bfibeFid), Ascii("REQ") + FidBytes(t.bfibeFid);
    CancelLast(a + i.nonce, c.hash(i.pkU), b + j.nonce, c.hash(j.pkU));
    CancelLast(a, i.nonce, b, j.nonce);
    CancelFirst(Ascii("REQ"), FidBytes(s.bfibeFid), FidBytes(t.bfibeFid));
  }

  /** In every run, a BF-IBE invocation that reaches the runtime opened the envelope e made for its
      own fid, nonce and client key, and its code was decrypted by some call m, itself with an envelope f
      made for its own fid when that call was a BF-IBE one. */
  lemma RunsOwnEnvelopes(c: Crypto, r: Trace, n: nat) returns (e: Envelope, m: nat, f: Option<Envelope>)
    requires IsRun(c, r) && n < |r.calls| && r.calls[n].Invoke?
    requires r.outs[n].Ran? && r.outs[n].run.Some? && UsesBfibe(r.calls[n].i)
    ensures EnvelopeFits(e) && r.calls[n].i.ckey == EncodeEnvelope(e)
    ensures e.context == ReqAad(c, r.states[n].bfibeFid, r.calls[n].i)
    ensures m <= n && r.calls[m].Invoke? && OpenCode(c, r.states[m], r.calls[m].i) == Some(r.outs[n].run.value.wasm)
    ensures SameFid(InvocationFid(r.states[m], r.calls[m].i), r.states[n].bfibeFid)
    ensures UsesBfibe(r.calls[m].i) ==>
              && f.Some? && EnvelopeFits(f.value) && r.calls[m].i.ckfunc == EncodeEnvelope(f.value)
              && f.value.context == PkgAad(r.states[m].bfibeFid)
  {
    hide RequestKey, FunctionKey, OpenInput, UsesBfibe, FidBytes, ReqAad, PkgAad, EncodeEnvelope, SameFid, Decoded;
    assert StepAt(c, r, n);
    e := OwnRequest(c, r.states[n], r.calls[n].i);
    m := RunsDecryptedCode(c, r, n);
    f := None;
    if UsesBfibe(r.calls[m].i) {
      var g := OwnFunction(c, r.states[m], r.calls[m].i);
      f := Some(g);
    }
  }

  // ---------- The ecalls ----------

  lemma LastKeySnoc(rs: seq<Record>, r: Record, purpose: Bytes)
    ensures LastKey(rs + [r], purpose) == if r.purpose == purpose then r.privateKey else LastKey(rs, purpose)
  {
    assert (rs + [r])[..|rs|] == rs;
  }

  /** A parsed release that does not open, or opens to no acceptable record list, loads as nothing. */
  lemma NoLoad(c: Crypto, s: State, release: Bytes, fid: Bytes, v: Release)
    requires ReleaseFits(v) && WorkerAccepts(v) && release == EncodeRelease(v)
    requires var p := OpenRelease(c, s.privateKey, fid, v); p.None? || Refused(WorkerFor(fid), p.value)
    ensures forall w, rs :: !LoadsAs(c, s, release, fid, w, rs)
  {
    hide EncodeRelease, OpenRelease, Takes, Profile, EncodeKeySet;
    forall w, rs | LoadsAs(c, s, release, fid, w, rs)
      ensures false
    {
      ReleaseUnique(v, [], w, []);
    }
  }

  /** The enclave's globals. */
  class Worker {
    const c: Crypto
    var privateKey: Bytes
    var keypairReady: bool
    var workerKey: Bytes
    var workerFid: Bytes
    var keyLoaded: bool
    var dklabel: Bytes
    var dklabelFromKms: bool
    var requestSk: Bytes
    var functionSk: Bytes
    var bfibeFid: Bytes
    var bfibeLoaded: bool
    var cache: Option<Entry>

    function Now(): State
      reads this
    {
      State(privateKey, keypairReady, workerKey, workerFid, keyLoaded, dklabel, dklabelFromKms,
            requestSk, functionSk, bfibeFid, bfibeLoaded, cache)
    }

    constructor (c: Crypto)
      ensures Now() == Initial() && this.c == c
    {
      this.c := c;
      privateKey, keypairReady, workerKey, workerFid, keyLoaded := Zeros(32), false, Zeros(32), [], false;
      dklabel, dklabelFromKms, requestSk, functionSk, bfibeFid := Zeros(32), false, [], [], [];
      bfibeLoaded, cache := false, None;
    }

    method CreateReport(sk: Bytes)
      modifies this
      ensures Next(c, old(Now()), Call.CreateReport(sk), Now(), Void)
    {
      hide DoDecryptKey, DoDecryptKeysBatch, LoadStep, DoInvoke;
      privateKey, keypairReady := sk, true;
    }

    method FunctionCacheClear()
      modifies this`cache
      ensures cache == None
    {
      cache := None;
    }

    method FunctionCacheLookup(fid: Bytes, hash: Bytes) returns (wasm: Option<Bytes>)
      ensures wasm == Lookup(Now(), fid, hash)
    {
      if cache.None? || !SameFid(cache.value.fid, fid) || cache.value.hash != hash {
        return None;
      }
      wasm := Some(cache.value.wasm);
    }

    method FunctionCacheStore(fid: Bytes, hash: Bytes, wasm: Bytes) returns (ok: bool)
      modifies this`cache
      ensures Now() == Stored(old(Now()), fid, hash, wasm) && (ok <==> wasm != [])
    {
      if |wasm| == 0 {
        return false;
      }
      FunctionCacheClear();
      cache := Some(Entry(Cut(fid, COMPARED), hash, wasm));
      ok := true;
    }

    method Unpack(packed: Bytes) returns (key: Option<Bytes>)
      requires |packed| == PACKED_KEY_LEN
      ensures key == OpenPacked(c, Now(), packed)
    {
      var shared := c.dh(privateKey, packed[..64]);
      if shared.None? || |shared.value| < 16 {
        return None;
      }
      key := c.open(shared.value[..16], packed[64..76], [], packed[92..124], packed[76..92]);
    }

    method SetWorkerFid(fid: Bytes)
      modifies this
      ensures Now() == StoreWorkerFid(old(Now()), fid)
    {
      hide SameFid, Cut;
      if !keyLoaded || !SameFid(workerFid, fid) {
        FunctionCacheClear();
      }
      workerFid := Cut(fid, COMPARED);
      keyLoaded := true;
    }

    method EcallDecryptKey(packed: Bytes, fid: Bytes)
      requires |packed| == PACKED_KEY_LEN
      modifies this
      ensures Next(c, old(Now()), DecryptKey(packed, fid), Now(), Void)
    {
      hide OpenPacked, StoreWorkerFid, DoDecryptKeysBatch, LoadStep, DoInvoke;
      var key := Unpack(packed);
      if key.None? {
        return;
      }
      workerKey := key.value;
      SetWorkerFid(fid);
    }

    method EcallDecryptKeysBatch(dkf: Bytes, dkl: Bytes, fid: Bytes)
      requires |dkf| == PACKED_KEY_LEN && |dkl| == PACKED_KEY_LEN
      modifies this
      ensures Next(c, old(Now()), DecryptKeysBatch(dkf, dkl, fid), Now(), Void)
    {
      hide OpenPacked, StoreWorkerFid, DoDecryptKey, LoadStep, DoInvoke;
      var key := Unpack(dkf);
      if key.None? {
        return;
      }
      workerKey := key.value;
      var l := Unpack(dkl);
      if l.None? {
        return;
      }
      dklabel := l.value;
      dklabelFromKms := true;
      SetWorkerFid(fid);
    }

    method ImportRecord(r: Record, fid: Bytes) returns (ok: bool)
      modifies this`requestSk, this`functionSk
      ensures ok <==> Importable(fid, r)
      ensures requestSk == if ok && r.purpose == RequestPurpose() then r.privateKey else old(requestSk)
      ensures functionSk == if ok && r.purpose != RequestPurpose() then r.privateKey else old(functionSk)
    {
      hide Ascii;
      if r.purpose == RequestPurpose() {
        if |Ascii("fid:") + fid| >= IDENTITY_BUFFER || r.identity != Ascii("fid:") + fid {
          return false;
        }
        if |r.privateKey| == 0 || |r.privateKey| > KEY_BUFFER {
          return false;
        }
        requestSk := r.privateKey;
        return true;
      }
      if r.purpose == FunctionPurpose() {
        if |r.privateKey| == 0 || |r.privateKey| > KEY_BUFFER || !(Ascii("label:") <= r.identity) {
          return false;
        }
        functionSk := r.privateKey;
        return true;
      }
      ok := false;
    }

    /** Imports a whole set or fails; rs is the list behind the keys now held, complete or not. */
    method ParseKeySet(plaintext: Bytes, fid: Bytes) returns (ok: bool, ghost rs: seq<Record>)
      modifies this`requestSk, this`functionSk
      ensures IsKeySetIn(plaintext, if ok then Some(rs) else None, WorkerFor(fid))
      ensures ok ==> requestSk == LastKey(rs, RequestPurpose()) && functionSk == LastKey(rs, FunctionPurpose())
      ensures !ok ==> || (requestSk == old(requestSk) && functionSk == old(functionSk))
                      || (requestSk == LastKey(rs, RequestPurpose()) && functionSk == LastKey(rs, FunctionPurpose()))
    {
      hide Reader.Done, EncodeRecord, EncodeRecords, Front, Importable, Stuck, Refused, RequestPurpose, FunctionPurpose;
      ghost var rules := WorkerFor(fid);
      rs := [];
      var rd := new Reader(plaintext);
      var count;
      ok, count := ReadFront(rd);
      if !ok {
        return;
      }
      requestSk, functionSk := [], [];
      var foundRequest, foundFunction := false, false;
      NoRecordsYet(Front(count));
      for i := 0 to count
        invariant rd.Valid() && |rs| == i && RecordsFit(rs) && AllGood(rules, rs)
        invariant rd.Done() == Front(count) + EncodeRecords(rs)
        invariant requestSk == LastKey(rs, RequestPurpose()) && functionSk == LastKey(rs, FunctionPurpose())
        invariant (foundRequest <==> requestSk != []) && (foundFunction <==> functionSk != [])
      {
        ghost var start := rd.offset;
        rd.DoneIs();
        var record := ReadRecord(rd, rules);
        rd.DoneIs();
        var imported := false;
        if record.Some? {
          imported := ImportRecord(record.value, fid);
        }
        if !imported {
          Rejected(rules, plaintext, count, rs, start, record);
          requestSk, functionSk := [], [];
          rs := [];
          ok := false;
          return;
        }
        ImportedKeys(fid, rs, record.value);
        if record.value.purpose == RequestPurpose() {
          foundRequest := true;
        } else {
          foundFunction := true;
        }
        OneMore(rules, Front(count), rs, record.value);
        rs := rs + [record.value];
      }
      rd.DoneIs();
      Decided(rules, plaintext, rs, rd.offset);
      ok := rd.offset == |plaintext| && foundRequest && foundFunction;
    }

    method DecryptRelease(v: Release, fid: Bytes) returns (plaintext: Option<Bytes>)
      requires ReleaseFits(v) && WorkerAccepts(v)
      ensures plaintext == OpenRelease(c, privateKey, fid, v)
    {
      hide Aad;
      if v.fid != fid {
        return None;
      }
      var aad := new Byte[AAD_BUFFER](_ => 0);
      var fits, size := BuildAad(v.profile, v.fid, v.workerIdentity, v.wrapKey, aad);
      if !fits {
        return None;
      }
      var shared := c.dh(privateKey, v.wrapKey);
      if shared.None? || |shared.value| < 16 {
        return None;
      }
      var n := |v.ciphertext| - TAG_LEN;
      plaintext := c.open(shared.value[..16], v.nonce, aad[..size], v.ciphertext[..n], v.ciphertext[n..]);
    }

    /** v and rs tell how the release was read. */
    method EcallLoadBfibeKeyRelease(release: Bytes, fid: Bytes) returns (ok: bool, ghost v: Release, ghost rs: seq<Record>)
      modifies this
      ensures ok ==> LoadsAs(c, old(Now()), release, fid, v, rs) && Now() == Loaded(old(Now()), fid, rs)
      ensures Next(c, old(Now()), LoadRelease(release, fid), Now(), Ret(ok))
    {
      hide OpenRelease, EncodeRelease, EncodeKeySet, LastKey, WorkerAccepts, Takes, StoreBfibeFid;
      hide RequestPurpose, FunctionPurpose, DoDecryptKey, DoDecryptKeysBatch, DoInvoke;
      ghost var s := Now();
      v, rs := Release([], [], [], [], [], []), [];
      ok := false;
      if !keypairReady {
        return;
      }
      var parsed := ParseRelease(release);
      if parsed.None? {
        return;
      }
      v := parsed.value;
      var plaintext := DecryptRelease(parsed.value, fid);
      if plaintext.None? {
        NoLoad(c, s, release, fid, v);
        return;
      }
      ok, rs := ParseKeySet(plaintext.value, fid);
      if !ok {
        NoLoad(c, s, release, fid, v);
        return;
      }
      SetBfibeFid(fid);
    }

    method SetBfibeFid(fid: Bytes)
      modifies this
      ensures Now() == StoreBfibeFid(old(Now()), fid)
    {
      hide SameFid, Cut;
      if !bfibeLoaded || !SameFid(bfibeFid, fid) {
        FunctionCacheClear();
      }
      bfibeFid := Cut(fid, BFIBE_FID_CHARS);
      bfibeLoaded := true;
    }

    method EcallHasKey(fid: Bytes) returns (b: bool)
      ensures b <==> || (keyLoaded && Cut(workerFid, 128) == Cut(fid, 128))
                     || (bfibeLoaded && Cut(bfibeFid, 128) == Cut(fid, 128))
    {
      if keyLoaded && SameFid(workerFid, fid) {
        return true;
      }
      b := bfibeLoaded && SameFid(bfibeFid, fid);
    }

    method OpenEnvelope(e: Envelope, context: Bytes) returns (key: Option<Bytes>)
      requires EnvelopeFits(e) && WorkerTakesEnvelope(e)
      ensures key == OpenKeyEnvelope(c, Now(), e, context)
    {
      hide Tagged, DecryptKeyEnvelope;
      if e.context != context {
        return None;
      }
      var sk := KeyForIdentity(Now(), e);
      if sk.None? || |sk.value| == 0 {
        return None;
      }
      var aad := new Byte[ENVELOPE_AAD_BUFFER](_ => 0);
      var fits, size := BuildTagged(EnvelopeAadMagic(), e.profile, e.purpose, e.identity, e.context, aad);
      if !fits {
        return None;
      }
      key := DecryptKeyEnvelope(c, sk.value, e.c1, e.nonce, e.ciphertext, aad[..size]);
    }

    method DecryptKeyCiphertext(cap: Option<Bytes>, ct: Bytes, context: Bytes) returns (key: Option<Bytes>)
      ensures key == DecKey(c, Now(), cap, ct, context)
    {
      hide LegacyKey, OpenKeyEnvelope;
      if IsEnvelope(ct) {
        if !bfibeLoaded {
          return None;
        }
        var e := ParseEnvelope(ct);
        DecodedIs(ct, e);
        if e.None? {
          return None;
        }
        key := OpenEnvelope(e.value, context);
        return;
      }
      if cap.None? {
        return None;
      }
      key := LegacyKey(c, cap.value, ct);
    }

    method DecryptRequestKey(i: Invocation) returns (k: Option<Bytes>)
      ensures k == RequestKey(c, Now(), i)
    {
      hide DecKey, ReqAad;
      if UsesBfibe(i) {
        k := DecryptKeyCiphertext(None, i.ckey, ReqAad(c, InvocationFid(Now(), i), i));
      } else {
        k := DecryptKeyCiphertext(Some(workerKey), i.ckey, Ascii("C_KEY"));
      }
    }

    method DecryptCode(i: Invocation) returns (wasm: Option<Bytes>)
      ensures wasm == OpenCode(c, Now(), i)
    {
      hide DecKey;
      var fid := InvocationFid(Now(), i);
      var k;
      if UsesBfibe(i) {
        k := DecryptKeyCiphertext(None, i.ckfunc, PkgAad(fid));
      } else {
        k := DecryptKeyCiphertext(Some(LabelCapability(c, Now(), i.cfunc)), i.ckfunc, Ascii("C_K_FUNC"));
      }
      if k.None? {
        return None;
      }
      wasm := c.open(Cut(k.value, 16), i.wasmIv, PkgAad(fid), i.cfunc, i.wasmMac);
    }

    /** Up to the hand-over to the runtime. */
    method EcallRunEncryptedWasm(i: Invocation) returns (run: Option<Run>)
      modifies this
      ensures Next(c, old(Now()), Invoke(i), Now(), Ran(run))
    {
      hide RequestKey, OpenCode, OpenInput, Stored, Lookup, KeyPresent, InvocationFid;
      hide DoDecryptKey, DoDecryptKeysBatch, LoadStep;
      if !KeyPresent(Now(), i) {
        return None;
      }
      var fid := InvocationFid(Now(), i);
      var hash := c.hash(i.cfunc);
      var found := FunctionCacheLookup(fid, hash);
      if i.ckey == [] || (found.None? && i.ckfunc == []) {
        return None;
      }
      var k := DecryptRequestKey(i);
      if k.None? {
        return None;
      }
      var before := Now();
      var wasm := CodeFor(i, fid, hash, found);
      if wasm.None? {
        return None;
      }
      var input := OpenInput(c, before, i, k.value);
      if input.None? {
        return None;
      }
      run := Some(Run(wasm.value, input.value, found.Some?));
    }

    /** The cached code, or else the decrypted code, which is stored. */
    method CodeFor(i: Invocation, fid: Bytes, hash: Bytes, found: Option<Bytes>) returns (wasm: Option<Bytes>)
      modifies this`cache
      ensures wasm == if found.Some? then found else OpenCode(c, old(Now()), i)
      ensures Now() == if found.Some? || wasm.None? then old(Now()) else Stored(old(Now()), fid, hash, wasm.value)
    {
      hide OpenCode, Stored;
      if found.Some? {
        return found;
      }
      wasm := DecryptCode(i);
      if wasm.Some? {
        var stored := FunctionCacheStore(fid, hash, wasm.value);
      }
    }
  }

  lemma ImportedKeys(fid: Bytes, rs: seq<Record>, r: Record)
    requires Importable(fid, r)
    ensures r.privateKey != []
    ensures LastKey(rs + [r], RequestPurpose())
         == if r.purpose == RequestPurpose() then r.privateKey else LastKey(rs, RequestPurpose())
    ensures LastKey(rs + [r], FunctionPurpose())
         == if r.purpose == RequestPurpose() then LastKey(rs, FunctionPurpose()) else r.privateKey
  {
    hide Ascii, RequestPurpose, FunctionPurpose, LastKey;
    TwoPurposes();
    LastKeySnoc(rs, r, RequestPurpose());
    LastKeySnoc(rs, r, FunctionPurpose());
  }
}
