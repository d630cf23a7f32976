/** What the one-entry function-code cache promises over a whole run: which calls leave an entry
    alone, and that an entry left alone is found. */
module CodeCache {
  import opened ByteStrings
  import opened Envelopes
  import opened KeySets
  import opened KeyRelease
  import opened WorkerEnclave
  import opened Wrappers

  /** The call leaves a cached entry as it is. Key loads do when they fail, or when the slot they load
      already holds a fid with the same first 128 characters; an invocation does when it finds its own
      code cached or decrypts none. */
  ghost predicate LeavesEntry(c: Crypto, s: State, call: Call, out: Out) {
    match call
    case CreateReport(_) => true
    case DecryptKey(p, fid) =>
      |p| == 124 && (OpenPacked(c, s, p).None? || (s.keyLoaded && Cut(s.workerFid, 128) == Cut(fid, 128)))
    case DecryptKeysBatch(p, q, fid) =>
      |p| == 124 && |q| == 124
      && (OpenPacked(c, s, p).None? || OpenPacked(c, s, q).None?
          || (s.keyLoaded && Cut(s.workerFid, 128) == Cut(fid, 128)))
    case LoadRelease(_, fid) => out.Ret? && (!out.ok || (s.bfibeLoaded && Cut(s.bfibeFid, 128) == Cut(fid, 128)))
    case Invoke(i) => FindsCode(c, s, i) || DecryptsNoCode(c, s, i)
  }

  /** The entry is for the fid the invocation runs under and for its ciphertext. */
  ghost predicate FindsCode(c: Crypto, s: State, i: Invocation) {
    var fid := if IsEnvelope(i.ckey) || IsEnvelope(i.ckfunc) then s.bfibeFid else s.workerFid;
    s.cache.Some? && Cut(s.cache.value.fid, 128) == Cut(fid, 128) && s.cache.value.hash == c.hash(i.cfunc)
  }

  /** The invocation stops before it holds new code, or the code is empty. */
  ghost predicate DecryptsNoCode(c: Crypto, s: State, i: Invocation) {
    || (if IsEnvelope(i.ckey) || IsEnvelope(i.ckfunc) then !s.bfibeLoaded else !s.keyLoaded)
    || RequestKey(c, s, i).None? || i.ckfunc == []
    || OpenCode(c, s, i) in {None, Some([])}
  }

  /** What an invocation runs, in full. The slot is the BF-IBE one as soon as either key ciphertext is an
      envelope; its key must be loaded, the request key must open and so must the input, unless there is
      none; the code is the cached one or else opens under the function key. */
  lemma RunsExactly(c: Crypto, s: State, i: Invocation, run: Run)
    ensures var envelope := IsEnvelope(i.ckey) || IsEnvelope(i.ckfunc);
            var fid := if envelope then s.bfibeFid else s.workerFid;
            var own := if s.dklabelFromKms then s.dklabel
                         else c.hash(c.hash(s.workerKey + c.hash(i.cfunc)) + Ascii("DKLABEL"));
            var k := if envelope then DecKey(c, s, None, i.ckey, ReqAad(c, fid, i))
                     else DecKey(c, s, Some(s.workerKey), i.ckey, Ascii("C_KEY"));
            var f := if envelope then DecKey(c, s, None, i.ckfunc, PkgAad(fid))
                     else DecKey(c, s, Some(own), i.ckfunc, Ascii("C_K_FUNC"));
            DoInvoke(c, s, i).1 == Some(run) <==>
              && (if envelope then s.bfibeLoaded else s.keyLoaded)
              && k.Some?
              && (if i.input == [] then run.input == []
                  else c.open(Cut(k.value, 16), i.inputIv, ReqAad(c, fid, i), i.input, i.inputMac) == Some(run.input))
              && if FindsCode(c, s, i) then run.hit && run.wasm == s.cache.value.wasm
                 else !run.hit && f.Some?
                      && c.open(Cut(f.value, 16), i.wasmIv, PkgAad(fid), i.cfunc, i.wasmMac) == Some(run.wasm)
  {
    hide DecKey, ReqAad, PkgAad, IsEnvelope, Cut;
    if RequestKey(c, s, i).Some? {
      NothingOpens(c, s, i);
    }
    if FunctionKey(c, s, i).Some? {
      NoCodeOpens(c, s, i);
    }
  }

  /** An invocation changes nothing but the cache. */
  lemma OnlyTheCache(c: Crypto, s: State, i: Invocation)
    ensures DoInvoke(c, s, i).0 == s.(cache := DoInvoke(c, s, i).0.cache)
  {
    hide RequestKey, OpenCode, OpenInput, Lookup;
  }

  /** Exactly the calls that leave an entry alone keep it. */
  lemma EntryKept(c: Crypto, s: State, call: Call, t: State, out: Out)
    requires s.cache.Some? && |s.cache.value.fid| <= 128 && Next(c, s, call, t, out)
    ensures t.cache == s.cache <==> LeavesEntry(c, s, call, out)
  {
    hide OpenPacked, Cut, LoadStep, DoInvoke, FindsCode, DecryptsNoCode;
    match call
    case CreateReport(_) =>
    case DecryptKey(_, _) =>
    case DecryptKeysBatch(p, q, _) => SameOpening(c, s, q);
    case LoadRelease(release, fid) => LoadKeeps(c, s, release, fid, t, out.ok);
    case Invoke(i) => InvocationKeeps(c, s, i);
  }

  /** The BF-IBE slot keeps 127 characters, so a longer fid never finds itself loaded. */
  lemma LongFidReload(c: Crypto, s: State, release: Bytes, fid: Bytes, t: State, out: Out)
    requires Legal(s) && |fid| >= 128 && Next(c, s, LoadRelease(release, fid), t, out) && out.ok
    ensures t.cache.None?
  {
    hide LoadsAs, LastKey;
    assert |Cut(s.bfibeFid, 128)| <= 127 && |Cut(fid, 128)| == 128;
  }

  lemma SameOpening(c: Crypto, s: State, q: Bytes)
    requires |q| == 124
    ensures forall k :: OpenPacked(c, s.(workerKey := k), q) == OpenPacked(c, s, q)
  {
  }

  lemma LoadKeeps(c: Crypto, s: State, release: Bytes, fid: Bytes, t: State, ok: bool)
    requires s.cache.Some? && LoadStep(c, s, release, fid, t, ok)
    ensures t.cache == s.cache <==> !ok || (s.bfibeLoaded && Cut(s.bfibeFid, 128) == Cut(fid, 128))
  {
    hide LoadsAs, LastKey, Cut;
  }

  /** A key ciphertext that opens is not empty. */
  lemma NothingOpens(c: Crypto, s: State, i: Invocation)
    requires RequestKey(c, s, i).Some?
    ensures i.ckey != []
  {
    hide ReqAad, OpenKeyEnvelope, Decoded;
  }

  lemma NoCodeOpens(c: Crypto, s: State, i: Invocation)
    requires FunctionKey(c, s, i).Some?
    ensures i.ckfunc != []
  {
    hide PkgAad, OpenKeyEnvelope, Decoded, LabelCapability;
  }

  lemma InvocationKeeps(c: Crypto, s: State, i: Invocation)
    requires s.cache.Some? && |s.cache.value.fid| <= 128
    ensures DoInvoke(c, s, i).0.cache == s.cache <==> FindsCode(c, s, i) || DecryptsNoCode(c, s, i)
  {
    hide RequestKey, OpenCode, OpenInput;
    if RequestKey(c, s, i).Some? {
      NothingOpens(c, s, i);
    }
  }

  /** In a run, what is cached after call m is still cached when call n begins. */
  lemma {:induction false} EntryStays(c: Crypto, r: Trace, m: nat, n: nat)
    requires IsRun(c, r) && m < n < |r.states|
    requires r.states[m + 1].cache.Some? && |r.states[m + 1].cache.value.fid| <= 128
    requires forall j :: m < j < n ==> LeavesEntry(c, r.states[j], r.calls[j], r.outs[j])
    ensures r.states[n].cache == r.states[m + 1].cache
  {
    hide LeavesEntry, Next;
    if n > m + 1 {
      EntryStays(c, r, m, n - 1);
      assert StepAt(c, r, n - 1);
      EntryKept(c, r.states[n - 1], r.calls[n - 1], r.states[n], r.outs[n - 1]);
    }
  }

  /** A call that ran code it had to decrypt has cached it. */
  lemma MissStores(c: Crypto, s: State, i: Invocation)
    requires DoInvoke(c, s, i).1.Some?
    ensures var t, run := DoInvoke(c, s, i).0, DoInvoke(c, s, i).1.value;
            !run.hit && run.wasm != [] ==>
              && t.cache.Some? && |t.cache.value.fid| <= 128 && t.cache.value.wasm == run.wasm
              && FindsCode(c, t.(bfibeFid := s.bfibeFid, workerFid := s.workerFid), i)
  {
    hide RequestKey, OpenCode, OpenInput, IsEnvelope;
  }

  lemma HitRuns(c: Crypto, s: State, i: Invocation, k: Bytes, input: Bytes)
    requires if IsEnvelope(i.ckey) || IsEnvelope(i.ckfunc) then s.bfibeLoaded else s.keyLoaded
    requires FindsCode(c, s, i) && RequestKey(c, s, i) == Some(k) && OpenInput(c, s, i, k) == Some(input)
    ensures DoInvoke(c, s, i) == (s, Some(Run(s.cache.value.wasm, input, true)))
  {
    hide RequestKey, OpenCode, OpenInput, IsEnvelope;
    NothingOpens(c, s, i);
  }

  /** In every run, code that call m decrypted and ran is run again, from the cache, by a later call n
      for a fid with the same first 128 characters and a ciphertext with the same hash, when every call
      in between left the entry alone. Call n needs its slot's key, a request key that opens and an
      input that opens; it needs no key ciphertext for the function, not even one that is there. */
  lemma WarmCallHits(c: Crypto, r: Trace, m: nat, n: nat, k: Bytes, input: Bytes)
    requires IsRun(c, r) && m < n < |r.calls| && r.calls[m].Invoke? && r.calls[n].Invoke?
    requires r.outs[m].Ran? && r.outs[m].run.Some? && !r.outs[m].run.value.hit && r.outs[m].run.value.wasm != []
    requires forall j :: m < j < n ==> LeavesEntry(c, r.states[j], r.calls[j], r.outs[j])
    requires var i, j := r.calls[m].i, r.calls[n].i;
             var s, t := r.states[m], r.states[n];
             && (if IsEnvelope(j.ckey) || IsEnvelope(j.ckfunc) then t.bfibeLoaded else t.keyLoaded)
             && Cut(if IsEnvelope(i.ckey) || IsEnvelope(i.ckfunc) then s.bfibeFid else s.workerFid, 128)
             == Cut(if IsEnvelope(j.ckey) || IsEnvelope(j.ckfunc) then t.bfibeFid else t.workerFid, 128)
             && c.hash(i.cfunc) == c.hash(j.cfunc)
             && RequestKey(c, t, j) == Some(k) && OpenInput(c, t, j, k) == Some(input)
    ensures r.outs[n] == Ran(Some(Run(r.outs[m].run.value.wasm, input, true)))
    ensures r.states[n + 1] == r.states[n]
  {
    hide RequestKey, OpenInput, DoInvoke, LeavesEntry, IsEnvelope;
    assert StepAt(c, r, m) && StepAt(c, r, n);
    MissStores(c, r.states[m], r.calls[m].i);
    EntryStays(c, r, m, n);
    HitRuns(c, r.states[n], r.calls[n].i, k, input);
  }
}
