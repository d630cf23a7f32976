/** The key management enclave of `sgx_kms/Enclave/Enclave.cpp` as a state machine of ecalls:
    write-once policies, label bindings, quote verification and the gates before key release. */
module Kms {

  import opened ByteStrings
  import opened Wrappers

  const MAX_POLICY_ENTRIES: nat := 128
  const MAX_LABELS: nat := 4
  const FID_CHARS: nat := 127
  const LABEL_CHARS: nat := 64

  datatype Entry = Entry(fid: Bytes, mrenclave: Bytes, policySet: bool, labels: seq<Bytes>)

  datatype State = State(entries: seq<Entry>, verified: bool, mrenclave: Bytes, fid: Bytes, reportData: Bytes)

  function Initial(): State {
    State([], false, Zeros(32), [], Zeros(64))
  }

  // ---------- Lookups ----------

  /** Position of the first entry for fid, or the number of entries. */
  function Find(entries: seq<Entry>, fid: Bytes): (i: nat)
    ensures i <= |entries|
    ensures i < |entries| ==> entries[i].fid == fid
    ensures forall k :: 0 <= k < i ==> entries[k].fid != fid
  {
    if entries == [] then 0
    else if entries[0].fid == fid then 0
    else 1 + Find(entries[1..], fid)
  }

  function PolicyOf(s: State, fid: Bytes): Option<Bytes> {
    var i := Find(s.entries, fid);
    if i < |s.entries| && s.entries[i].policySet then Some(s.entries[i].mrenclave) else None
  }

  predicate Bound(s: State, fid: Bytes, lbl: Bytes) {
    var i := Find(s.entries, fid);
    i < |s.entries| && lbl in s.entries[i].labels
  }

  /** The attestation gate: an fid with a policy needs a verification of that very fid with
      the policy's measurement. */
  predicate Attested(s: State, fid: Bytes) {
    match PolicyOf(s, fid)
    case None => true
    case Some(m) => s.verified && s.fid == fid && s.mrenclave == m
  }

  /** The key gate: the verified report data starts with the hash of the worker's key. */
  predicate KeyBound(hash: Bytes -> Bytes, s: State, pk: Bytes) {
    s.verified && |s.reportData| >= 32 && hash(pk) == s.reportData[..32]
  }

  // ---------- One ecall ----------

  datatype Call =
    | Register(fid: Bytes, policy: Bytes)
    | Bind(fid: Bytes, lbl: Bytes)
    | VerifyQuote(quote: Bytes)
    | VerifyQuoteForFid(fidOpt: Option<Bytes>, quote: Bytes)
    | SetRaResult
    | CheckBinding(fid: Bytes, lbl: Bytes)
    | GetKey(fid: Bytes, pk: Bytes)
    | DeriveKeysBatch(fid: Bytes, lbl: Bytes, pk: Bytes)
    | GetBfibeKeyRelease(fid: Bytes, lbl: Bytes, pk: Bytes)

  /** An ecall together with the outcome of the foreign steps (key derivation, ECDH, AES-GCM,
      encoding) that follow its gates. */
  datatype Event = Event(call: Call, crypto: bool)

  const QUOTE_MIN: nat := 48 + 384

  function QuoteMrenclave(quote: Bytes): Bytes
    requires |quote| >= QUOTE_MIN
  {
    quote[112..144]
  }

  function QuoteReportData(quote: Bytes): Bytes
    requires |quote| >= QUOTE_MIN
  {
    quote[368..432]
  }

  function Unverified(s: State): State {
    s.(verified := false, mrenclave := Zeros(32), fid := [], reportData := Zeros(64))
  }

  /** Exempts the test identity from the key gate. */
  predicate Exempt(fid: Bytes) {
    fid == Ascii("default_fid")
  }

  function DoRegister(s: State, fid: Bytes, policy: Bytes): (State, int) {
    var i := Find(s.entries, fid);
    if i < |s.entries| then
      if s.entries[i].policySet then (s, -1)
      else (s.(entries := s.entries[i := s.entries[i].(mrenclave := policy, policySet := true)]), 0)
    else if |s.entries| >= MAX_POLICY_ENTRIES then (s, -1)
    else (s.(entries := s.entries + [Entry(Cut(fid, FID_CHARS), policy, true, [])]), 0)
  }

  function DoBind(s: State, fid: Bytes, lbl: Bytes): (State, int) {
    var i := Find(s.entries, fid);
    if i == |s.entries| && i >= MAX_POLICY_ENTRIES then (s, -1)
    else
      var entries := if i < |s.entries| then s.entries
                     else s.entries + [Entry(Cut(fid, FID_CHARS), Zeros(32), false, [])];
      var e := entries[i];
      if lbl in e.labels then (s.(entries := entries), 0)
      else if |e.labels| >= MAX_LABELS then (s.(entries := entries), -1)
      else (s.(entries := entries[i := e.(labels := e.labels + [Cut(lbl, LABEL_CHARS)])]), 0)
  }

  function DoVerify(s: State, fid: Option<Bytes>, quote: Bytes): (State, int) {
    if fid.None? || |quote| < QUOTE_MIN then (Unverified(s), -1)
    else
      var m := QuoteMrenclave(quote);
      match PolicyOf(s, fid.value)
      case Some(p) =>
        if m != p then (Unverified(s), -1)
        else (s.(verified := true, mrenclave := m, fid := Cut(fid.value, FID_CHARS), reportData := QuoteReportData(quote)), 0)
      case None =>
        (s.(verified := true, mrenclave := m, fid := Cut(fid.value, FID_CHARS), reportData := QuoteReportData(quote)), 0)
  }

  function Code(ok: bool): int {
    if ok then 0 else -1
  }

  /** The state after an ecall and its return value. */
  function Step(hash: Bytes -> Bytes, s: State, e: Event): (State, int) {
    match e.call
    case Register(fid, policy) => DoRegister(s, fid, policy)
    case Bind(fid, lbl) => DoBind(s, fid, lbl)
    case VerifyQuote(quote) => (s, -1)
    case VerifyQuoteForFid(fid, quote) => DoVerify(s, fid, quote)
    case SetRaResult => (s.(verified := false, mrenclave := Zeros(32), fid := []), -1)
    case CheckBinding(fid, lbl) => (s, if Bound(s, fid, lbl) then 1 else 0)
    case GetKey(fid, pk) =>
      (s, Code(Attested(s, fid) && (Exempt(fid) || KeyBound(hash, s, pk)) && e.crypto))
    case DeriveKeysBatch(fid, lbl, pk) =>
      (s, Code(Attested(s, fid) && (Exempt(fid) || KeyBound(hash, s, pk)) && Bound(s, fid, lbl) && e.crypto))
    case GetBfibeKeyRelease(fid, lbl, pk) =>
      (s, Code(Attested(s, fid) && KeyBound(hash, s, pk) && Bound(s, fid, lbl) && e.crypto))
  }

  // ---------- The enclave's globals and ecalls ----------

  class Enclave {
    const hash: Bytes -> Bytes
    var registry: seq<Entry>
    var raVerified: bool
    var verifiedMrenclave: Bytes
    var verifiedFid: Bytes
    var verifiedReportData: Bytes

    function Now(): State
      reads this
    {
      State(registry, raVerified, verifiedMrenclave, verifiedFid, verifiedReportData)
    }

    constructor (hash: Bytes -> Bytes)
      ensures Now() == Initial() && this.hash == hash
    {
      this.hash := hash;
      registry := [];
      raVerified, verifiedMrenclave, verifiedFid, verifiedReportData := false, Zeros(32), [], Zeros(64);
    }

    method FindPolicy(fid: Bytes) returns (i: nat)
      ensures i == Find(registry, fid)
    {
      i := 0;
      while i < |registry| && registry[i].fid != fid
        invariant i <= |registry|
        invariant forall k :: 0 <= k < i ==> registry[k].fid != fid
      {
        i := i + 1;
      }
      FirstIsFind(registry, fid, i);
    }

    method RegisterPolicyFid(fid: Bytes, mrenclave: Bytes) returns (ret: int)
      modifies this
      ensures (Now(), ret) == Step(hash, old(Now()), Event(Register(fid, mrenclave), true))
    {
      hide Find;
      var i := FindPolicy(fid);
      if i < |registry| {
        if registry[i].policySet {
          return -1;
        }
        registry := registry[i := registry[i].(mrenclave := mrenclave, policySet := true)];
      } else {
        if |registry| >= MAX_POLICY_ENTRIES {
          return -1;
        }
        registry := registry + [Entry(Cut(fid, FID_CHARS), mrenclave, true, [])];
      }
      ret := 0;
    }

    method BindLabelToFid(fid: Bytes, lbl: Bytes) returns (ret: int)
      modifies this
      ensures (Now(), ret) == Step(hash, old(Now()), Event(Bind(fid, lbl), true))
    {
      hide Find;
      var i := FindPolicy(fid);
      if i == |registry| {
        if |registry| >= MAX_POLICY_ENTRIES {
          return -1;
        }
        registry := registry + [Entry(Cut(fid, FID_CHARS), Zeros(32), false, [])];
      }
      var labels := registry[i].labels;
      for k := 0 to |labels|
        invariant lbl !in labels[..k]
        invariant registry == (if i < |old(registry)| then old(registry)
                               else old(registry) + [Entry(Cut(fid, FID_CHARS), Zeros(32), false, [])])
        invariant raVerified == old(raVerified) && verifiedMrenclave == old(verifiedMrenclave)
        invariant verifiedFid == old(verifiedFid) && verifiedReportData == old(verifiedReportData)
      {
        if labels[k] == lbl {
          return 0;
        }
      }
      assert labels[..|labels|] == labels;
      if |labels| >= MAX_LABELS {
        return -1;
      }
      registry := registry[i := registry[i].(labels := labels + [Cut(lbl, LABEL_CHARS)])];
      ret := 0;
    }

    method IsLabelBoundToFid(fid: Bytes, lbl: Bytes) returns (b: bool)
      ensures b == Bound(Now(), fid, lbl)
    {
      hide Find;
      var i := FindPolicy(fid);
      if i == |registry| {
        return false;
      }
      var labels := registry[i].labels;
      for k := 0 to |labels|
        invariant lbl !in labels[..k]
      {
        if labels[k] == lbl {
          return true;
        }
      }
      assert labels[..|labels|] == labels;
      b := false;
    }

    method VerifyRaForFid(fid: Bytes) returns (b: bool)
      ensures b == Attested(Now(), fid)
    {
      hide Find;
      var i := FindPolicy(fid);
      if i == |registry| || !registry[i].policySet {
        return true;
      }
      if !raVerified || verifiedFid != fid {
        return false;
      }
      b := verifiedMrenclave == registry[i].mrenclave;
    }

    method VerifyReportDataBinding(pk: Bytes) returns (b: bool)
      ensures b == KeyBound(hash, Now(), pk)
    {
      if !raVerified || |verifiedReportData| < 32 {
        return false;
      }
      b := hash(pk) == verifiedReportData[..32];
    }

    method ResetVerification()
      modifies this
      ensures Now() == Unverified(old(Now()))
    {
      raVerified := false;
      verifiedMrenclave := Zeros(32);
      verifiedFid := [];
      verifiedReportData := Zeros(64);
    }

    /** Clears the old verification first, whatever the outcome. */
    method EcallVerifyQuoteForFid(fid: Option<Bytes>, quote: Bytes) returns (ret: int)
      modifies this
      ensures (Now(), ret) == Step(hash, old(Now()), Event(VerifyQuoteForFid(fid, quote), true))
    {
      hide Find;
      ResetVerification();
      if fid.None? || |quote| == 0 {
        return -1;
      }
      if |quote| < QUOTE_MIN {
        return -1;
      }
      verifiedMrenclave := QuoteMrenclave(quote);
      verifiedReportData := QuoteReportData(quote);
      verifiedFid := Cut(fid.value, FID_CHARS);
      var i := FindPolicy(fid.value);
      if i < |registry| && registry[i].policySet {
        if verifiedMrenclave != registry[i].mrenclave {
          ResetVerification();
          return -1;
        }
      }
      raVerified := true;
      ret := 0;
    }

    method EcallSetRaResult() returns (ret: int)
      modifies this
      ensures (Now(), ret) == Step(hash, old(Now()), Event(SetRaResult, true))
    {
      raVerified := false;
      verifiedMrenclave := Zeros(32);
      verifiedFid := [];
      ret := -1;
    }

    /** `crypto` is the outcome of the derivation and encryption that follow the gates. */
    method EcallGetKey(fid: Bytes, pk: Bytes, crypto: bool) returns (ret: int)
      ensures (Now(), ret) == Step(hash, Now(), Event(GetKey(fid, pk), crypto))
    {
      hide Attested, KeyBound;
      var ra := VerifyRaForFid(fid);
      if !ra {
        return -1;
      }
      if fid != Ascii("default_fid") {
        var b := VerifyReportDataBinding(pk);
        if !b {
          return -1;
        }
      }
      ret := Code(crypto);
    }

    method DeriveLabelKeyInternal(fid: Bytes, lbl: Bytes, pk: Bytes, crypto: bool) returns (ret: int)
      ensures ret == Code(Attested(Now(), fid) && (Exempt(fid) || KeyBound(hash, Now(), pk)) &&
                          Bound(Now(), fid, lbl) && crypto)
    {
      hide Attested, KeyBound, Bound;
      var ra := VerifyRaForFid(fid);
      if !ra {
        return -1;
      }
      if fid != Ascii("default_fid") {
        var b := VerifyReportDataBinding(pk);
        if !b {
          return -1;
        }
      }
      var l := IsLabelBoundToFid(fid, lbl);
      if !l {
        return -1;
      }
      ret := Code(crypto);
    }

    method EcallDeriveKeysBatch(fid: Bytes, lbl: Bytes, pk: Bytes, crypto: bool) returns (ret: int)
      ensures (Now(), ret) == Step(hash, Now(), Event(DeriveKeysBatch(fid, lbl, pk), crypto))
    {
      hide Attested, KeyBound, Bound;
      var ra := VerifyRaForFid(fid);
      if !ra {
        return -1;
      }
      var r1 := EcallGetKey(fid, pk, crypto);
      if r1 != 0 {
        return -1;
      }
      var r2 := DeriveLabelKeyInternal(fid, lbl, pk, crypto);
      if r2 != 0 {
        return -1;
      }
      ret := 0;
    }

    method EcallGetBfibeKeyRelease(fid: Bytes, lbl: Bytes, pk: Bytes, crypto: bool) returns (ret: int)
      ensures (Now(), ret) == Step(hash, Now(), Event(GetBfibeKeyRelease(fid, lbl, pk), crypto))
    {
      hide Attested, KeyBound, Bound;
      var ra := VerifyRaForFid(fid);
      if !ra {
        return -1;
      }
      var b := VerifyReportDataBinding(pk);
      if !b {
        return -1;
      }
      var l := IsLabelBoundToFid(fid, lbl);
      if !l {
        return -1;
      }
      ret := Code(crypto);
    }
  }

  lemma {:induction false} FirstIsFind(entries: seq<Entry>, fid: Bytes, i: nat)
    requires i <= |entries| && (i < |entries| ==> entries[i].fid == fid)
    requires forall k :: 0 <= k < i ==> entries[k].fid != fid
    ensures i == Find(entries, fid)
  {
  }

  // ---------- What one ecall keeps ----------

  /** Every run keeps the registry within its fixed sizes. */
  ghost predicate WellSized(s: State) {
    && |s.entries| <= 128
    && |s.fid| <= 127 && |s.mrenclave| == 32
    && forall i :: 0 <= i < |s.entries| ==>
         && |s.entries[i].fid| <= 127
         && |s.entries[i].labels| <= 4
         && forall l :: l in s.entries[i].labels ==> |l| <= 64
  }

  /** t is s with entries only added behind, policies only set where unset, labels only added. */
  ghost predicate Grows(s: State, t: State) {
    && |s.entries| <= |t.entries|
    && forall i :: 0 <= i < |s.entries| ==>
         && t.entries[i].fid == s.entries[i].fid
         && (s.entries[i].policySet ==> t.entries[i].policySet && t.entries[i].mrenclave == s.entries[i].mrenclave)
         && forall l :: l in s.entries[i].labels ==> l in t.entries[i].labels
  }

  lemma StepGrows(hash: Bytes -> Bytes, s: State, e: Event)
    requires WellSized(s)
    ensures WellSized(Step(hash, s, e).0) && Grows(s, Step(hash, s, e).0)
  {
    hide DoRegister, DoBind, DoVerify, Attested, KeyBound, Bound, Grows, WellSized;
    SizedFields(s);
    match e.call
    case Register(fid, policy) => RegisterGrows(s, fid, policy);
    case Bind(fid, lbl) => BindGrows(s, fid, lbl);
    case VerifyQuoteForFid(fid, quote) =>
      VerifyKeeps(s, fid, quote);
      SameEntriesGrow(s, DoVerify(s, fid, quote).0);
    case _ => SameEntriesGrow(s, Step(hash, s, e).0);
  }

  /** Calls that leave the entries alone, and leave sized fields. */
  lemma SameEntriesGrow(s: State, t: State)
    requires WellSized(s) && t.entries == s.entries && |t.fid| <= FID_CHARS && |t.mrenclave| == 32
    ensures WellSized(t) && Grows(s, t)
  {
  }

  lemma SizedFields(s: State)
    requires WellSized(s)
    ensures |s.fid| <= FID_CHARS && |s.mrenclave| == 32
  {
  }

  lemma VerifyKeeps(s: State, fid: Option<Bytes>, quote: Bytes)
    requires WellSized(s)
    ensures var t := DoVerify(s, fid, quote).0; t.entries == s.entries && |t.fid| <= FID_CHARS && |t.mrenclave| == 32
  {
    hide PolicyOf;
  }

  lemma RegisterGrows(s: State, fid: Bytes, policy: Bytes)
    requires WellSized(s)
    ensures WellSized(DoRegister(s, fid, policy).0) && Grows(s, DoRegister(s, fid, policy).0)
  {
    hide Find;
  }

  lemma BindGrows(s: State, fid: Bytes, lbl: Bytes)
    requires WellSized(s)
    ensures WellSized(DoBind(s, fid, lbl).0) && Grows(s, DoBind(s, fid, lbl).0)
  {
    hide Find, Zeros, Cut;
  }

  /** What is known about an fid survives growth. */
  lemma GrowsKeeps(s: State, t: State, fid: Bytes, lbl: Bytes)
    requires Grows(s, t)
    ensures PolicyOf(s, fid).Some? ==> PolicyOf(t, fid) == PolicyOf(s, fid)
    ensures Bound(s, fid, lbl) ==> Bound(t, fid, lbl)
  {
    hide Find;
    var i := Find(s.entries, fid);
    if i < |s.entries| {
      assert Find(t.entries, fid) == i by {
        FirstIsFind(t.entries, fid, i);
      }
    }
  }

  // ---------- Runs ----------

  function After(hash: Bytes -> Bytes, events: seq<Event>): State {
    if events == [] then Initial()
    else Step(hash, After(hash, events[..|events| - 1]), events[|events| - 1]).0
  }

  /** The return value of event n. */
  function Returned(hash: Bytes -> Bytes, events: seq<Event>, n: nat): int
    requires n < |events|
  {
    Step(hash, After(hash, events[..n]), events[n]).1
  }

  lemma AfterNext(hash: Bytes -> Bytes, events: seq<Event>, n: nat)
    requires n < |events|
    ensures After(hash, events[..n + 1]) == Step(hash, After(hash, events[..n]), events[n]).0
  {
    assert events[..n + 1][..n] == events[..n];
  }

  lemma {:induction false} RunsAreSized(hash: Bytes -> Bytes, events: seq<Event>, n: nat)
    requires n <= |events|
    ensures WellSized(After(hash, events[..n]))
  {
    hide Step;
    if n > 0 {
      RunsAreSized(hash, events, n - 1);
      AfterNext(hash, events, n - 1);
      StepGrows(hash, After(hash, events[..n - 1]), events[n - 1]);
    } else {
      assert events[..0] == [];
    }
  }

  /** In every run a set policy never changes and a binding never disappears. */
  lemma {:induction false} PoliciesAreWriteOnce(hash: Bytes -> Bytes, events: seq<Event>, m: nat, n: nat,
                                                fid: Bytes, lbl: Bytes)
    requires m <= n <= |events|
    ensures var s, t := After(hash, events[..m]), After(hash, events[..n]);
            && (PolicyOf(s, fid).Some? ==> PolicyOf(t, fid) == PolicyOf(s, fid))
            && (Bound(s, fid, lbl) ==> Bound(t, fid, lbl))
    decreases n
  {
    hide Step, After, PolicyOf, Bound, Grows, WellSized;
    if m < n {
      PoliciesAreWriteOnce(hash, events, m, n - 1, fid, lbl);
      AfterNext(hash, events, n - 1);
      RunsAreSized(hash, events, n - 1);
      var s := After(hash, events[..n - 1]);
      StepGrows(hash, s, events[n - 1]);
      GrowsKeeps(s, Step(hash, s, events[n - 1]).0, fid, lbl);
    }
  }

  /** A successful registration takes effect exactly for fids that fit their slot; a longer one
      reports success but its policy can never be found under the full name. */
  lemma RegistrationTakesEffect(s: State, fid: Bytes, policy: Bytes)
    requires WellSized(s) && DoRegister(s, fid, policy).1 == 0
    ensures PolicyOf(DoRegister(s, fid, policy).0, fid) == Some(policy) <==> |fid| <= 127
  {
    hide Find;
    var t := DoRegister(s, fid, policy).0;
    var i := Find(s.entries, fid);
    if |fid| <= FID_CHARS {
      FirstIsFind(t.entries, fid, i);
    } else {
      FirstIsFind(t.entries, fid, |t.entries|);
    }
  }

  /** Likewise for a successful binding, which must fit both slots. */
  lemma BindingTakesEffect(s: State, fid: Bytes, lbl: Bytes)
    requires WellSized(s) && DoBind(s, fid, lbl).1 == 0
    ensures Bound(DoBind(s, fid, lbl).0, fid, lbl) <==> |fid| <= 127 && |lbl| <= 64
  {
    hide Find, Zeros;
    var t := DoBind(s, fid, lbl).0;
    var i := Find(s.entries, fid);
    if |fid| <= FID_CHARS {
      FirstIsFind(t.entries, fid, i);
    } else {
      FirstIsFind(t.entries, fid, |t.entries|);
    }
  }

  // ---------- Release safety ----------

  predicate IsVerification(c: Call) {
    c.VerifyQuoteForFid? || c.SetRaResult?
  }

  /** Event m is the latest one before n that touches the verification state. */
  ghost predicate LatestVerification(events: seq<Event>, m: nat, n: nat) {
    && m < n <= |events|
    && IsVerification(events[m].call)
    && forall k :: m < k < n ==> !IsVerification(events[k].call)
  }

  /** The verification state is what a successful quote verification of this call left. */
  ghost predicate VerifiedBy(s: State, c: Call) {
    && c.VerifyQuoteForFid? && c.fidOpt.Some? && |c.quote| >= QUOTE_MIN
    && s.fid == Cut(c.fidOpt.value, FID_CHARS)
    && s.mrenclave == QuoteMrenclave(c.quote)
    && s.reportData == QuoteReportData(c.quote)
  }

  /** A verified state was left by the latest verification event, and that one succeeded. */
  lemma {:induction false} VerifiedHasCause(hash: Bytes -> Bytes, events: seq<Event>, n: nat) returns (m: nat)
    requires n <= |events| && After(hash, events[..n]).verified
    ensures LatestVerification(events, m, n) && Returned(hash, events, m) == 0
    ensures VerifiedBy(After(hash, events[..n]), events[m].call)
  {
    hide After, Step, VerifiedBy;
    if n == 0 {
      NothingAtFirst(hash, events);
      assert false;
    } else {
      var s, t := After(hash, events[..n - 1]), After(hash, events[..n]);
      AfterNext(hash, events, n - 1);
      VerificationKept(hash, s, events[n - 1]);
      if IsVerification(events[n - 1].call) {
        m := n - 1;
      } else {
        m := VerifiedHasCause(hash, events, n - 1);
        SameVerification(s, t, events[m].call);
      }
    }
  }

  lemma SameVerification(s: State, t: State, c: Call)
    requires t.fid == s.fid && t.mrenclave == s.mrenclave && t.reportData == s.reportData
    ensures VerifiedBy(s, c) ==> VerifiedBy(t, c)
  {
  }

  lemma NothingAtFirst(hash: Bytes -> Bytes, events: seq<Event>)
    ensures After(hash, events[..0]) == Initial()
  {
    assert events[..0] == [];
  }

  lemma VerificationKept(hash: Bytes -> Bytes, s: State, e: Event)
    ensures var (t, ret) := Step(hash, s, e);
            && (IsVerification(e.call) && t.verified ==> ret == 0 && VerifiedBy(t, e.call))
            && (!IsVerification(e.call) ==>
                  t.verified == s.verified && t.fid == s.fid && t.mrenclave == s.mrenclave && t.reportData == s.reportData)
  {
    hide Find, PolicyOf, Bound, Attested, KeyBound, Zeros;
  }

  /** A successful bind event for the stored names of fid and label. */
  ghost predicate BindEvent(hash: Bytes -> Bytes, events: seq<Event>, b: nat, fid: Bytes, lbl: Bytes) {
    && b < |events|
    && events[b].call.Bind?
    && Returned(hash, events, b) == 0
    && Cut(events[b].call.fid, 127) == fid
    && Cut(events[b].call.lbl, 64) == lbl
  }

  lemma RegisterLabels(s: State, fid: Bytes, policy: Bytes, i: nat, lbl: Bytes)
    requires var t := DoRegister(s, fid, policy).0; i < |t.entries| && lbl in t.entries[i].labels
    ensures i < |s.entries| && s.entries[i].fid == DoRegister(s, fid, policy).0.entries[i].fid && lbl in s.entries[i].labels
  {
    hide Find;
  }

  lemma BindLabels(s: State, fid: Bytes, bound: Bytes, i: nat, lbl: Bytes)
    requires WellSized(s)
    requires var t := DoBind(s, fid, bound).0; i < |t.entries| && lbl in t.entries[i].labels
    ensures var (t, ret) := DoBind(s, fid, bound);
            || (i < |s.entries| && s.entries[i].fid == t.entries[i].fid && lbl in s.entries[i].labels)
            || (ret == 0 && Cut(fid, FID_CHARS) == t.entries[i].fid && Cut(bound, LABEL_CHARS) == lbl)
  {
    hide Zeros;
  }

  /** Where a label of some entry comes from: it was there before, or this very call put it. */
  lemma LabelOrigin(hash: Bytes -> Bytes, s: State, e: Event, i: nat, lbl: Bytes)
    requires WellSized(s)
    requires var t := Step(hash, s, e).0; i < |t.entries| && lbl in t.entries[i].labels
    ensures var (t, ret) := Step(hash, s, e);
            || (i < |s.entries| && s.entries[i].fid == t.entries[i].fid && lbl in s.entries[i].labels)
            || (e.call.Bind? && ret == 0 && Cut(e.call.fid, FID_CHARS) == t.entries[i].fid
                && Cut(e.call.lbl, LABEL_CHARS) == lbl)
  {
    hide DoRegister, DoBind, DoVerify, Attested, KeyBound, Bound, Cut, WellSized;
    match e.call
    case Register(fid, policy) => RegisterLabels(s, fid, policy, i, lbl);
    case Bind(fid, bound) => BindLabels(s, fid, bound, i, lbl);
    case VerifyQuoteForFid(fid, quote) => VerifyKeeps(s, fid, quote);
    case _ =>
  }

  /** Every stored label was put there by an earlier successful bind of that fid and label. */
  lemma {:induction false} LabelHasCause(hash: Bytes -> Bytes, events: seq<Event>, n: nat, i: nat, lbl: Bytes)
    returns (b: nat)
    requires n <= |events|
    requires var s := After(hash, events[..n]); i < |s.entries| && lbl in s.entries[i].labels
    ensures b < n && BindEvent(hash, events, b, After(hash, events[..n]).entries[i].fid, lbl)
  {
    hide After, Step, WellSized, Cut;
    if n == 0 {
      NothingAtFirst(hash, events);
      assert false;
    } else {
      AfterNext(hash, events, n - 1);
      RunsAreSized(hash, events, n - 1);
      var s := After(hash, events[..n - 1]);
      LabelOrigin(hash, s, events[n - 1], i, lbl);
      if i < |s.entries| && s.entries[i].fid == After(hash, events[..n]).entries[i].fid && lbl in s.entries[i].labels {
        b := LabelHasCause(hash, events, n - 1, i, lbl);
      } else {
        b := n - 1;
      }
    }
  }

  /** What the gates have let through: the bytes 368 to 399 of the latest verified quote hash the key,
      and with a policy that quote is of this fid and measures the policy at bytes 112 to 143. */
  lemma GateCause(hash: Bytes -> Bytes, events: seq<Event>, n: nat, fid: Bytes, pk: Bytes) returns (m: nat)
    requires n <= |events| && Attested(After(hash, events[..n]), fid) && KeyBound(hash, After(hash, events[..n]), pk)
    ensures LatestVerification(events, m, n) && Returned(hash, events, m) == 0
    ensures var q := events[m].call;
            q.VerifyQuoteForFid? && q.fidOpt.Some? && |q.quote| >= 432 && q.quote[368..400] == hash(pk)
    ensures var q := events[m].call;
            forall p :: PolicyOf(After(hash, events[..n]), fid) == Some(p) ==>
              Cut(q.fidOpt.value, 127) == fid && q.quote[112..144] == p
  {
    hide After, Step, Find, PolicyOf;
    m := VerifiedHasCause(hash, events, n);
    var q := events[m].call;
    assert q.quote[368..432][..32] == q.quote[368..400];
  }

  /** In every run, a successful single-key request for any fid but "default_fid" follows a latest
      verification that succeeded and whose quote carries the hash of the key the request names; if the
      fid has a policy, that verification was of this fid with the policy's measurement. */
  lemma KeyIsJustified(hash: Bytes -> Bytes, events: seq<Event>, n: nat) returns (m: nat)
    requires n < |events| && events[n].call.GetKey? && events[n].call.fid != Ascii("default_fid")
    requires Returned(hash, events, n) == 0
    ensures LatestVerification(events, m, n) && Returned(hash, events, m) == 0
    ensures var q := events[m].call; var c := events[n].call;
            q.VerifyQuoteForFid? && q.fidOpt.Some? && |q.quote| >= 432 && q.quote[368..400] == hash(c.pk)
    ensures var q := events[m].call; var c := events[n].call;
            forall p :: PolicyOf(After(hash, events[..n]), c.fid) == Some(p) ==>
              Cut(q.fidOpt.value, 127) == c.fid && q.quote[112..144] == p
  {
    var c := events[n].call;
    GatesPassed(hash, After(hash, events[..n]), events[n]);
    m := GateCause(hash, events, n, c.fid, c.pk);
  }

  /** The same stands behind a successful batch for any fid but "default_fid" and behind a successful
      BF-IBE release for every fid; besides, fid and label were bound by an earlier call. */
  lemma ReleaseIsJustified(hash: Bytes -> Bytes, events: seq<Event>, n: nat) returns (m: nat, b: nat)
    requires n < |events| && Returned(hash, events, n) == 0
    requires var c := events[n].call;
             c.GetBfibeKeyRelease? || (c.DeriveKeysBatch? && c.fid != Ascii("default_fid"))
    ensures LatestVerification(events, m, n) && Returned(hash, events, m) == 0
    ensures var q := events[m].call; var c := events[n].call;
            q.VerifyQuoteForFid? && q.fidOpt.Some? && |q.quote| >= 432 && q.quote[368..400] == hash(c.pk)
    ensures var q := events[m].call; var c := events[n].call;
            forall p :: PolicyOf(After(hash, events[..n]), c.fid) == Some(p) ==>
              Cut(q.fidOpt.value, 127) == c.fid && q.quote[112..144] == p
    ensures b < n && BindEvent(hash, events, b, events[n].call.fid, events[n].call.lbl)
  {
    var s := After(hash, events[..n]);
    var c := events[n].call;
    GatesPassed(hash, s, events[n]);
    m := GateCause(hash, events, n, c.fid, c.pk);
    hide After, Step, Find, Attested, KeyBound;
    var i := Find(s.entries, c.fid);
    b := LabelHasCause(hash, events, n, i, c.lbl);
  }

  /** What a call that hands out keys has passed. */
  lemma GatesPassed(hash: Bytes -> Bytes, s: State, e: Event)
    requires (e.call.GetKey? || e.call.DeriveKeysBatch? || e.call.GetBfibeKeyRelease?) && Step(hash, s, e).1 == 0
    ensures Attested(s, e.call.fid)
    ensures e.call.GetBfibeKeyRelease? || e.call.fid != Ascii("default_fid") ==> KeyBound(hash, s, e.call.pk)
    ensures !e.call.GetKey? ==> Bound(s, e.call.fid, e.call.lbl)
  {
    hide Attested, KeyBound, Bound, Ascii;
  }

  /** A set policy is never bypassed, by no call and for no fid, the test identity included: keys
      leave only after a latest verification that succeeded, of that very fid, with the policy's
      measurement. */
  lemma PolicyIsNeverBypassed(hash: Bytes -> Bytes, events: seq<Event>, n: nat, p: Bytes) returns (m: nat)
    requires n < |events| && Returned(hash, events, n) == 0
    requires var c := events[n].call; c.GetKey? || c.DeriveKeysBatch? || c.GetBfibeKeyRelease?
    requires PolicyOf(After(hash, events[..n]), events[n].call.fid) == Some(p)
    ensures LatestVerification(events, m, n) && Returned(hash, events, m) == 0
    ensures var q := events[m].call;
            && q.VerifyQuoteForFid? && q.fidOpt.Some? && |q.quote| >= 432
            && Cut(q.fidOpt.value, 127) == events[n].call.fid && q.quote[112..144] == p
  {
    hide After, Step, Find, PolicyOf;
    GatesPassed(hash, After(hash, events[..n]), events[n]);
    m := VerifiedHasCause(hash, events, n);
  }

  // ---------- The gates open ----------

  /** A successful verification lasts until the next verification event. */
  lemma {:induction false} VerificationLasts(hash: Bytes -> Bytes, events: seq<Event>, m: nat, n: nat)
    requires LatestVerification(events, m, n) && Returned(hash, events, m) == 0
    ensures After(hash, events[..n]).verified && VerifiedBy(After(hash, events[..n]), events[m].call)
    decreases n
  {
    hide After, Step, VerifiedBy;
    var s, t := After(hash, events[..n - 1]), After(hash, events[..n]);
    AfterNext(hash, events, n - 1);
    VerificationKept(hash, s, events[n - 1]);
    if m < n - 1 {
      VerificationLasts(hash, events, m, n - 1);
      SameVerification(s, t, events[m].call);
    } else {
      SuccessVerifies(hash, s, events[m]);
    }
  }

  lemma SuccessVerifies(hash: Bytes -> Bytes, s: State, e: Event)
    requires IsVerification(e.call) && Step(hash, s, e).1 == 0
    ensures Step(hash, s, e).0.verified
  {
    hide Find, PolicyOf, Zeros;
  }

  /** Conversely, in every run: after a latest verification that succeeded, whose quote carries the hash
      of the key named and, with a policy, is of this fid with the policy's measurement, all three calls
      hand out keys exactly when the foreign steps succeed and the label, if there is one, is bound. */
  lemma KeyIsGranted(hash: Bytes -> Bytes, events: seq<Event>, n: nat, m: nat)
    requires n < |events| && LatestVerification(events, m, n) && Returned(hash, events, m) == 0
    requires var c := events[n].call; c.GetKey? || c.DeriveKeysBatch? || c.GetBfibeKeyRelease?
    requires var q := events[m].call; var c := events[n].call;
             q.VerifyQuoteForFid? && q.fidOpt.Some? && |q.quote| >= 432 && q.quote[368..400] == hash(c.pk)
    requires var q := events[m].call; var c := events[n].call;
             forall p :: PolicyOf(After(hash, events[..n]), c.fid) == Some(p) ==>
               Cut(q.fidOpt.value, 127) == c.fid && q.quote[112..144] == p
    ensures Returned(hash, events, n) == 0 <==>
              events[n].crypto
              && (events[n].call.GetKey? || Bound(After(hash, events[..n]), events[n].call.fid, events[n].call.lbl))
  {
    var s := After(hash, events[..n]);
    var q, c := events[m].call, events[n].call;
    hide After, Step, PolicyOf, Bound, Attested, KeyBound;
    GatesOpen(hash, events, n, m);
    PassedGates(hash, After(hash, events[..n]), events[n]);
  }

  /** With both verification gates open only the label and the foreign steps are left to fail. */
  lemma PassedGates(hash: Bytes -> Bytes, s: State, e: Event)
    requires e.call.GetKey? || e.call.DeriveKeysBatch? || e.call.GetBfibeKeyRelease?
    requires Attested(s, e.call.fid) && KeyBound(hash, s, e.call.pk)
    ensures Step(hash, s, e).1 == 0 <==> e.crypto && (e.call.GetKey? || Bound(s, e.call.fid, e.call.lbl))
  {
    hide Attested, KeyBound, Bound, Ascii;
  }

  lemma GatesOpen(hash: Bytes -> Bytes, events: seq<Event>, n: nat, m: nat)
    requires n < |events| && LatestVerification(events, m, n) && Returned(hash, events, m) == 0
    requires var c := events[n].call; c.GetKey? || c.DeriveKeysBatch? || c.GetBfibeKeyRelease?
    requires var q := events[m].call; var c := events[n].call;
             q.VerifyQuoteForFid? && q.fidOpt.Some? && |q.quote| >= 432 && q.quote[368..400] == hash(c.pk)
    requires var q := events[m].call; var c := events[n].call;
             forall p :: PolicyOf(After(hash, events[..n]), c.fid) == Some(p) ==>
               Cut(q.fidOpt.value, 127) == c.fid && q.quote[112..144] == p
    ensures var s := After(hash, events[..n]); Attested(s, events[n].call.fid) && KeyBound(hash, s, events[n].call.pk)
  {
    hide After, Find, PolicyOf, Ascii, Cut;
    VerificationLasts(hash, events, m, n);
    var q := events[m].call;
    assert q.quote[368..432][..32] == q.quote[368..400];
  }

  /** "default_fid" without a policy gets its key from any state exactly when the foreign steps succeed,
      and a batch exactly when its label is bound as well; a BF-IBE release is not exempt. */
  lemma DefaultFid(hash: Bytes -> Bytes, s: State, lbl: Bytes, pk: Bytes, crypto: bool)
    requires PolicyOf(s, Ascii("default_fid")).None?
    ensures var fid := Ascii("default_fid");
      && Step(hash, s, Event(GetKey(fid, pk), crypto)) == (s, if crypto then 0 else -1)
      && (Step(hash, s, Event(DeriveKeysBatch(fid, lbl, pk), crypto)).1 == 0 <==> crypto && Bound(s, fid, lbl))
      && (!s.verified ==> Step(hash, s, Event(GetBfibeKeyRelease(fid, lbl, pk), crypto)).1 == -1)
  {
    hide PolicyOf, Bound, Ascii;
  }

  /** What a verification reads: 432 bytes, the measurement at bytes 112 to 143 and the report data at
      bytes 368 to 431. It succeeds exactly when the fid has no policy or its policy is the measurement,
      and any failure leaves nothing verified. */
  lemma QuoteLayout(hash: Bytes -> Bytes, s: State, fid: Bytes, h: Bytes, m: Bytes, b: Bytes, r: Bytes, rest: Bytes,
                    crypto: bool)
    requires |h| == 48 + 64 && |m| == 32 && |b| == 224 && |r| == 64
    ensures var (t, ret) := Step(hash, s, Event(VerifyQuoteForFid(Some(fid), h + m + b + r + rest), crypto));
      && (ret == 0 <==> PolicyOf(s, fid).None? || PolicyOf(s, fid) == Some(m))
      && t.entries == s.entries
      && (ret == 0 ==> t.verified && t.mrenclave == m && t.reportData == r && t.fid == Cut(fid, 127))
      && (ret != 0 ==> ret == -1 && !t.verified)
  {
    hide PolicyOf, Zeros;
    var q := h + m + b + r + rest;
    QuoteSlices(h, m, b, r, rest);
    assert |q| >= 432;
  }

  lemma QuoteSlices(h: Bytes, m: Bytes, b: Bytes, r: Bytes, rest: Bytes)
    requires |h| == 112 && |m| == 32 && |b| == 224 && |r| == 64
    ensures (h + m + b + r + rest)[112..144] == m && (h + m + b + r + rest)[368..432] == r
  {
  }

  /** A shorter quote, or no fid, is refused and clears the verification. */
  lemma ShortQuote(hash: Bytes -> Bytes, s: State, fid: Option<Bytes>, quote: Bytes, crypto: bool)
    requires fid.None? || |quote| < 432
    ensures var (t, ret) := Step(hash, s, Event(VerifyQuoteForFid(fid, quote), crypto));
            ret == -1 && !t.verified && t.entries == s.entries
  {
    hide PolicyOf, Zeros;
  }

  // ---------- When setting up succeeds, and for how long ----------

  /** Registration succeeds exactly when the fid has no policy yet and its entry exists or fits among
      128; otherwise it changes nothing. */
  lemma RegisterSucceeds(s: State, fid: Bytes, policy: Bytes)
    ensures var (t, ret) := DoRegister(s, fid, policy);
      && (ret == 0 <==> PolicyOf(s, fid).None? && ((exists e :: e in s.entries && e.fid == fid) || |s.entries| < 128))
      && (ret != 0 ==> ret == -1 && t == s)
  {
    hide Zeros, Cut;
    KnownIffFound(s.entries, fid);
  }

  lemma KnownIffFound(entries: seq<Entry>, fid: Bytes)
    ensures (exists e :: e in entries && e.fid == fid) <==> Find(entries, fid) < |entries|
  {
    hide Find;
    var i := Find(entries, fid);
    if i < |entries| {
      assert entries[i] in entries;
    }
  }

  /** The labels of the first entry of an fid. */
  function LabelsOf(s: State, fid: Bytes): seq<Bytes> {
    var i := Find(s.entries, fid);
    if i < |s.entries| then s.entries[i].labels else []
  }

  /** Binding succeeds exactly for a label already bound, or while fewer than four are and the fid's
      entry exists or fits among 128. */
  lemma BindSucceeds(s: State, fid: Bytes, lbl: Bytes)
    ensures var ret := DoBind(s, fid, lbl).1;
      && (ret == 0 || ret == -1)
      && (Bound(s, fid, lbl) <==> lbl in LabelsOf(s, fid))
      && (ret == 0 <==>
            lbl in LabelsOf(s, fid) ||
            (|LabelsOf(s, fid)| < 4 && ((exists e :: e in s.entries && e.fid == fid) || |s.entries| < 128)))
  {
    hide Zeros, Cut;
    KnownIffFound(s.entries, fid);
  }

  /** A policy whose registration succeeded, under a name that fits, is in force at every later time. */
  lemma RegisteredForGood(hash: Bytes -> Bytes, events: seq<Event>, b: nat, n: nat)
    requires b < n <= |events| && events[b].call.Register? && Returned(hash, events, b) == 0
    requires |events[b].call.fid| <= 127
    ensures PolicyOf(After(hash, events[..n]), events[b].call.fid) == Some(events[b].call.policy)
  {
    hide After, DoRegister, PolicyOf, WellSized;
    RunsAreSized(hash, events, b);
    AfterNext(hash, events, b);
    RegistrationTakesEffect(After(hash, events[..b]), events[b].call.fid, events[b].call.policy);
    PoliciesAreWriteOnce(hash, events, b + 1, n, events[b].call.fid, []);
  }

  /** Likewise for a successful binding whose two names fit. */
  lemma BoundForGood(hash: Bytes -> Bytes, events: seq<Event>, b: nat, n: nat)
    requires b < n <= |events| && events[b].call.Bind? && Returned(hash, events, b) == 0
    requires |events[b].call.fid| <= 127 && |events[b].call.lbl| <= 64
    ensures Bound(After(hash, events[..n]), events[b].call.fid, events[b].call.lbl)
  {
    hide After, DoBind, Bound, PolicyOf, WellSized;
    RunsAreSized(hash, events, b);
    AfterNext(hash, events, b);
    BindingTakesEffect(After(hash, events[..b]), events[b].call.fid, events[b].call.lbl);
    PoliciesAreWriteOnce(hash, events, b + 1, n, events[b].call.fid, events[b].call.lbl);
  }

  /** Every policy in force was put there by an earlier successful registration of that fid. */
  lemma {:induction false} PolicyHasCause(hash: Bytes -> Bytes, events: seq<Event>, n: nat, i: nat) returns (b: nat)
    requires n <= |events|
    requires var s := After(hash, events[..n]); i < |s.entries| && s.entries[i].policySet
    ensures b < n && events[b].call.Register? && Returned(hash, events, b) == 0
    ensures var e := After(hash, events[..n]).entries[i];
            Cut(events[b].call.fid, 127) == e.fid && events[b].call.policy == e.mrenclave
  {
    hide After, Step, WellSized, Cut;
    if n == 0 {
      NothingAtFirst(hash, events);
      assert false;
    } else {
      AfterNext(hash, events, n - 1);
      RunsAreSized(hash, events, n - 1);
      var s, t := After(hash, events[..n - 1]), After(hash, events[..n]);
      PolicyOrigin(hash, s, events[n - 1], i);
      if i < |s.entries| && s.entries[i].policySet {
        b := PolicyHasCause(hash, events, n - 1, i);
      } else {
        b := n - 1;
      }
    }
  }

  lemma PolicyOrigin(hash: Bytes -> Bytes, s: State, e: Event, i: nat)
    requires WellSized(s)
    requires var t := Step(hash, s, e).0; i < |t.entries| && t.entries[i].policySet
    ensures var (t, ret) := Step(hash, s, e);
      if i < |s.entries| && s.entries[i].policySet then
        s.entries[i].fid == t.entries[i].fid && s.entries[i].mrenclave == t.entries[i].mrenclave
      else
        e.call.Register? && ret == 0 && Cut(e.call.fid, 127) == t.entries[i].fid && e.call.policy == t.entries[i].mrenclave
  {
    hide DoRegister, DoBind, DoVerify, Attested, KeyBound, Bound, Cut, WellSized;
    match e.call
    case Register(fid, policy) => RegisterOrigin(s, fid, policy, i);
    case Bind(fid, lbl) => BindOrigin(s, fid, lbl, i);
    case VerifyQuoteForFid(fid, quote) => VerifyKeeps(s, fid, quote);
    case _ =>
  }

  lemma RegisterOrigin(s: State, fid: Bytes, policy: Bytes, i: nat)
    requires WellSized(s)
    requires var t := DoRegister(s, fid, policy).0; i < |t.entries| && t.entries[i].policySet
    ensures var (t, ret) := DoRegister(s, fid, policy);
      if i < |s.entries| && s.entries[i].policySet then
        s.entries[i].fid == t.entries[i].fid && s.entries[i].mrenclave == t.entries[i].mrenclave
      else
        ret == 0 && Cut(fid, 127) == t.entries[i].fid && policy == t.entries[i].mrenclave
  {
    hide Zeros;
  }

  lemma BindOrigin(s: State, fid: Bytes, lbl: Bytes, i: nat)
    requires var t := DoBind(s, fid, lbl).0; i < |t.entries| && t.entries[i].policySet
    ensures var t := DoBind(s, fid, lbl).0;
      i < |s.entries| && s.entries[i].policySet && s.entries[i].fid == t.entries[i].fid
      && s.entries[i].mrenclave == t.entries[i].mrenclave
  {
    hide Zeros, Cut, Find;
  }
}
