/** The private-key set: any number of records behind one header, read by the worker into its two
    keys and by the Python tools into a value. */
module KeySets {
  import opened ByteStrings
  import opened Wire
  import opened Wrappers

  // ---------- Unique reading ----------

  lemma RecordShape(r: Record, t: Bytes)
    requires RecordFits(r)
    ensures var x := EncodeRecord(r) + t;
      && |x| >= 12 + |r.purpose| + |r.identity| + |r.privateKey|
      && U32At(x, 0) == |r.purpose| && U32At(x, 4) == |r.identity| && U32At(x, 8) == |r.privateKey|
  {
    hide U32, U32At;
    var x := EncodeRecord(r) + t;
    var h := U32(|r.purpose|) + U32(|r.identity|) + U32(|r.privateKey|);
    assert x[..12] == h;
    SliceOfPrefix(h, x, 0, |r.purpose|);
    SliceOfPrefix(h, x, 4, |r.identity|);
    SliceOfPrefix(h, x, 8, |r.privateKey|);
  }

  lemma RecordUnique(r: Record, t: Bytes, s: Record, u: Bytes)
    requires RecordFits(r) && RecordFits(s) && EncodeRecord(r) + t == EncodeRecord(s) + u
    ensures r == s && t == u
  {
    hide U32, U32At;
    RecordShape(r, t);
    RecordShape(s, u);
    CancelLast(EncodeRecord(r), t, EncodeRecord(s), u);
    var h := U32(|r.purpose|) + U32(|r.identity|) + U32(|r.privateKey|);
    CancelLast(h + r.purpose + r.identity, r.privateKey, h + s.purpose + s.identity, s.privateKey);
    CancelLast(h + r.purpose, r.identity, h + s.purpose, s.identity);
    CancelLast(h, r.purpose, h, s.purpose);
  }

  lemma EncodeSnoc(rs: seq<Record>, r: Record)
    requires RecordsFit(rs) && RecordFits(r)
    ensures RecordsFit(rs + [r]) && EncodeRecords(rs + [r]) == EncodeRecords(rs) + EncodeRecord(r)
  {
    hide EncodeRecord;
    assert (rs + [r])[..|rs|] == rs;
  }

  /** Two record lists that start the same bytes agree as far as the shorter one goes. */
  lemma {:induction false} RecordsAgree(rs: seq<Record>, t: Bytes, ss: seq<Record>, u: Bytes)
    requires RecordsFit(rs) && RecordsFit(ss) && |rs| <= |ss|
    requires EncodeRecords(rs) + t == EncodeRecords(ss) + u
    ensures rs == ss[..|rs|]
    decreases |ss|
  {
    hide EncodeRecord, EncodeRecords;
    if |ss| > 0 {
      var n := |ss| - 1;
      LastRecord(ss, u);
      if |rs| <= n {
        RecordsAgree(rs, t, ss[..n], EncodeRecord(ss[n]) + u);
        assert ss[..n][..|rs|] == ss[..|rs|];
      } else {
        LastRecord(rs, t);
        RecordsAgree(rs[..n], EncodeRecord(rs[n]) + t, ss[..n], EncodeRecord(ss[n]) + u);
        assert rs[..n] == ss[..n];
        CancelFirst(EncodeRecords(rs[..n]), EncodeRecord(rs[n]) + t, EncodeRecord(ss[n]) + u);
        RecordUnique(rs[n], t, ss[n], u);
      }
    }
  }

  lemma LastRecord(rs: seq<Record>, t: Bytes)
    requires RecordsFit(rs) && rs != []
    ensures var n := |rs| - 1;
            RecordsFit(rs[..n]) && EncodeRecords(rs) + t == EncodeRecords(rs[..n]) + (EncodeRecord(rs[n]) + t)
  {
    hide EncodeRecord;
    var n := |rs| - 1;
    Regroup3(EncodeRecords(rs[..n]), EncodeRecord(rs[n]), t);
  }

  lemma Regroup3(x: Bytes, y: Bytes, z: Bytes)
    ensures x + y + z == x + (y + z)
  {
  }

  lemma {:induction false} RecordsPrefix(ss: seq<Record>, i: nat) returns (t: Bytes)
    requires RecordsFit(ss) && i <= |ss|
    ensures EncodeRecords(ss) == EncodeRecords(ss[..i]) + t
  {
    hide EncodeRecord;
    if i == |ss| {
      assert ss[..i] == ss;
      t := [];
    } else {
      var n := |ss| - 1;
      var u := RecordsPrefix(ss[..n], i);
      assert ss[..n][..i] == ss[..i];
      t := u + EncodeRecord(ss[n]);
    }
  }

  lemma PrefixSnoc(ss: seq<Record>, i: nat)
    requires RecordsFit(ss) && i < |ss|
    ensures EncodeRecords(ss[..i + 1]) == EncodeRecords(ss[..i]) + EncodeRecord(ss[i])
  {
    hide EncodeRecord;
    assert ss[..i + 1][..i] == ss[..i];
  }

  lemma CancelMiddle(x: Bytes, t: Bytes, e: Bytes, u: Bytes)
    requires x + t == x + e + u
    ensures e <= t
  {
    assert x + e + u == x + (e + u);
    CancelFirst(x, t, e + u);
  }

  /** The record after those already read. */
  lemma NextRecord(rs: seq<Record>, t: Bytes, ss: seq<Record>)
    requires RecordsFit(rs) && RecordsFit(ss) && |rs| < |ss|
    requires EncodeRecords(rs) + t == EncodeRecords(ss)
    ensures EncodeRecord(ss[|rs|]) <= t
  {
    hide EncodeRecord, EncodeRecords;
    assert EncodeRecords(ss) + [] == EncodeRecords(ss);
    RecordsAgree(rs, t, ss, []);
    PrefixSnoc(ss, |rs|);
    var u := RecordsPrefix(ss, |rs| + 1);
    CancelMiddle(EncodeRecords(rs), t, EncodeRecord(ss[|rs|]), u);
  }

  function Front(count: nat): (h: Bytes)
    requires IsU32(count)
    ensures |h| == 35
  {
    KeySetHeader(18, count) + Profile()
  }

  predicate HasFront(data: Bytes) {
    && |data| >= 35
    && data[..8] == KeySetMagic() && data[8] == VERSION && U32At(data, 9) == 18 && data[17..35] == Profile()
  }

  lemma FrontShape(count: nat, t: Bytes)
    requires IsU32(count)
    ensures HasFront(Front(count) + t) && U32At(Front(count) + t, 13) == count
  {
    hide U32, U32At, KeySetMagic, Profile;
    var h := KeySetHeader(18, count);
    var x := Front(count) + t;
    assert x[..17] == h && x[17..35] == Profile();
    assert h[..8] == KeySetMagic() && h[8] == VERSION && h[9..13] == U32(18) && h[13..17] == U32(count);
    assert x[..8] == h[..8] && x[8] == h[8];
    SliceOfPrefix(h, x, 9, 18);
    SliceOfPrefix(h, x, 13, count);
  }

  /** A byte string is the encoding of at most one list of records. */
  lemma KeySetUnique(rs: seq<Record>, ss: seq<Record>)
    requires RecordsFit(rs) && RecordsFit(ss) && IsU32(|rs|) && IsU32(|ss|)
    requires EncodeKeySet(rs) == EncodeKeySet(ss)
    ensures rs == ss
  {
    hide Front, HasFront, EncodeRecord;
    SameCount(rs, ss);
    CancelFirst(Front(|rs|), EncodeRecords(rs), EncodeRecords(ss));
    RecordsAgree(rs, [], ss, []);
  }

  lemma SameCount(rs: seq<Record>, ss: seq<Record>)
    requires RecordsFit(rs) && RecordsFit(ss) && IsU32(|rs|) && IsU32(|ss|)
    requires EncodeKeySet(rs) == EncodeKeySet(ss)
    ensures |rs| == |ss|
    ensures Front(|rs|) + EncodeRecords(rs) == Front(|ss|) + EncodeRecords(ss)
  {
    hide HasFront, EncodeRecord, KeySetHeader, Profile, U32At, EncodeRecords;
    FrontShape(|rs|, EncodeRecords(rs));
    FrontShape(|ss|, EncodeRecords(ss));
  }

  // ---------- What a reader accepts ----------

  const KEY_BUFFER: nat := 256
  const IDENTITY_BUFFER: nat := 160

  /** The worker importing for a fid, or the Python value; utf8 tells the byte strings that are text. */
  datatype Rules = WorkerFor(fid: Bytes) | PythonTool(utf8: Bytes -> bool)

  predicate Importable(fid: Bytes, r: Record) {
    && 1 <= |r.privateKey| <= KEY_BUFFER
    && if r.purpose == RequestPurpose() then
         4 + |fid| < IDENTITY_BUFFER && r.identity == Ascii("fid:") + fid
       else
         r.purpose == FunctionPurpose() && Ascii("label:") <= r.identity
  }

  predicate Good(rules: Rules, r: Record) {
    match rules
    case WorkerFor(fid) => Importable(fid, r)
    case PythonTool(utf8) => PythonRecord(utf8, r)
  }

  predicate PythonRecord(utf8: Bytes -> bool, r: Record) {
    && (r.purpose == RequestPurpose() || r.purpose == FunctionPurpose())
    && utf8(r.identity) && r.identity != [] && r.privateKey != []
  }

  predicate AllGood(rules: Rules, rs: seq<Record>) {
    forall r :: r in rs ==> Good(rules, r)
  }

  /** The key of the last record of a purpose: later records replace earlier ones. */
  function LastKey(rs: seq<Record>, purpose: Bytes): Bytes {
    if rs == [] then []
    else if rs[|rs| - 1].purpose == purpose then rs[|rs| - 1].privateKey
    else LastKey(rs[..|rs| - 1], purpose)
  }

  predicate Takes(rules: Rules, rs: seq<Record>) {
    && RecordsFit(rs) && IsU32(|rs|) && rs != [] && AllGood(rules, rs)
    && match rules
       case WorkerFor(_) => LastKey(rs, RequestPurpose()) != [] && LastKey(rs, FunctionPurpose()) != []
       case PythonTool(_) => true
  }

  /** Nothing this reader accepts encodes to data. */
  ghost predicate Refused(rules: Rules, data: Bytes) {
    forall ss :: Takes(rules, ss) ==> data != EncodeKeySet(ss)
  }

  lemma NoFront(rules: Rules, data: Bytes)
    requires !HasFront(data) || (|data| >= 17 && U32At(data, 13) == 0)
    ensures Refused(rules, data)
  {
    hide EncodeRecords, HasFront, U32At, AllGood, LastKey, Profile, KeySetHeader;
    forall ss | Takes(rules, ss) && data == EncodeKeySet(ss)
      ensures false
    {
      assert data == Front(|ss|) + EncodeRecords(ss);
      FrontShape(|ss|, EncodeRecords(ss));
    }
  }

  /** No acceptable record stands at t. */
  ghost predicate Stuck(rules: Rules, t: Bytes) {
    forall s :: RecordFits(s) && Good(rules, s) ==> !(EncodeRecord(s) <= t)
  }

  lemma BadRecord(rules: Rules, r: Record, t: Bytes)
    requires RecordFits(r) && !Good(rules, r)
    ensures Stuck(rules, EncodeRecord(r) + t)
  {
    hide EncodeRecord, Good;
    forall s | RecordFits(s) && Good(rules, s) && EncodeRecord(s) <= EncodeRecord(r) + t
      ensures false
    {
      var n := |EncodeRecord(s)|;
      var x := EncodeRecord(r) + t;
      assert x == EncodeRecord(s) + x[n..];
      RecordUnique(r, t, s, x[n..]);
    }
  }

  lemma RefuseAt(rules: Rules, data: Bytes, count: nat, rs: seq<Record>, t: Bytes)
    requires IsU32(count) && RecordsFit(rs) && |rs| < count
    requires data == Front(count) + EncodeRecords(rs) + t && Stuck(rules, t)
    ensures Refused(rules, data)
  {
    hide EncodeRecord, EncodeRecords, Front, Good, LastKey;
    forall ss | Takes(rules, ss) && data == EncodeKeySet(ss)
      ensures false
    {
      Regroup3(Front(count), EncodeRecords(rs), t);
      CountIs(data, count, EncodeRecords(rs) + t, ss);
      NextRecord(rs, t, ss);
    }
  }

  lemma CountIs(data: Bytes, count: nat, t: Bytes, ss: seq<Record>)
    requires IsU32(count) && RecordsFit(ss) && IsU32(|ss|)
    requires data == Front(count) + t && data == EncodeKeySet(ss)
    ensures |ss| == count && t == EncodeRecords(ss)
  {
    hide EncodeRecord, EncodeRecords, HasFront, KeySetHeader, Profile, U32At;
    FrontShape(count, t);
    FrontShape(|ss|, EncodeRecords(ss));
    CancelFirst(Front(count), t, EncodeRecords(ss));
  }

  /** After the last record, data is acceptable exactly when nothing is left and the records are. */
  lemma RefuseEnd(rules: Rules, data: Bytes, rs: seq<Record>, t: Bytes)
    requires RecordsFit(rs) && IsU32(|rs|)
    requires data == Front(|rs|) + EncodeRecords(rs) + t && (t != [] || !Takes(rules, rs))
    ensures Refused(rules, data)
  {
    hide EncodeRecord, EncodeRecords, Front, AllGood, LastKey, EncodeKeySet;
    forall ss | Takes(rules, ss) && data == EncodeKeySet(ss)
      ensures false
    {
      Regroup3(Front(|rs|), EncodeRecords(rs), t);
      CountIs(data, |rs|, EncodeRecords(rs) + t, ss);
      assert EncodeRecords(ss) + [] == EncodeRecords(ss);
      assert ss[..|rs|] == ss;
      RecordsAgree(rs, t, ss, []);
    }
  }

  // ---------- The readers ----------

  lemma NoRecord(rules: Rules, t: Bytes)
    requires |t| < 12 || |t| < 12 + U32At(t, 0) + U32At(t, 4) + U32At(t, 8)
    ensures Stuck(rules, t)
  {
    hide EncodeRecord, U32At, Good;
    forall s | RecordFits(s) && Good(rules, s) && EncodeRecord(s) <= t
      ensures false
    {
      var u := t[|EncodeRecord(s)|..];
      assert t == EncodeRecord(s) + u;
      RecordShape(s, u);
    }
  }

  /** One record, or nothing when no record stands at the cursor. */
  method ReadRecord(rd: Reader, ghost rules: Rules) returns (r: Option<Record>)
    requires rd.Valid()
    modifies rd
    ensures rd.Valid()
    ensures r.Some? ==> RecordFits(r.value) && rd.Done() == old(rd.Done()) + EncodeRecord(r.value)
    ensures r.None? ==> Stuck(rules, rd.data[old(rd.offset)..])
  {
    hide Reader.Done, U32, U32At, Stuck;
    ghost var start := rd.offset;
    ghost var done := rd.Done();
    ghost var t := rd.data[start..];
    r := None;
    var ok, a, b, c;
    ok, a := rd.ReadU32();
    if !ok {
      NoRecord(rules, t);
      return;
    }
    ok, b := rd.ReadU32();
    if !ok {
      NoRecord(rules, t);
      return;
    }
    ok, c := rd.ReadU32();
    if !ok {
      NoRecord(rules, t);
      return;
    }
    SameNumbers(rd.data, start);
    var purpose, identity, key;
    ok, purpose := rd.TakeBytes(a);
    if !ok {
      NoRecord(rules, t);
      return;
    }
    ok, identity := rd.TakeBytes(b);
    if !ok {
      NoRecord(rules, t);
      return;
    }
    ok, key := rd.TakeBytes(c);
    if !ok {
      NoRecord(rules, t);
      return;
    }
    Regroup(done, U32(a), U32(b), U32(c), purpose, identity, key);
    r := Some(Record(purpose, identity, key));
  }

  lemma SameNumbers(data: Bytes, i: nat)
    requires i + 12 <= |data|
    ensures U32At(data, i) == U32At(data[i..], 0)
    ensures U32At(data, i + 4) == U32At(data[i..], 4)
    ensures U32At(data, i + 8) == U32At(data[i..], 8)
  {
    hide FromU32;
  }

  /** Header and profile of a key set; fails exactly when the fixed front is wrong or counts nothing. */
  method ReadFront(rd: Reader) returns (ok: bool, count: nat)
    requires rd.Valid() && rd.offset == 0
    modifies rd
    ensures rd.Valid() && IsU32(count)
    ensures ok ==> count > 0 && rd.Done() == Front(count)
    ensures !ok ==> forall rules :: Refused(rules, rd.data)
  {
    hide Reader.Done, U32, U32At, KeySetMagic, Profile, Refused, HasFront;
    ok, count := false, 0;
    if |rd.data| < 17 || rd.data[..8] != KeySetMagic() || rd.data[8] != VERSION {
      NotFront(rd.data);
      return;
    }
    rd.Skip(9);
    var profileLen, profile;
    ok, profileLen := rd.ReadU32();
    ok, count := rd.ReadU32();
    ok, profile := rd.TakeBytes(profileLen);
    if !ok || profile != Profile() || count == 0 {
      NotFront(rd.data);
      ok := false;
      return;
    }
    FrontIs(count);
  }

  lemma NotFront(data: Bytes)
    requires |data| < 35 || data[..8] != KeySetMagic() || data[8] != VERSION
             || U32At(data, 9) != 18 || data[17..35] != Profile() || U32At(data, 13) == 0
    ensures forall rules :: Refused(rules, data)
  {
    hide U32At, KeySetMagic, Profile, Refused;
    forall rules: Rules
      ensures Refused(rules, data)
    {
      NoFront(rules, data);
    }
  }

  lemma FrontIs(count: nat)
    requires IsU32(count)
    ensures Front(count) == KeySetMagic() + [VERSION] + U32(18) + U32(count) + Profile()
  {
    hide U32, KeySetMagic, Profile;
  }

  /** rs is the answer to: which acceptable record list is data the encoding of? */
  ghost predicate IsKeySetIn(data: Bytes, rs: Option<seq<Record>>, rules: Rules) {
    match rs
    case Some(v) => Takes(rules, v) && data == EncodeKeySet(v)
    case None => Refused(rules, data)
  }

  /** A loop over the records that consumed its input decides the answer. */
  lemma Decided(rules: Rules, data: Bytes, rs: seq<Record>, offset: nat)
    requires RecordsFit(rs) && IsU32(|rs|) && offset <= |data|
    requires data[..offset] == Front(|rs|) + EncodeRecords(rs)
    ensures IsKeySetIn(data, if offset == |data| && Takes(rules, rs) then Some(rs) else None, rules)
  {
    hide EncodeRecord, EncodeRecords, KeySetHeader, Profile, Takes, Refused;
    assert data == data[..offset] + data[offset..];
    if offset == |data| && Takes(rules, rs) {
    } else {
      RefuseEnd(rules, data, rs, data[offset..]);
    }
  }

  /** A record that cannot be read or is not good ends the matter. */
  lemma Rejected(rules: Rules, data: Bytes, count: nat, rs: seq<Record>, offset: nat, r: Option<Record>)
    requires IsU32(count) && RecordsFit(rs) && |rs| < count && offset <= |data|
    requires data[..offset] == Front(count) + EncodeRecords(rs)
    requires r.None? ==> Stuck(rules, data[offset..])
    requires r.Some? ==> RecordFits(r.value) && !Good(rules, r.value) && data[..offset] + EncodeRecord(r.value) <= data
    ensures Refused(rules, data)
  {
    hide EncodeRecord, EncodeRecords, Front, Good, Stuck, Refused;
    var t := data[offset..];
    assert data == data[..offset] + t;
    if r.Some? {
      var e := EncodeRecord(r.value);
      var u := data[offset + |e|..];
      assert data[..offset] + t == data[..offset] + e + u;
      CancelMiddleEq(data[..offset], t, e, u);
      BadRecord(rules, r.value, u);
    }
    RefuseAt(rules, data, count, rs, t);
  }

  lemma CancelMiddleEq(x: Bytes, t: Bytes, e: Bytes, u: Bytes)
    requires x + t == x + e + u
    ensures t == e + u
  {
    Regroup3(x, e, u);
    CancelFirst(x, t, e + u);
  }

  /** The Python decoder: accepts exactly the encodings of its own values. */
  method DecodeKeySet(utf8: Bytes -> bool, data: Bytes) returns (r: Option<seq<Record>>)
    ensures IsKeySetIn(data, r, PythonTool(utf8))
  {
    hide Reader.Done, EncodeRecord, EncodeRecords, Front, PythonRecord, Stuck, Refused;
    ghost var rules := PythonTool(utf8);
    r := None;
    var rd := new Reader(data);
    var ok, count := ReadFront(rd);
    if !ok {
      return;
    }
    var records: seq<Record> := [];
    NoRecordsYet(Front(count));
    for i := 0 to count
      invariant rd.Valid() && |records| == i && RecordsFit(records) && AllGood(rules, records)
      invariant rd.Done() == Front(count) + EncodeRecords(records)
    {
      ghost var start := rd.offset;
      rd.DoneIs();
      var record := ReadRecord(rd, rules);
      rd.DoneIs();
      if record.None? || !PythonRecord(utf8, record.value) {
        Rejected(rules, data, count, records, start, record);
        return;
      }
      OneMore(rules, Front(count), records, record.value);
      records := records + [record.value];
    }
    rd.DoneIs();
    Decided(rules, data, records, rd.offset);
    r := if rd.offset == |data| then Some(records) else None;
  }

  lemma NoRecordsYet(x: Bytes)
    ensures RecordsFit([]) && x == x + EncodeRecords([])
  {
  }

  lemma OneMore(rules: Rules, x: Bytes, rs: seq<Record>, r: Record)
    requires RecordsFit(rs) && RecordFits(r) && AllGood(rules, rs) && Good(rules, r)
    ensures RecordsFit(rs + [r]) && AllGood(rules, rs + [r])
    ensures x + EncodeRecords(rs) + EncodeRecord(r) == x + EncodeRecords(rs + [r])
  {
    hide EncodeRecord, EncodeRecords, Good;
    EncodeSnoc(rs, r);
    Regroup3(x, EncodeRecords(rs), EncodeRecord(r));
  }

  /** The Python encoder appends one encoded record a turn. */
  method EncodeSet(rs: seq<Record>) returns (data: Bytes)
    requires RecordsFit(rs) && IsU32(|rs|)
    ensures data == EncodeKeySet(rs)
  {
    hide EncodeRecord;
    var encoded: Bytes := [];
    for i := 0 to |rs|
      invariant encoded == EncodeRecords(rs[..i])
    {
      var r := rs[i];
      PrefixSnoc(rs, i);
      encoded := encoded + EncodeRecord(r);
    }
    assert rs[..|rs|] == rs;
    data := KeySetHeader(|Profile()|, |rs|) + Profile() + encoded;
  }
}
