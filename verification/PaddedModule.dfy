/** The exact-size padding of WebAssembly artifacts in
    `workloads/c2_sleep50_package_grid/build_artifacts.py`: when the search for a padding length
    succeeds, and that what it appends is one well-formed custom section. */
module PaddedModule {
  import opened ByteStrings
  import opened Wrappers

  // ---------- ULEB128 ----------

  function Uleb(v: nat): (b: Bytes)
    ensures |b| == Size(v)
  {
    if v < 128 then [v] else [v % 128 + 128] + Uleb(v / 128)
  }

  /** Bytes of the encoding. */
  function Size(v: nat): (n: nat)
    ensures n >= 1
  {
    if v < 128 then 1 else 1 + Size(v / 128)
  }

  /** Seven bits a byte, the top bit set on all but the last; nothing for negative numbers. */
  method Uleb128(value: int) returns (r: Option<Bytes>)
    ensures r.None? <==> value < 0
    ensures r.Some? ==> r.value == Uleb(value)
  {
    if value < 0 {
      return None;
    }
    var v: nat := value;
    var encoded: Bytes := [];
    while v >= 128
      invariant encoded + Uleb(v) == Uleb(value)
      decreases v
    {
      assert Uleb(v) == [v % 128 + 128] + Uleb(v / 128);
      encoded := encoded + [v % 128 + 128];
      v := v / 128;
    }
    r := Some(encoded + [v]);
  }

  /** The number at the front of b and what follows it (WebAssembly Core section 5.2.2). */
  function ReadUleb(b: Bytes): Option<(nat, Bytes)> {
    if b == [] then None
    else if b[0] < 128 then Some((b[0], b[1..]))
    else
      match ReadUleb(b[1..])
      case None => None
      case Some((v, rest)) => Some((b[0] - 128 + 128 * v, rest))
  }

  lemma {:induction false} UlebRead(v: nat, t: Bytes)
    ensures ReadUleb(Uleb(v) + t) == Some((v, t))
  {
    var x := Uleb(v) + t;
    if v < 128 {
      assert x[1..] == t;
    } else {
      UlebRead(v / 128, t);
      assert x[1..] == Uleb(v / 128) + t;
    }
  }

  /** The example of the DWARF and WebAssembly documents: low bits first. */
  lemma UlebExample()
    ensures Uleb(624485) == [0xe5, 0x8e, 0x26] && Uleb(127) == [0x7f] && Uleb(128) == [0x80, 1]
  {
    assert 624485 / 128 == 4878 && 624485 % 128 == 101 && 4878 / 128 == 38 && 4878 % 128 == 14;
    assert Uleb(38) == [38] && Uleb(4878) == [142] + Uleb(38);
  }

  // ---------- The section ----------

  function Name(): (b: Bytes)
    ensures |b| == 20
  {
    Ascii("asyncs.c2.padding.v1")
  }

  function Payload(padding: Bytes): (b: Bytes)
    ensures |b| == 21 + |padding|
  {
    Uleb(|Name()|) + Name() + padding
  }

  function CustomSection(padding: Bytes): (b: Bytes)
    ensures |b| == Length(|padding|)
  {
    [0] + Uleb(|Payload(padding)|) + Payload(padding)
  }

  /** Bytes of a section with this much padding. */
  function Length(padding: nat): nat {
    22 + padding + Size(21 + padding)
  }

  /** A custom section as WebAssembly reads it (section 5.5.3): name, contents, and the bytes that follow. */
  function ReadCustom(b: Bytes): Option<(Bytes, Bytes, Bytes)> {
    if b == [] || b[0] != 0 then None
    else
      match ReadUleb(b[1..])
      case None => None
      case Some((n, rest)) =>
        if n > |rest| then None
        else
          match ReadUleb(rest[..n])
          case None => None
          case Some((m, body)) => if m > |body| then None else Some((body[..m], body[m..], rest[n..]))
  }

  /** What is appended reads as exactly one custom section of the expected name. */
  lemma SectionReads(padding: Bytes, t: Bytes)
    ensures ReadCustom(CustomSection(padding) + t) == Some((Ascii("asyncs.c2.padding.v1"), padding, t))
    ensures CustomSection(padding)[0] == 0
  {
    hide Uleb, ReadUleb, Ascii;
    var p := Payload(padding);
    var b := CustomSection(padding) + t;
    assert b[1..] == Uleb(|p|) + (p + t);
    UlebRead(|p|, p + t);
    assert (p + t)[..|p|] == p && (p + t)[|p|..] == t;
    assert p == Uleb(|Name()|) + (Name() + padding);
    UlebRead(|Name()|, Name() + padding);
    assert (Name() + padding)[..20] == Name() && (Name() + padding)[20..] == padding;
  }

  // ---------- Which totals have a padding length ----------

  function P128(k: nat): (r: nat)
    ensures r >= 1
  {
    if k == 0 then 1 else 128 * P128(k - 1)
  }

  lemma {:induction false} SizeBounds(v: nat)
    ensures v < P128(Size(v)) && (v > 0 ==> P128(Size(v) - 1) <= v)
  {
    if v >= 128 {
      SizeBounds(v / 128);
    } else {
      assert P128(1) == 128;
    }
  }

  lemma {:induction false} P128Grows(a: nat, b: nat)
    requires a < b
    ensures P128(a) + 127 <= P128(b) && P128(b) >= b + 1
  {
    if a + 1 < b {
      P128Grows(a, b - 1);
    } else if a > 0 {
      P128Grows(a - 1, a);
    }
  }

  /** The size is the number of base-128 digits. */
  lemma SizeIs(v: nat, k: nat)
    requires k >= 1 && v < P128(k) && (k > 1 ==> P128(k - 1) <= v)
    ensures Size(v) == k
  {
    SizeBounds(v);
    if Size(v) < k {
      if Size(v) < k - 1 {
        P128Grows(Size(v), k - 1);
      }
    } else if Size(v) > k {
      if k < Size(v) - 1 {
        P128Grows(k, Size(v) - 1);
      }
    }
  }

  lemma {:induction false} SizeMonotone(v: nat, w: nat)
    requires v <= w
    ensures Size(v) <= Size(w)
  {
    if v >= 128 {
      SizeMonotone(v / 128, w / 128);
    }
  }

  /** The totals jumped over where the size field grows. */
  ghost predicate Gap(total: nat) {
    exists k: nat :: k >= 1 && GapAt(total, k)
  }

  ghost predicate GapAt(total: nat, k: nat) {
    total == P128(k) + k + 1
  }

  lemma NothingFitsGap(total: nat, padding: nat)
    requires Gap(total)
    ensures Length(padding) != total
  {
    var k: nat :| k >= 1 && GapAt(total, k);
    var v := 21 + padding;
    SizeBounds(v);
    if v >= P128(k) {
      if Size(v) < k {
        P128Grows(Size(v), k);
      }
    } else if Size(v) > k {
      if k < Size(v) - 1 {
        P128Grows(k, Size(v) - 1);
      }
    }
  }

  lemma NoGapAt(total: nat, k: nat)
    requires !Gap(total) && k >= 1
    ensures total != P128(k) + k + 1
  {
    assert !GapAt(total, k);
  }

  /** Any other total has a payload size that is its own fixed point. */
  lemma FixedPoint(total: nat, s: nat) returns (v: nat)
    requires total >= 28 && !Gap(total) && s >= 1
    requires s > 1 ==> P128(s - 1) <= total - s && s <= total
    ensures v + 1 + Size(v) == total && v >= 26
    decreases total - s
  {
    if s + 1 <= total && total - 1 - s < P128(s) {
      v := total - 1 - s;
      if s > 1 {
        NoGapAt(total, s - 1);
      }
      SizeIs(v, s);
    } else {
      P128Grows(0, s);
      v := FixedPoint(total, s + 1);
    }
  }

  // ---------- The search ----------

  /** The padding length tried in turn i. A negative one produces no padding. */
  function Try(total: nat, i: nat): int {
    if i == 0 then total - 28 else Try(total, i - 1) + total - Made(Try(total, i - 1))
  }

  /** The section length a turn produces. */
  function Made(padding: int): nat {
    Length(if padding < 0 then 0 else padding)
  }

  /** Next to a fixed point the size field differs by at most one. */
  lemma SizeNearby(v: nat)
    ensures Size(v + 1) == Size(v) || (Size(v + 1) == Size(v) + 1 && v + 1 == P128(Size(v)))
  {
    SizeBounds(v);
    SizeBounds(v + 1);
    SizeMonotone(v, v + 1);
    if Size(v + 1) > Size(v) {
      if Size(v) < Size(v + 1) - 1 {
        P128Grows(Size(v), Size(v + 1) - 1);
      }
    }
  }

  lemma NextPower128(s: nat)
    requires s > 0
    ensures P128(s) == 128 * P128(s - 1) && P128(s + 1) == 128 * P128(s) && P128(s - 1) >= s && P128(0) == 1
    ensures s > 1 ==> P128(s - 1) == 128 * P128(s - 2)
  {
    if s > 1 {
      P128Grows(0, s - 1);
    }
  }

  /** The first guess misses by so little that its size field is at most one off. */
  lemma FirstGuess(v: nat, v0: nat)
    requires v0 == v + Size(v) - 6 && v >= 26
    ensures Size(v) - 1 <= Size(v0) <= Size(v) + 1
    ensures Size(v0) == Size(v) - 1 ==> v0 < P128(Size(v) - 1) <= v
    ensures Size(v0) == Size(v) + 1 ==> v < P128(Size(v)) <= v0
  {
    hide Size, P128;
    var s := Size(v);
    SizeBounds(v);
    SizeBounds(v0);
    P128Grows(s - 1, s);
    P128Grows(s, s + 1);
    NextPower128(s);
    if v0 >= P128(s) {
      SizeIs(v0, s + 1);
    } else if v0 >= P128(s - 1) {
      SizeIs(v0, s);
    } else {
      assert s > 1;
      P128Grows(s - 2, s - 1);
      SizeIs(v0, s - 1);
    }
  }

  /** Wherever a length exists the third turn at the latest has it. */
  lemma Converges(total: nat)
    requires total >= 28 && !Gap(total)
    ensures Try(total, 0) >= 0 && Try(total, 1) >= 0 && Try(total, 2) >= 0
    ensures Made(Try(total, 1)) == total || Made(Try(total, 2)) == total
  {
    hide Size, Gap;
    var v := FixedPoint(total, 1);
    var v0 := total - 7;
    FirstGuess(v, v0);
    var v1 := v + Size(v) - Size(v0);
    NextTry(total, 0, v0);
    NextTry(total, 1, v1);
    if Size(v0) != Size(v) {
      SecondGuess(v, v0, v1);
      NextTry(total, 2, v);
    }
  }

  /** One turn, in terms of the payload size it stands for. */
  lemma NextTry(total: nat, i: nat, v: nat)
    requires v >= 21 && Try(total, i) == v - 21
    ensures Made(Try(total, i)) == v + 1 + Size(v)
    ensures Try(total, i + 1) == total - 22 - Size(v)
  {
    hide Size;
  }

  lemma SecondGuess(v: nat, v0: nat, v1: nat)
    requires v >= 26 && v0 == v + Size(v) - 6 && v1 == v + Size(v) - Size(v0)
    requires Size(v0) == Size(v) - 1 || Size(v0) == Size(v) + 1
    ensures Size(v1) == Size(v)
  {
    hide Size, P128;
    var s := Size(v);
    FirstGuess(v, v0);
    SizeNearby(v);
    SizeNearby(v - 1);
    NextPower128(s);
  }

  /** What decides success: enough room and no gap, or one of three short totals. */
  ghost predicate Feasible(total: nat) {
    total == 23 || total == 26 || total == 27 || (total >= 28 && !Gap(total))
  }

  /** Room for the shortest section, for one of the next sizes that the search meets, or for any from 28 on
      where the size field does not grow. */
  lemma FeasibleIs(room: nat)
    ensures Feasible(room) <==>
              room == 23 || room == 26 || room == 27
              || (room >= 28 && forall k: nat :: k >= 1 ==> room != P128(k) + k + 1)
  {
    if Gap(room) {
      var k: nat :| k >= 1 && GapAt(room, k);
      assert room == P128(k) + k + 1;
    } else {
      forall k: nat | k >= 1
        ensures room != P128(k) + k + 1
      {
        NoGapAt(room, k);
      }
    }
  }

  lemma SmallSizes()
    ensures forall v: nat :: v < 128 ==> Size(v) == 1
  {
  }

  /** Two totals that the search gives up on although a padding length fits. */
  lemma MissedChances()
    ensures Length(1) == 24 && Length(2) == 25
    ensures !Feasible(24) && !Feasible(25)
  {
    SmallSizes();
  }

  /** For totals below 28 the search makes at most three turns. */
  lemma ShortTotals(total: nat)
    requires 1 <= total < 28
    ensures total <= 22 ==> Made(Try(total, 0)) != total && Try(total, 1) < 0
    ensures total == 23 ==> Made(Try(total, 0)) == total
    ensures total == 24 || total == 25 ==> Made(Try(total, 0)) != total && Try(total, 1) < 0
    ensures total >= 26 ==> Made(Try(total, 0)) != total && Try(total, 1) >= 0 && Made(Try(total, 1)) != total
                            && Try(total, 2) >= 0 && Made(Try(total, 2)) == total
  {
    SmallSizes();
    assert Made(Try(total, 0)) == 23;
    assert Try(total, 1) == 2 * total - 51;
    if total >= 26 {
      assert Try(total, 2) == total - 23;
    }
  }

  // ---------- The program ----------

  /** The padding stream: hashes of a domain, the target and a counter. */
  function Stream(hash: nat -> Bytes, blocks: nat): Bytes {
    if blocks == 0 then [] else Stream(hash, blocks - 1) + hash(blocks - 1)
  }

  ghost predicate FromStream(hash: nat -> Bytes, b: Bytes) {
    exists blocks: nat :: b <= Stream(hash, blocks)
  }

  ghost predicate Hashes(hash: nat -> Bytes) {
    forall i :: |hash(i)| == 32
  }

  /** Byte i of the stream is byte i % 32 of hash number i / 32. */
  lemma {:induction false} StreamAt(hash: nat -> Bytes, blocks: nat, i: nat)
    requires Hashes(hash) && i < 32 * blocks
    ensures |Stream(hash, blocks)| == 32 * blocks && Stream(hash, blocks)[i] == hash(i / 32)[i % 32]
  {
    StreamSize(hash, blocks - 1);
    if i < 32 * (blocks - 1) {
      StreamAt(hash, blocks - 1, i);
    } else {
      assert i / 32 == blocks - 1 && i % 32 == i - 32 * (blocks - 1);
    }
  }

  lemma {:induction false} StreamSize(hash: nat -> Bytes, blocks: nat)
    requires Hashes(hash)
    ensures |Stream(hash, blocks)| == 32 * blocks
  {
    if blocks > 0 {
      StreamSize(hash, blocks - 1);
    }
  }

  lemma StreamBytes(hash: nat -> Bytes, b: Bytes)
    requires Hashes(hash) && FromStream(hash, b)
    ensures forall i :: 0 <= i < |b| ==> b[i] == hash(i / 32)[i % 32]
  {
    var blocks: nat :| b <= Stream(hash, blocks);
    StreamSize(hash, blocks);
    forall i | 0 <= i < |b|
      ensures b[i] == hash(i / 32)[i % 32]
    {
      StreamAt(hash, blocks, i);
    }
  }

  /** hash(i) stands for the hash of domain, target and i. */
  method DeterministicPadding(hash: nat -> Bytes, length: int) returns (r: Bytes)
    requires Hashes(hash)
    ensures |r| == if length < 0 then 0 else length
    ensures forall i :: 0 <= i < |r| ==> r[i] == hash(i / 32)[i % 32]
    ensures FromStream(hash, r)
  {
    var output: Bytes := [];
    var counter: nat := 0;
    while |output| < length
      invariant output == Stream(hash, counter) && (counter == 0 ==> output == [])
      invariant counter > 0 ==> length > 0
      decreases length - |output|
    {
      output := output + hash(counter);
      counter := counter + 1;
    }
    r := if length < 0 then [] else output[..length];
    assert r <= Stream(hash, counter);
    StreamBytes(hash, r);
  }

  function WasmHeader(): (b: Bytes)
    ensures |b| == 8
  {
    [0, 0x61, 0x73, 0x6d, 1, 0, 0, 0]
  }

  ghost predicate PaddedWith(hash: nat -> Bytes, base: Bytes, r: Bytes, padding: Bytes)
    requires Hashes(hash)
  {
    r == base + CustomSection(padding) && forall i :: 0 <= i < |padding| ==> padding[i] == hash(i / 32)[i % 32]
  }

  /** Succeeds exactly for WebAssembly modules with a feasible amount of room, and then returns the
      base and one custom section, of exactly the target size. */
  method Pad(hash: nat -> Bytes, base: Bytes, target: nat) returns (r: Option<Bytes>)
    requires Hashes(hash)
    ensures r.Some? <==>
              [0, 0x61, 0x73, 0x6d, 1, 0, 0, 0] <= base && |base| < target && Feasible(target - |base|)
    ensures r.Some? ==> |r.value| == target && exists padding :: PaddedWith(hash, base, r.value, padding)
  {
    hide CustomSection, Feasible, Made, Try, Hashes, Length;
    if !(WasmHeader() <= base) || |base| >= target {
      return None;
    }
    ghost var total := target - |base|;
    var paddingLength := target - |base| - 20 - 8;
    FirstTry(total);
    for i := 0 to 16
      invariant paddingLength == Try(total, i)
      invariant forall j: nat :: j < i ==> Missed(total, j)
    {
      var padding := DeterministicPadding(hash, paddingLength);
      var section := CustomSection(padding);
      var delta := target - (|base| + |section|);
      Turn(total, i, |padding|);
      if delta == 0 {
        Found(total, i);
        r := Some(base + section);
        assert PaddedWith(hash, base, r.value, padding);
        return;
      }
      paddingLength := paddingLength + delta;
      if paddingLength < 0 {
        Hopeless(total, i);
        return None;
      }
    }
    assert Missed(total, 15);
    Hopeless(total, 15);
    r := None;
  }

  /** Turn j neither fits nor stops the search. */
  ghost predicate Missed(total: nat, j: nat) {
    Made(Try(total, j)) != total && Try(total, j + 1) >= 0
  }

  lemma FirstTry(total: nat)
    ensures Try(total, 0) == total - 28
  {
  }

  lemma Turn(total: nat, i: nat, padding: nat)
    requires padding == if Try(total, i) < 0 then 0 else Try(total, i)
    ensures Length(padding) == Made(Try(total, i))
    ensures Try(total, i + 1) == Try(total, i) + total - Made(Try(total, i))
  {
  }

  lemma Found(total: nat, i: nat)
    requires total >= 1 && Made(Try(total, i)) == total
    requires forall j: nat :: j < i ==> Missed(total, j)
    ensures Feasible(total)
  {
    hide Made, Try, Gap;
    if total < 28 {
      ShortTotals(total);
      assert i > 0 ==> Missed(total, 0);
    } else if Gap(total) {
      NeverMade(total, Try(total, i));
    }
  }

  lemma NeverMade(total: nat, padding: int)
    requires Gap(total)
    ensures Made(padding) != total
  {
    hide Gap;
    NothingFitsGap(total, if padding < 0 then 0 else padding);
  }

  /** Feasible totals are met in the first three turns, with no stop before. */
  lemma Reaches(total: nat)
    requires Feasible(total)
    ensures Made(Try(total, 0)) == total || (
              Try(total, 1) >= 0 && (Made(Try(total, 1)) == total || (
                Try(total, 2) >= 0 && Made(Try(total, 2)) == total)))
  {
    hide Made, Try, Gap;
    if total < 28 {
      ShortTotals(total);
    } else {
      Converges(total);
    }
  }

  /** So a search that misses, and then stops or runs out of turns, had no chance. */
  lemma Hopeless(total: nat, i: nat)
    requires Made(Try(total, i)) != total && (i >= 2 || Try(total, i + 1) < 0)
    requires forall j: nat :: j < i ==> Missed(total, j)
    ensures !Feasible(total)
  {
    hide Made, Try, Feasible;
    assert (i > 0 ==> Missed(total, 0)) && (i > 1 ==> Missed(total, 1)) && (i > 2 ==> Missed(total, 2));
    if Feasible(total) {
      Reaches(total);
    }
  }
}
