/** Base64 as the worker encodes inputs (`sgx_worker/Enclave/Enclave.cpp`) and the deterministic
    workload decodes and encodes them (`workloads/c3_deterministic_io/src/main.rs`). */
module Base64 {
  import opened ByteStrings
  import opened Wrappers

  const PAD: Byte := 61

  /** The 64-character alphabet of RFC 4648 section 4. */
  function Digit(v: nat): (b: Byte)
    requires v < 64
  {
    if v < 26 then 65 + v
    else if v < 52 then 71 + v
    else if v < 62 then v - 4
    else if v == 62 then 43
    else 47
  }

  function DecodeDigit(b: Byte): (v: Option<nat>)
    ensures v.Some? ==> v.value < 64
  {
    if 65 <= b <= 90 then Some(b - 65)
    else if 97 <= b <= 122 then Some(b - 71)
    else if 48 <= b <= 57 then Some(b + 4)
    else if b == 43 then Some(62)
    else if b == 47 then Some(63)
    else None
  }

  /** Digits decode to their values and no digit is the padding sign. */
  lemma DigitBack(v: nat)
    requires v < 64
    ensures DecodeDigit(Digit(v)) == Some(v) && Digit(v) != PAD
  {
  }

  /** Sextet k of a 24-bit word, from the top. */
  function Sextet(w: nat, k: nat): (v: nat)
    ensures v < 64
  {
    (if k == 0 then w / 0x4_0000 else if k == 1 then w / 0x1000 else if k == 2 then w / 64 else w) % 64
  }

  function Word(a: Byte, b: Byte, c: Byte): nat {
    a * 0x1_0000 + b * 0x100 + c
  }

  /** The four digits of a 24-bit group. */
  function Quad(a: Byte, b: Byte, c: Byte): (q: Bytes)
    ensures |q| == 4
  {
    var w := Word(a, b, c);
    [Digit(Sextet(w, 0)), Digit(Sextet(w, 1)), Digit(Sextet(w, 2)), Digit(Sextet(w, 3))]
  }

  /** Groups of three that n bytes make. */
  function Groups(n: nat): nat {
    if n == 0 then 0 else if n <= 3 then 1 else 1 + Groups(n - 3)
  }

  lemma {:induction false} GroupsIs(n: nat)
    ensures Groups(n) == (n + 2) / 3
  {
    if n > 3 {
      GroupsIs(n - 3);
    }
  }

  /** RFC 4648: whole groups, then one or two leftover bytes with padding. */
  function Encode(d: Bytes): (e: Bytes)
    ensures |e| == 4 * Groups(|d|)
  {
    if d == [] then []
    else if |d| == 1 then Quad(d[0], 0, 0)[..2] + [PAD, PAD]
    else if |d| == 2 then Quad(d[0], d[1], 0)[..3] + [PAD]
    else Quad(d[0], d[1], d[2]) + Encode(d[3..])
  }

  /** The bytes of one group; padding only at the end. */
  function DecodeChunk(e0: Byte, e1: Byte, e2: Byte, e3: Byte, last: bool): Option<Bytes> {
    if e2 == PAD && e3 != PAD then None
    else
      var pad := if e3 != PAD then 0 else if e2 != PAD then 1 else 2;
      if pad > 0 && !last then None
      else
        match DecodeGroup(e0, e1, if pad == 2 then 65 else e2, if pad > 0 then 65 else e3)
        case None => None
        case Some(g) => Some(g[..3 - pad])
  }

  function Decode(e: Bytes): Option<Bytes> {
    if e == [] then Some([])
    else if |e| < 4 then None
    else
      match DecodeChunk(e[0], e[1], e[2], e[3], |e| == 4)
      case None => None
      case Some(g) =>
        match Decode(e[4..])
        case None => None
        case Some(rest) => Some(g + rest)
  }

  lemma {:induction false} WholeGroups(e: Bytes)
    requires |e| % 4 != 0
    ensures Decode(e).None?
  {
    hide DecodeChunk;
    if |e| >= 4 {
      WholeGroups(e[4..]);
    }
  }

  /** Three bytes from four digits. */
  function DecodeGroup(e0: Byte, e1: Byte, e2: Byte, e3: Byte): (g: Option<Bytes>)
    ensures g.Some? ==> |g.value| == 3
  {
    var a, b, c, d := DecodeDigit(e0), DecodeDigit(e1), DecodeDigit(e2), DecodeDigit(e3);
    if a.None? || b.None? || c.None? || d.None? then None
    else
      var w := a.value * 0x4_0000 + b.value * 0x1000 + c.value * 64 + d.value;
      Some([w / 0x1_0000 % 256, w / 0x100 % 256, w % 256])
  }

  /** A word from its sextets. */
  lemma WordOf(w: nat)
    requires w < 0x100_0000
    ensures w == Sextet(w, 0) * 0x4_0000 + Sextet(w, 1) * 0x1000 + Sextet(w, 2) * 64 + Sextet(w, 3)
  {
    var p := w / 64;
    var q := p / 64;
    assert q == w / 0x1000 && q / 64 == w / 0x4_0000;
  }

  lemma WordBytes(a: Byte, b: Byte, c: Byte)
    ensures var w := Word(a, b, c);
            w < 0x100_0000 && w / 0x1_0000 % 256 == a && w / 0x100 % 256 == b && w % 256 == c
  {
    var w := Word(a, b, c);
    assert w / 0x1_0000 == a;
    assert w / 0x100 == a * 0x100 + b;
  }

  lemma MultipleOf64(q: nat)
    ensures (q * 64) % 64 == 0 && (q * 64) / 64 == q
  {
  }

  lemma ZeroSextets(a: Byte, b: Byte)
    ensures Sextet(Word(a, b, 0), 3) == 0 && Sextet(Word(a, 0, 0), 2) == 0
  {
    MultipleOf64(a * 0x400 + b * 4);
    MultipleOf64(a * 0x400);
    MultipleOf64(a * 16);
  }

  lemma GroupOfDigits(x: nat, y: nat, z: nat, t: nat)
    requires x < 64 && y < 64 && z < 64 && t < 64
    ensures var w := x * 0x4_0000 + y * 0x1000 + z * 64 + t;
            DecodeGroup(Digit(x), Digit(y), Digit(z), Digit(t)) == Some([w / 0x1_0000 % 256, w / 0x100 % 256, w % 256])
  {
    hide Digit, DecodeDigit;
    DigitBack(x);
    DigitBack(y);
    DigitBack(z);
    DigitBack(t);
  }

  /** Splitting 24 bits into digits and back. */
  lemma GroupBack(a: Byte, b: Byte, c: Byte)
    ensures var q := Quad(a, b, c); DecodeGroup(q[0], q[1], q[2], q[3]) == Some([a, b, c])
    ensures Quad(a, b, c)[2] != PAD && Quad(a, b, c)[3] != PAD
  {
    hide Digit, DecodeGroup, Sextet, Word;
    var w := Word(a, b, c);
    WordBytes(a, b, c);
    WordOf(w);
    GroupOfDigits(Sextet(w, 0), Sextet(w, 1), Sextet(w, 2), Sextet(w, 3));
    DigitBack(Sextet(w, 2));
    DigitBack(Sextet(w, 3));
  }

  /** Digits of a filled-up group that padding replaces are the zero digit. */
  lemma FilledDigits(a: Byte, b: Byte)
    ensures Quad(a, b, 0)[3] == 65 && Quad(a, 0, 0)[2] == 65
  {
    hide Sextet, Word;
    ZeroSextets(a, b);
    ZeroSextets(a, 0);
  }

  lemma ChunkBack(a: Byte, b: Byte, c: Byte, last: bool)
    ensures var q := Quad(a, b, c); DecodeChunk(q[0], q[1], q[2], q[3], last) == Some([a, b, c])
    ensures var q := Quad(a, b, 0); DecodeChunk(q[0], q[1], q[2], PAD, true) == Some([a, b])
    ensures var q := Quad(a, 0, 0); DecodeChunk(q[0], q[1], PAD, PAD, true) == Some([a])
  {
    hide Quad, DecodeGroup;
    GroupBack(a, b, c);
    GroupBack(a, b, 0);
    GroupBack(a, 0, 0);
    FilledDigits(a, b);
    FilledDigits(a, 0);
    assert [a, b, 0][..2] == [a, b] && [a, 0, 0][..1] == [a] && [a, b, c][..3] == [a, b, c];
  }

  /** Decoding undoes encoding on every byte string. */
  lemma {:induction false} DecodeUndoes(d: Bytes)
    ensures Decode(Encode(d)) == Some(d)
  {
    hide Quad, DecodeChunk;
    if d != [] {
      var e := Encode(d);
      ChunkBack(d[0], if |d| > 1 then d[1] else 0, if |d| > 2 then d[2] else 0, |e| == 4);
      if |d| >= 3 {
        DecodeUndoes(d[3..]);
        assert e[4..] == Encode(d[3..]);
        assert [d[0], d[1], d[2]] + d[3..] == d;
      } else if |d| == 2 {
        assert e[4..] == [] && [d[0], d[1]] + [] == d;
      } else {
        assert e[4..] == [] && [d[0]] + [] == d;
      }
    }
  }

  // ---------- RFC 4648 section 4, character by character ----------

  /** The alphabet, and that decoding a character is looking it up. */
  lemma Alphabet(v: nat, b: Byte)
    requires v < 64
    ensures Digit(v) == if v < 26 then 'A' as int + v else if v < 52 then 'a' as int + v - 26
                        else if v < 62 then '0' as int + v - 52 else if v == 62 then '+' as int else '/' as int
    ensures DecodeDigit(b) == Some(v) <==> b == Digit(v)
  {
  }

  lemma {:induction false} EncodeFrom(d: Bytes, i: nat)
    requires 3 * i <= |d|
    ensures 4 * i <= |Encode(d)| && Encode(d)[4 * i..] == Encode(d[3 * i..])
  {
    hide Quad, Groups;
    if i == 0 {
      assert d[0..] == d;
    } else {
      EncodeFrom(d[3..], i - 1);
      assert Encode(d)[4..] == Encode(d[3..]) && Encode(d)[4..][4 * (i - 1)..] == Encode(d)[4 * i..];
      assert d[3..][3 * (i - 1)..] == d[3 * i..];
    }
  }

  lemma EncodeFirst(d: Bytes)
    requires d != []
    ensures var e, b, c := Encode(d), if |d| > 1 then d[1] else 0, if |d| > 2 then d[2] else 0;
            && |e| >= 4 && e[0] == Digit(d[0] / 4) && e[1] == Digit(d[0] % 4 * 16 + b / 16)
            && e[2] == (if |d| > 1 then Digit(b % 16 * 4 + c / 64) else '=' as int)
            && e[3] == (if |d| > 2 then Digit(c % 64) else '=' as int)
  {
    hide Quad, Digit, Groups;
    QuadIs(d[0], if |d| > 1 then d[1] else 0, if |d| > 2 then d[2] else 0);
  }

  /** Bits 7..2 of the first byte, then 4 and 2 and 6 bits of the next ones; '=' where bytes are missing. */
  lemma EncodedAt(d: Bytes, i: nat)
    requires 3 * i < |d|
    ensures |Encode(d)| == (|d| + 2) / 3 * 4
    ensures var e := Encode(d);
            var a := d[3 * i];
            var b := if 3 * i + 1 < |d| then d[3 * i + 1] else 0;
            var c := if 3 * i + 2 < |d| then d[3 * i + 2] else 0;
            && e[4 * i] == Digit(a / 4) && e[4 * i + 1] == Digit(a % 4 * 16 + b / 16)
            && e[4 * i + 2] == (if 3 * i + 1 < |d| then Digit(b % 16 * 4 + c / 64) else '=' as int)
            && e[4 * i + 3] == (if 3 * i + 2 < |d| then Digit(c % 64) else '=' as int)
  {
    hide Encode, Digit, Groups;
    GroupsIs(|d|);
    EncodeFrom(d, i);
    EncodeFirst(d[3 * i..]);
    var e := Encode(d)[4 * i..];
    assert e[0] == Encode(d)[4 * i] && e[1] == Encode(d)[4 * i + 1];
    assert e[2] == Encode(d)[4 * i + 2] && e[3] == Encode(d)[4 * i + 3];
  }

  lemma QuadIs(a: Byte, b: Byte, c: Byte)
    ensures Quad(a, b, c) == [Digit(a / 4), Digit(a % 4 * 16 + b / 16), Digit(b % 16 * 4 + c / 64), Digit(c % 64)]
  {
    hide Digit;
    var w := Word(a, b, c);
    assert w / 0x4_0000 == a / 4;
    assert w / 0x1000 == a * 16 + b / 16;
    assert w / 64 == a * 0x400 + b * 4 + c / 64;
    Low64(a / 4, a % 4 * 16 + b / 16, a * 16 + b / 16);
    Low64(a * 16 + b / 16, b % 16 * 4 + c / 64, a * 0x400 + b * 4 + c / 64);
    Low64(a * 0x400 + b * 4 + c / 64, c % 64, w);
  }

  lemma Low64(q: nat, r: nat, x: nat)
    requires x == 64 * q + r && r < 64
    ensures x % 64 == r && (q < 64 ==> q % 64 == q)
  {
  }

  predicate IsDigit(b: Byte) {
    exists v :: 0 <= v < 64 && b == Digit(v)
  }

  /** Digits only, in whole groups, except that the last character or the last two may be '='. */
  predicate WellPadded(e: Bytes) {
    var n := |e|;
    && n % 4 == 0
    && (forall i :: 0 <= i < n - 2 ==> IsDigit(e[i]))
    && (n > 0 ==> (IsDigit(e[n - 2]) && (IsDigit(e[n - 1]) || e[n - 1] == '=' as int))
                  || (e[n - 2] == '=' as int && e[n - 1] == '=' as int))
  }

  lemma DigitsDecode(b: Byte)
    ensures IsDigit(b) <==> DecodeDigit(b).Some?
    ensures IsDigit(b) ==> b != PAD
  {
    if DecodeDigit(b).Some? {
      assert b == Digit(DecodeDigit(b).value);
    }
  }

  lemma ChunkAccepts(a: Byte, b: Byte, c: Byte, d: Byte, last: bool)
    ensures DecodeChunk(a, b, c, d, last).Some? <==>
              && IsDigit(a) && IsDigit(b)
              && ((IsDigit(c) && IsDigit(d)) || (last && d == PAD && (IsDigit(c) || c == PAD)))
  {
    hide IsDigit, DecodeDigit;
    DigitsDecode(a);
    DigitsDecode(b);
    DigitsDecode(c);
    DigitsDecode(d);
    DigitsDecode(PAD);
    Alphabet(0, 65);
    DigitsDecode(65);
  }

  /** The decoder accepts exactly these; leftover bits below the last byte may be anything. */
  lemma {:induction false} DecodesExactly(e: Bytes)
    ensures Decode(e).Some? <==> WellPadded(e)
  {
    hide IsDigit, DecodeChunk;
    if |e| >= 4 {
      var rest := e[4..];
      DecodesExactly(rest);
      ChunkAccepts(e[0], e[1], e[2], e[3], |e| == 4);
      DigitsDecode(PAD);
      if |e| == 4 {
        assert Decode(rest) == Some([]);
      } else {
        PaddedRest(e);
      }
    }
  }

  lemma PaddedRest(e: Bytes)
    requires |e| > 4
    ensures WellPadded(e) <==> IsDigit(e[0]) && IsDigit(e[1]) && IsDigit(e[2]) && IsDigit(e[3]) && WellPadded(e[4..])
  {
    hide IsDigit;
    var rest := e[4..];
    if |e| >= 8 && WellPadded(rest) && IsDigit(e[0]) && IsDigit(e[1]) && IsDigit(e[2]) && IsDigit(e[3]) {
      forall i | 0 <= i < |e| - 2
        ensures IsDigit(e[i])
      {
        assert i >= 4 ==> e[i] == rest[i - 4];
      }
    }
    if |e| >= 8 && WellPadded(e) {
      forall i | 0 <= i < |rest| - 2
        ensures IsDigit(rest[i])
      {
        assert rest[i] == e[i + 4];
      }
    }
  }

  /** What four characters stand for, '=' counting as zero. */
  function ValueOf(b: Byte): nat {
    if DecodeDigit(b).Some? then DecodeDigit(b).value else 0
  }

  /** Where the bytes of a group stand. */
  lemma {:induction false} GroupOf(e: Bytes, d: Bytes, i: nat) returns (g: Bytes)
    requires Decode(e) == Some(d) && 4 * i < |e|
    ensures 4 * i + 4 <= |e|
    ensures DecodeChunk(e[4 * i], e[4 * i + 1], e[4 * i + 2], e[4 * i + 3], 4 * i + 4 == |e|) == Some(g)
    ensures 3 * i + |g| <= |d| && d[3 * i..3 * i + |g|] == g && (4 * i + 4 == |e| ==> 3 * i + |g| == |d|)
  {
    hide DecodeChunk, Decode;
    var first, rest := DecodeSplit(e);
    if i == 0 {
      g := first;
    } else {
      assert |e| > 4;
      g := GroupOf(e[4..], rest, i - 1);
      WholeChunk(e[0], e[1], e[2], e[3]);
      Behind(d, first, rest, 3 * (i - 1), |g|);
    }
  }

  lemma DecodeSplit(e: Bytes) returns (first: Bytes, rest: Bytes)
    requires e != [] && Decode(e).Some?
    ensures |e| >= 4 && DecodeChunk(e[0], e[1], e[2], e[3], |e| == 4) == Some(first)
    ensures Decode(e[4..]) == Some(rest) && Decode(e).value == first + rest && (|e| == 4 ==> rest == [])
  {
    hide DecodeChunk;
    first := DecodeChunk(e[0], e[1], e[2], e[3], |e| == 4).value;
    rest := Decode(e[4..]).value;
  }

  lemma Behind(d: Bytes, first: Bytes, rest: Bytes, i: nat, n: nat)
    requires d == first + rest && i + n <= |rest|
    ensures d[|first| + i..|first| + i + n] == rest[i..i + n]
  {
  }

  lemma WholeChunk(a: Byte, b: Byte, c: Byte, d: Byte)
    requires DecodeChunk(a, b, c, d, false).Some?
    ensures |DecodeChunk(a, b, c, d, false).value| == 3
  {
    hide DecodeDigit;
  }

  /** Group i of what was decoded is the 24-bit number of its four characters, as far as bytes are asked for. */
  lemma DecodedAt(e: Bytes, d: Bytes, i: nat)
    requires Decode(e) == Some(d) && 4 * i < |e|
    ensures |e| % 4 == 0
    ensures |d| == |e| / 4 * 3 - (if e[|e| - 2] == '=' as int then 2 else if e[|e| - 1] == '=' as int then 1 else 0)
    ensures var w := ValueOf(e[4 * i]) * 0x4_0000 + ValueOf(e[4 * i + 1]) * 0x1000
                     + ValueOf(e[4 * i + 2]) * 64 + ValueOf(e[4 * i + 3]);
            && 3 * i < |d| && d[3 * i] == w / 0x1_0000
            && (3 * i + 1 < |d| ==> d[3 * i + 1] == w / 0x100 % 256)
            && (3 * i + 2 < |d| ==> d[3 * i + 2] == w % 256)
  {
    hide ValueOf, DecodeChunk, Decode;
    WholeIfDecoded(e);
    var n := |e| / 4 - 1;
    var last := GroupOf(e, d, n);
    ChunkValue(e[4 * n], e[4 * n + 1], e[4 * n + 2], e[4 * n + 3], true);
    var g := GroupOf(e, d, i);
    ChunkValue(e[4 * i], e[4 * i + 1], e[4 * i + 2], e[4 * i + 3], 4 * i + 4 == |e|);
    assert forall k :: 0 <= k < |g| ==> g[k] == d[3 * i + k];
  }

  lemma WholeIfDecoded(e: Bytes)
    requires Decode(e).Some?
    ensures |e| % 4 == 0
  {
    hide Decode;
    if |e| % 4 != 0 {
      WholeGroups(e);
    }
  }

  lemma ChunkValue(a: Byte, b: Byte, c: Byte, d: Byte, last: bool)
    requires DecodeChunk(a, b, c, d, last).Some?
    ensures var g := DecodeChunk(a, b, c, d, last).value;
            var w := ValueOf(a) * 0x4_0000 + ValueOf(b) * 0x1000 + ValueOf(c) * 64 + ValueOf(d);
            && |g| == 3 - (if c == '=' as int then 2 else if d == '=' as int then 1 else 0)
            && (|g| < 3 ==> last)
            && g[0] == w / 0x1_0000 && (|g| > 1 ==> g[1] == w / 0x100 % 256) && (|g| > 2 ==> g[2] == w % 256)
  {
    hide DecodeDigit;
    DigitsDecode(c);
    NoPadDigit();
  }

  lemma NoPadDigit()
    ensures DecodeDigit(PAD).None? && DecodeDigit(65) == Some(0)
  {
  }

  // ---------- The programs ----------

  function Prepend(x: Bytes, r: Option<Bytes>): Option<Bytes> {
    match r
    case None => None
    case Some(y) => Some(x + y)
  }

  /** What decoding still has to do once output stands for the first i digits. */
  ghost predicate Remaining(value: Bytes, output: Bytes, i: nat) {
    i <= |value| && Decode(value) == Prepend(output, Decode(value[i..]))
  }

  lemma RemainingAll(value: Bytes)
    ensures Remaining(value, [], 0)
  {
    assert value[0..] == value;
    if Decode(value).Some? {
      assert [] + Decode(value).value == Decode(value).value;
    }
  }

  lemma RemainingNext(value: Bytes, output: Bytes, i: nat, g: Option<Bytes>)
    requires Remaining(value, output, i) && i + 4 <= |value|
    requires g == DecodeChunk(value[i], value[i + 1], value[i + 2], value[i + 3], i + 4 == |value|)
    ensures g.None? ==> Decode(value).None?
    ensures g.Some? ==> Remaining(value, output + g.value, i + 4)
  {
    hide DecodeChunk;
    var rest := value[i..];
    assert rest[4..] == value[i + 4..];
    if g.Some? && Decode(rest[4..]).Some? {
      var y := Decode(rest[4..]).value;
      assert output + (g.value + y) == output + g.value + y;
    }
  }

  /** The workload's decoder, group by group. */
  method DecodeBase64(value: Bytes) returns (r: Option<Bytes>)
    ensures r == Decode(value)
  {
    hide DecodeChunk, Decode, Remaining;
    if |value| % 4 != 0 {
      WholeGroups(value);
      return None;
    }
    var output: Bytes := [];
    var i := 0;
    RemainingAll(value);
    while i < |value|
      invariant 0 <= i <= |value| && (|value| - i) % 4 == 0
      invariant Remaining(value, output, i)
      decreases |value| - i
    {
      var c := value[i..i + 4];
      var g := Chunk(c, i + 4 == |value|);
      RemainingNext(value, output, i, g);
      if g.None? {
        return None;
      }
      output := output + g.value;
      i := i + 4;
    }
    RemainingNone(value, output);
    r := Some(output);
  }

  lemma RemainingNone(value: Bytes, output: Bytes)
    requires Remaining(value, output, |value|)
    ensures Decode(value) == Some(output)
  {
    assert value[|value|..] == [] && output + [] == output;
  }

  /** The body of the decoder's loop. */
  method Chunk(c: Bytes, finalChunk: bool) returns (g: Option<Bytes>)
    requires |c| == 4
    ensures g == DecodeChunk(c[0], c[1], c[2], c[3], finalChunk)
  {
    hide DecodeGroup;
    if c[2] == PAD && c[3] != PAD {
      return None;
    }
    var pad := if c[3] != PAD then 0 else if c[2] != PAD then 1 else 2;
    if pad > 0 && !finalChunk {
      return None;
    }
    var b := DecodeGroup(c[0], c[1], if pad == 2 then 65 else c[2], if pad > 0 then 65 else c[3]);
    if b.None? {
      return None;
    }
    g := Some(b.value[..3 - pad]);
  }

  /** The workload's encoder, group by group. */
  method EncodeBase64(bytes: Bytes) returns (output: Bytes)
    ensures output == Encode(bytes)
  {
    hide Quad, Groups, Encode;
    output := [];
    EncodeCases([]);
    var i := 0;
    while i < |bytes|
      invariant 0 <= i <= |bytes| && output + Encode(bytes[i..]) == Encode(bytes)
      decreases |bytes| - i
    {
      ghost var rest := bytes[i..];
      var c := bytes[i..if i + 3 <= |bytes| then i + 3 else |bytes|];
      assert rest[..|c|] == c && rest[|c|..] == bytes[i + |c|..];
      var q := Quad(c[0], if |c| > 1 then c[1] else 0, if |c| > 2 then c[2] else 0);
      ghost var was := output;
      output := output + [q[0]];
      output := output + [q[1]];
      output := output + [if |c| > 1 then q[2] else PAD];
      output := output + [if |c| > 2 then q[3] else PAD];
      ghost var group := output[|was|..];
      GroupWritten(rest, |c|, q, group);
      Extended(was, output, group, Encode(rest[|c|..]), Encode(rest));
      i := i + |c|;
    }
  }

  lemma Extended(was: Bytes, output: Bytes, group: Bytes, next: Bytes, all: Bytes)
    requires output == was + group && all == group + next
    ensures output + next == was + all
  {
  }

  lemma EncodeCases(d: Bytes)
    ensures |d| == 1 ==> Encode(d) == Quad(d[0], 0, 0)[..2] + [PAD, PAD]
    ensures |d| == 2 ==> Encode(d) == Quad(d[0], d[1], 0)[..3] + [PAD]
    ensures Encode([]) == [] && Filled([]) == []
  {
    hide Quad, Groups;
  }

  lemma GroupWritten(rest: Bytes, n: nat, q: Bytes, group: Bytes)
    requires rest != [] && n == (if |rest| >= 3 then 3 else |rest|)
    requires q == Quad(rest[0], if n > 1 then rest[1] else 0, if n > 2 then rest[2] else 0)
    requires |group| == 4 && group[0] == q[0] && group[1] == q[1]
    requires group[2] == (if n > 1 then q[2] else PAD) && group[3] == (if n > 2 then q[3] else PAD)
    ensures Encode(rest) == group + Encode(rest[n..])
  {
    hide *;
    if n == 3 {
      WholeGroup(rest, q, group);
    } else if n == 2 {
      TwoInGroup(rest, q, group);
    } else {
      OneInGroup(rest, q, group);
    }
  }

  lemma WholeGroup(rest: Bytes, q: Bytes, group: Bytes)
    requires |rest| >= 3 && q == Quad(rest[0], rest[1], rest[2]) && |group| == 4
    requires group[0] == q[0] && group[1] == q[1] && group[2] == q[2] && group[3] == q[3]
    ensures Encode(rest) == group + Encode(rest[3..])
  {
    hide *;
    EncodeMore(rest);
    assert group == q;
  }

  lemma EncodeMore(d: Bytes)
    requires |d| >= 3
    ensures Encode(d) == Quad(d[0], d[1], d[2]) + Encode(d[3..])
  {
    hide Quad, Groups;
  }

  lemma TwoInGroup(rest: Bytes, q: Bytes, group: Bytes)
    requires |rest| == 2 && q == Quad(rest[0], rest[1], 0) && |group| == 4
    requires group[0] == q[0] && group[1] == q[1] && group[2] == q[2] && group[3] == PAD
    ensures Encode(rest) == group + Encode(rest[2..])
  {
    hide *;
    EncodeCases(rest);
    assert rest[2..] == [] && group + [] == q[..3] + [PAD];
  }

  lemma OneInGroup(rest: Bytes, q: Bytes, group: Bytes)
    requires |rest| == 1 && q == Quad(rest[0], 0, 0) && |group| == 4
    requires group[0] == q[0] && group[1] == q[1] && group[2] == PAD && group[3] == PAD
    ensures Encode(rest) == group + Encode(rest[1..])
  {
    hide *;
    EncodeCases(rest);
    assert rest[1..] == [] && group + [] == q[..2] + [PAD, PAD];
  }

  /** All groups with zero bytes filled in and nothing padded. */
  function Filled(d: Bytes): (f: Bytes)
    ensures |f| == 4 * Groups(|d|)
  {
    if d == [] then []
    else if |d| == 1 then Quad(d[0], 0, 0)
    else if |d| == 2 then Quad(d[0], d[1], 0)
    else Quad(d[0], d[1], d[2]) + Filled(d[3..])
  }

  /** Overwriting the last digits with padding turns the filled form into the encoding. */
  lemma {:induction false} FilledEnds(d: Bytes)
    requires d != []
    ensures var f, n := Filled(d), |Filled(d)|;
            Encode(d) == if |d| % 3 == 1 then f[n - 2 := PAD][n - 1 := PAD]
                         else if |d| % 3 == 2 then f[n - 1 := PAD] else f
  {
    hide Quad;
    if |d| > 3 {
      FilledEnds(d[3..]);
    } else if |d| == 3 {
      assert d[3..] == [];
    }
  }

  /** The next three bytes, zero beyond the end. */
  method NextThree(data: Bytes, i0: nat) returns (i: nat, a: Byte, b: Byte, c: Byte)
    requires i0 < |data|
    ensures i == if i0 + 3 <= |data| then i0 + 3 else |data|
    ensures a == data[i0]
    ensures b == if i0 + 1 < |data| then data[i0 + 1] else 0
    ensures c == if i0 + 2 < |data| then data[i0 + 2] else 0
  {
    i, b, c := i0, 0, 0;
    a := data[i];
    i := i + 1;
    if i < |data| {
      b := data[i];
      i := i + 1;
    }
    if i < |data| {
      c := data[i];
      i := i + 1;
    }
  }

  method WriteQuad(out: array<Byte>, j: nat, q: Bytes)
    requires |q| == 4 && j + 4 <= out.Length
    modifies out
    ensures out[..j + 4] == old(out[..j]) + q
  {
    ghost var was := out[..j];
    out[j] := q[0];
    out[j + 1] := q[1];
    out[j + 2] := q[2];
    out[j + 3] := q[3];
    assert out[..j] == was;
    FourBytes(out[j..j + 4], q);
    Extend(out[..], j, j + 4);
    assert out[..][..j] == out[..j] && out[..][j..j + 4] == out[j..j + 4] && out[..][..j + 4] == out[..j + 4];
  }

  lemma FourBytes(x: Bytes, y: Bytes)
    requires |x| == |y| == 4 && x[0] == y[0] && x[1] == y[1] && x[2] == y[2] && x[3] == y[3]
    ensures x == y
  {
  }

  /** Padding over the last digits, for a leftover of m bytes. */
  method WritePadding(out: array<Byte>, m: nat)
    requires out.Length >= 2
    modifies out
    ensures var n, f := out.Length, old(out[..]);
            out[..] == if m == 1 then f[n - 2 := PAD][n - 1 := PAD] else if m == 2 then f[n - 1 := PAD] else f
  {
    if m == 1 {
      out[out.Length - 2] := PAD;
      out[out.Length - 1] := PAD;
    } else if m == 2 {
      out[out.Length - 1] := PAD;
    }
  }

  lemma Regrouped(x: Bytes, y: Bytes, z: Bytes)
    ensures x + (y + z) == x + y + z
  {
  }

  /** The enclave's encoder: digits first, padding written over the last ones. */
  method EnclaveEncode(data: Bytes) returns (r: Option<Bytes>)
    ensures r == if data == [] then None else Some(Encode(data))
  {
    hide Quad, Groups, Filled, Encode;
    if |data| == 0 {
      return None;
    }
    var outLen := (|data| + 2) / 3 * 4;
    GroupsIs(|data|);
    FilledEnds(data);
    var out := new Byte[outLen](_ => 0);
    WriteDigits(data, out);
    WritePadding(out, |data| % 3);
    r := Some(out[..]);
  }

  method WriteDigits(data: Bytes, out: array<Byte>)
    requires out.Length == |Filled(data)|
    modifies out
    ensures out[..] == Filled(data)
  {
    hide Quad, Groups, Filled;
    var i, j := 0, 0;
    assert data[0..] == data && out[..0] + Filled(data) == Filled(data);
    while i < |data|
      invariant 0 <= i <= |data| && 0 <= j <= out.Length
      invariant out[..j] + Filled(data[i..]) == Filled(data)
      decreases |data| - i
    {
      ghost var rest := data[i..];
      var a, b, c;
      i, a, b, c := NextThree(data, i);
      var q := Quad(a, b, c);
      FilledStep(rest, data[i..], q);
      ghost var was := out[..j];
      Regrouped(was, q, Filled(data[i..]));
      WriteQuad(out, j, q);
      j := j + 4;
    }
    NothingFilled(data[i..]);
    assert out[..j] + [] == out[..j];
    assert j == out.Length && out[..j] == out[..];
  }

  lemma NothingFilled(d: Bytes)
    requires d == []
    ensures Filled(d) == []
  {
  }

  lemma FilledStep(rest: Bytes, next: Bytes, q: Bytes)
    requires rest != [] && next == (if |rest| >= 3 then rest[3..] else [])
    requires q == Quad(rest[0], if |rest| > 1 then rest[1] else 0, if |rest| > 2 then rest[2] else 0)
    ensures Filled(rest) == q + Filled(next)
  {
    hide Quad, Groups;
    if |rest| < 3 {
      assert q + [] == q;
    }
  }
}
