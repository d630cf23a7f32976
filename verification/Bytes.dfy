/** Byte strings shared by the key management enclave, the worker and the wire formats. */
module ByteStrings {

  type Byte = x: nat | x < 256

  type Bytes = seq<Byte>

  /** The bytes of a literal. */
  function Ascii(s: string): (r: Bytes)
    ensures |r| == |s|
  {
    seq(|s|, i requires 0 <= i < |s| => s[i] as int % 256)
  }

  function Zeros(n: nat): (r: Bytes)
    ensures |r| == n
  {
    seq(n, _ => 0)
  }

  /** A bounded string copy that always leaves room for the terminator. */
  function Cut<T>(s: seq<T>, n: nat): (r: seq<T>)
    ensures r <= s && |r| == if |s| <= n then |s| else n
    ensures |s| <= n ==> r == s
  {
    if |s| <= n then s else s[..n]
  }

  // ---------- Big-endian 32-bit numbers ----------

  /** A length or count as the C code holds it. */
  predicate IsU32(v: int) { 0 <= v < 0x1_0000_0000 }

  function U32(v: nat): (r: Bytes)
    requires IsU32(v)
    ensures |r| == 4
  {
    [v / 0x100_0000, v / 0x1_0000 % 256, v / 0x100 % 256, v % 256]
  }

  function FromU32(a: Byte, b: Byte, c: Byte, d: Byte): (v: nat)
    ensures IsU32(v)
  {
    a * 0x100_0000 + b * 0x1_0000 + c * 0x100 + d
  }

  function U32At(data: Bytes, i: nat): (v: nat)
    requires i + 4 <= |data|
    ensures IsU32(v)
  {
    FromU32(data[i], data[i + 1], data[i + 2], data[i + 3])
  }

  /** Quotients of a number given by its four base-256 digits. */
  lemma Digits(v: nat, a: Byte, b: Byte, c: Byte, d: Byte)
    requires v == a * 0x100_0000 + b * 0x1_0000 + c * 0x100 + d
    ensures U32(v) == [a, b, c, d]
  {
    assert v / 0x100_0000 == a;
    assert v / 0x1_0000 == a * 0x100 + b;
    assert v / 0x100 == a * 0x1_0000 + b * 0x100 + c;
    LowByte(a, b);
    LowByte(a * 0x100 + b, c);
    LowByte(a * 0x1_0000 + b * 0x100 + c, d);
  }

  lemma LowByte(q: nat, b: Byte)
    ensures (q * 0x100 + b) % 256 == b
  {
  }

  /** Every 32-bit number has four base-256 digits. */
  lemma HasDigits(v: nat) returns (a: Byte, b: Byte, c: Byte, d: Byte)
    requires IsU32(v)
    ensures v == a * 0x100_0000 + b * 0x1_0000 + c * 0x100 + d
  {
    var p := v / 0x100;
    d := v % 0x100;
    var q := p / 0x100;
    c := p % 0x100;
    b := q % 0x100;
    a := q / 0x100;
  }

  /** Writing a number and reading four bytes are mutual inverses. */
  lemma U32RoundTrip(v: nat, a: Byte, b: Byte, c: Byte, d: Byte)
    requires IsU32(v)
    ensures FromU32(U32(v)[0], U32(v)[1], U32(v)[2], U32(v)[3]) == v
    ensures U32(FromU32(a, b, c, d)) == [a, b, c, d]
  {
    hide U32;
    var e, f, g, h := HasDigits(v);
    Digits(v, e, f, g, h);
    Digits(FromU32(a, b, c, d), a, b, c, d);
  }

  /** Four bytes read at i are the number whose encoding stands there. */
  lemma U32Here(data: Bytes, i: nat)
    requires i + 4 <= |data|
    ensures U32(U32At(data, i)) == data[i..i + 4]
  {
    hide U32;
    U32RoundTrip(0, data[i], data[i + 1], data[i + 2], data[i + 3]);
  }

  lemma U32Read(data: Bytes, i: nat, v: nat)
    requires IsU32(v) && i + 4 <= |data| && data[i..i + 4] == U32(v)
    ensures U32At(data, i) == v
  {
    hide U32, FromU32;
    U32RoundTrip(v, 0, 0, 0, 0);
    assert data[i..i + 4][0] == data[i] && data[i..i + 4][1] == data[i + 1];
    assert data[i..i + 4][2] == data[i + 2] && data[i..i + 4][3] == data[i + 3];
  }

  lemma SameNumber(m: nat, n: nat)
    requires IsU32(m) && IsU32(n) && U32(m) == U32(n)
    ensures m == n
  {
    hide U32, FromU32;
    U32RoundTrip(m, 0, 0, 0, 0);
    U32RoundTrip(n, 0, 0, 0, 0);
  }

  // ---------- Concatenation ----------

  lemma CancelLast<T>(x: seq<T>, a: seq<T>, y: seq<T>, b: seq<T>)
    requires x + a == y + b && |a| == |b|
    ensures x == y && a == b
  {
    assert |x| == |y|;
    assert x == (x + a)[..|x|] && y == (y + b)[..|x|];
    assert a == (x + a)[|x|..] && b == (y + b)[|x|..];
  }

  lemma CancelFirst<T>(x: seq<T>, a: seq<T>, b: seq<T>)
    requires x + a == x + b
    ensures a == b
  {
    assert a == (x + a)[|x|..] && b == (x + b)[|x|..];
  }

  lemma CancelHead<T>(x: seq<T>, s: seq<T>, y: seq<T>, t: seq<T>)
    requires |x| == |y| && x + s == y + t
    ensures x == y && s == t
  {
    assert x == (x + s)[..|x|] && y == (y + t)[..|x|];
    assert s == (x + s)[|x|..] && t == (y + t)[|x|..];
  }

  /** A prefix extended by the next slice. */
  lemma Extend<T>(s: seq<T>, i: nat, j: nat)
    requires i <= j <= |s|
    ensures s[..i] + s[i..j] == s[..j]
  {
  }
}
