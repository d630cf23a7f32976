/** What FIPS 180-4 and RFC 2104 say of SHA-256 and HMAC, byte by byte and without the names the
    definitions use: rotations, the padded message, the order of the digest's words, and the two
    nested hashes. */
module Sha2Standard {
  import opened Arith
  import opened Sha2

  /** A rotation is two shifts, as the code writes it; the schedule and the rounds use these amounts. */
  lemma RotateForm(x: bv32)
    ensures ((x >> 2) | (x << 30)) == x.RotateRight(2) && ((x >> 13) | (x << 19)) == x.RotateRight(13)
    ensures ((x >> 22) | (x << 10)) == x.RotateRight(22) && ((x >> 6) | (x << 26)) == x.RotateRight(6)
    ensures ((x >> 11) | (x << 21)) == x.RotateRight(11) && ((x >> 25) | (x << 7)) == x.RotateRight(25)
    ensures ((x >> 7) | (x << 25)) == x.RotateRight(7) && ((x >> 18) | (x << 14)) == x.RotateRight(18)
    ensures ((x >> 17) | (x << 15)) == x.RotateRight(17) && ((x >> 19) | (x << 13)) == x.RotateRight(19)
  {
  }

  // ---------- Bytes and numbers ----------

  /** The big-endian number at position i. */
  function NumberAt(b: seq<bv8>, i: nat): nat
    requires i + 4 <= |b|
  {
    b[i] as nat * 0x100_0000 + b[i + 1] as nat * 0x1_0000 + b[i + 2] as nat * 0x100 + b[i + 3] as nat
  }

  /** The eight bits of a number below 256, counted up. */
  function EightBits(n: nat): (b: bv8)
    requires n < 256
    ensures b as nat == n
  {
    if n == 0 then 0 else
      NextByte(EightBits(n - 1));
      EightBits(n - 1) + 1
  }

  lemma NextByte(b: bv8)
    requires b as nat < 255
    ensures (b + 1) as nat == b as nat + 1
  {
  }

  lemma RoundTrip(n: nat, b: bv8)
    requires n < 256 && b as nat == n
    ensures n as bv8 == b
  {
  }

  lemma ByteNumber(n: nat, unit: nat)
    requires unit > 0
    ensures ByteAt(n, unit) as nat == n / unit % 256
  {
    var v := n / unit % 256;
    RoundTrip(v, EightBits(v));
  }

  lemma SameNumber(x: bv8, y: bv8)
    requires x as nat == y as nat
    ensures x == y
  {
  }

  lemma SmallByte(n: nat, unit: nat, v: bv8)
    requires unit > 0 && v as nat == n / unit % 256
    ensures ByteAt(n, unit) == v
  {
    hide ByteAt;
    ByteNumber(n, unit);
    SameNumber(ByteAt(n, unit), v);
  }

  lemma FourDigits(w: nat)
    requires w < 0x1_0000_0000
    ensures (w / 0x100_0000 % 256) * 0x100_0000 + (w / 0x1_0000 % 256) * 0x1_0000 + (w / 0x100 % 256) * 0x100
            + w / 1 % 256 == w
  {
    var p := w / 0x100;
    var q := p / 0x100;
    assert w / 0x1_0000 == q && w / 0x100_0000 == q / 0x100;
  }

  lemma WordNumber(w: Word)
    ensures NumberAt(BytesBE(w), 0) == w
  {
    hide ByteAt;
    ByteNumber(w, 0x100_0000);
    ByteNumber(w, 0x1_0000);
    ByteNumber(w, 0x100);
    ByteNumber(w, 1);
    FourDigits(w);
  }

  lemma NumberInside(b: seq<bv8>, i: nat, part: seq<bv8>)
    requires |part| == 4 && i + 4 <= |b| && b[i..i + 4] == part
    ensures NumberAt(b, i) == NumberAt(part, 0)
  {
    assert part[0] == b[i] && part[1] == b[i + 1] && part[2] == b[i + 2] && part[3] == b[i + 3];
  }

  /** The digest is the eight registers in order, each a big-endian number. */
  lemma DigestNumbers(r: Regs)
    ensures var d := RegsBytes(r);
            && NumberAt(d, 0) == r.a && NumberAt(d, 4) == r.b && NumberAt(d, 8) == r.c && NumberAt(d, 12) == r.d
            && NumberAt(d, 16) == r.e && NumberAt(d, 20) == r.f && NumberAt(d, 24) == r.g && NumberAt(d, 28) == r.h
  {
    hide BytesBE, NumberAt;
    var d := RegsBytes(r);
    RegisterNumber(d, 0, r.a);
    RegisterNumber(d, 4, r.b);
    RegisterNumber(d, 8, r.c);
    RegisterNumber(d, 12, r.d);
    RegisterNumber(d, 16, r.e);
    RegisterNumber(d, 20, r.f);
    RegisterNumber(d, 24, r.g);
    RegisterNumber(d, 28, r.h);
  }

  lemma RegisterNumber(d: seq<bv8>, i: nat, w: Word)
    requires i + 4 <= |d| && d[i..i + 4] == BytesBE(w)
    ensures NumberAt(d, i) == w
  {
    hide BytesBE, NumberAt;
    WordNumber(w);
    NumberInside(d, i, BytesBE(w));
  }

  // ---------- Padding ----------

  lemma HighByte(n: nat, unit: nat)
    requires unit > 0 && n < 0x1_0000_0000_0000_0000
    ensures n / (0x1_0000_0000 * unit) == n / 0x1_0000_0000 / unit
  {
    var h, l := n / 0x1_0000_0000, n % 0x1_0000_0000;
    var q, r := h / unit, h % unit;
    assert n == q * (0x1_0000_0000 * unit) + (r * 0x1_0000_0000 + l);
    assert r * 0x1_0000_0000 + l < 0x1_0000_0000 * unit;
    QuotientIs(n, q, r * 0x1_0000_0000 + l, 0x1_0000_0000 * unit);
  }

  lemma LowByte(h: nat, l: nat)
    ensures var n := h * 0x1_0000_0000 + l;
            && n / 0x100_0000 % 256 == l / 0x100_0000 % 256 && n / 0x1_0000 % 256 == l / 0x1_0000 % 256
            && n / 0x100 % 256 == l / 0x100 % 256 && n / 1 % 256 == l / 1 % 256
  {
    var n := h * 0x1_0000_0000 + l;
    assert n / 0x100_0000 == h * 0x100 + l / 0x100_0000;
    assert n / 0x1_0000 == h * 0x1_0000 + l / 0x1_0000;
    assert n / 0x100 == h * 0x100_0000 + l / 0x100;
    SameDigit(h, 1, l / 0x100_0000);
    SameDigit(h, 0x100, l / 0x1_0000);
    SameDigit(h, 0x1_0000, l / 0x100);
    SameDigit(h, 0x100_0000, l);
  }

  lemma LowBytes(n: nat, l: nat)
    requires l == n % 0x1_0000_0000
    ensures n / 0x100_0000 % 256 == l / 0x100_0000 % 256 && n / 0x1_0000 % 256 == l / 0x1_0000 % 256
    ensures n / 0x100 % 256 == l / 0x100 % 256 && n / 1 % 256 == l / 1 % 256
  {
    var h := n / 0x1_0000_0000;
    assert n == h * 0x1_0000_0000 + l;
    LowByte(h, l);
  }

  lemma SameDigit(h: nat, c: nat, l: nat)
    ensures (h * (0x100 * c) + l) % 256 == l % 256
  {
    assert h * (0x100 * c) + l == 256 * (h * c) + l;
  }

  /** The first four bytes are the high word. */
  lemma HighNumber(n: nat)
    requires n < 0x1_0000_0000_0000_0000
    ensures NumberAt(LengthBE(n), 0) == n / 0x1_0000_0000
  {
    hide ByteAt;
    HighByte(n, 0x100_0000);
    HighByte(n, 0x1_0000);
    HighByte(n, 0x100);
    HighByte(n, 1);
    ByteNumber(n, 0x100_0000_0000_0000);
    ByteNumber(n, 0x1_0000_0000_0000);
    ByteNumber(n, 0x100_0000_0000);
    ByteNumber(n, 0x1_0000_0000);
    FourDigits(n / 0x1_0000_0000);
  }

  /** The last four are the low word. */
  lemma LowNumber(n: nat)
    ensures NumberAt(LengthBE(n), 4) == n % 0x1_0000_0000
  {
    hide ByteAt;
    var l := n % 0x1_0000_0000;
    LowBytes(n, l);
    ByteNumber(n, 0x100_0000);
    ByteNumber(n, 0x1_0000);
    ByteNumber(n, 0x100);
    ByteNumber(n, 1);
    FourDigits(l);
  }

  /** Section 5.1.1 of FIPS 180-4: the message, a one bit, zeros, and the bit length in eight bytes, in
      as few whole blocks as hold them. */
  lemma PaddedMessage(m: seq<bv8>)
    ensures var p := Pad(m);
            && |p| % 64 == 0 && |m| + 9 <= |p| < |m| + 73
            && p[..|m|] == m && p[|m|] == 0x80
            && (forall i :: |m| < i < |p| - 8 ==> p[i] == 0)
            && NumberAt(p, |p| - 8) * 0x1_0000_0000 + NumberAt(p, |p| - 4) == 8 * |m| % 0x1_0000_0000_0000_0000
  {
    hide LengthBE, NumberAt;
    var p, n := Pad(m), 8 * |m| % 0x1_0000_0000_0000_0000;
    var length := LengthBE(n);
    assert p == (m + [0x80] + Zeros((55 - |m|) % 64)) + length;
    HighNumber(n);
    LowNumber(n);
    assert p[|p| - 8..|p| - 4] == length[..4] && p[|p| - 4..] == length[4..];
    NumberInside(p, |p| - 8, length[..4]);
    NumberInside(length, 0, length[..4]);
    NumberInside(p, |p| - 4, length[4..]);
    NumberInside(length, 4, length[4..]);
  }

  // ---------- HMAC ----------

  /** Section 2 of RFC 2104, for a key of at most one block. */
  lemma HmacForm(key: seq<bv8>, msg: seq<bv8>, inner: seq<bv8>, outer: seq<bv8>)
    requires |key| <= 64 && |inner| == 64 && |outer| == 64
    requires forall i :: 0 <= i < |key| ==> inner[i] == key[i] ^ 0x36 && outer[i] == key[i] ^ 0x5c
    requires forall i :: |key| <= i < 64 ==> inner[i] == 0x36 && outer[i] == 0x5c
    ensures Hmac(key, msg) == Hash(outer + Hash(inner + msg))
  {
    hide Hash;
    forall i | 0 <= i < 64
      ensures XorAll(BlockKey(key), 0x36)[i] == inner[i] && XorAll(BlockKey(key), 0x5c)[i] == outer[i]
    {
      if i >= |key| {
        assert BlockKey(key)[i] == 0;
      }
    }
    assert XorAll(BlockKey(key), 0x36) == inner;
    assert XorAll(BlockKey(key), 0x5c) == outer;
  }

  /** A longer key is replaced by its hash. */
  lemma HmacLongKey(key: seq<bv8>, msg: seq<bv8>)
    requires |key| > 64
    ensures Hmac(key, msg) == Hmac(Hash(key), msg)
  {
    hide Hash, XorAll;
  }
}
