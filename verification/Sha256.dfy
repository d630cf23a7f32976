/** SHA-256 as FIPS 180-4 defines it, and the streaming implementation of `cybozu/sha2.hpp`
    (built-in branch) with HMAC on top. */
module Sha2 {

  // ---------- FIPS 180-4: functions and constants (sections 4.1.2, 4.2.2, 5.3.3) ----------

  const TWO32: nat := 0x1_0000_0000

  /** A 32-bit word, as a number. */
  type Word = x: nat | x < 0x1_0000_0000

  /** Addition modulo 2^32. */
  function Add(x: Word, y: Word): Word { (x + y) % TWO32 }

  /** The number held in 32 bits. */
  function Bits(x: bv32): Word { x as nat }

  function Ch(x: Word, y: Word, z: Word): Word {
    Bits((x as bv32 & y as bv32) ^ (!(x as bv32) & z as bv32))
  }

  function Maj(x: Word, y: Word, z: Word): Word {
    Bits((x as bv32 & y as bv32) ^ (x as bv32 & z as bv32) ^ (y as bv32 & z as bv32))
  }

  function BigSigma0(x: Word): Word {
    ((x as bv32).RotateRight(2) ^ (x as bv32).RotateRight(13) ^ (x as bv32).RotateRight(22)) as nat
  }

  function BigSigma1(x: Word): Word {
    ((x as bv32).RotateRight(6) ^ (x as bv32).RotateRight(11) ^ (x as bv32).RotateRight(25)) as nat
  }

  function SmallSigma0(x: Word): Word {
    ((x as bv32).RotateRight(7) ^ (x as bv32).RotateRight(18) ^ (x as bv32 >> 3)) as nat
  }

  function SmallSigma1(x: Word): Word {
    ((x as bv32).RotateRight(17) ^ (x as bv32).RotateRight(19) ^ (x as bv32 >> 10)) as nat
  }

  /** Eight constants a row. */
  function KRow(i: nat): (row: seq<Word>)
    requires i < 8
    ensures |row| == 8
  {
    if i == 0 then [0x428a2f98, 0x71374491, 0xb5c0fbcf, 0xe9b5dba5, 0x3956c25b, 0x59f111f1, 0x923f82a4, 0xab1c5ed5]
    else if i == 1 then [0xd807aa98, 0x12835b01, 0x243185be, 0x550c7dc3, 0x72be5d74, 0x80deb1fe, 0x9bdc06a7, 0xc19bf174]
    else if i == 2 then [0xe49b69c1, 0xefbe4786, 0x0fc19dc6, 0x240ca1cc, 0x2de92c6f, 0x4a7484aa, 0x5cb0a9dc, 0x76f988da]
    else if i == 3 then [0x983e5152, 0xa831c66d, 0xb00327c8, 0xbf597fc7, 0xc6e00bf3, 0xd5a79147, 0x06ca6351, 0x14292967]
    else if i == 4 then [0x27b70a85, 0x2e1b2138, 0x4d2c6dfc, 0x53380d13, 0x650a7354, 0x766a0abb, 0x81c2c92e, 0x92722c85]
    else if i == 5 then [0xa2bfe8a1, 0xa81a664b, 0xc24b8b70, 0xc76c51a3, 0xd192e819, 0xd6990624, 0xf40e3585, 0x106aa070]
    else if i == 6 then [0x19a4c116, 0x1e376c08, 0x2748774c, 0x34b0bcb5, 0x391c0cb3, 0x4ed8aa4a, 0x5b9cca4f, 0x682e6ff3]
    else [0x748f82ee, 0x78a5636f, 0x84c87814, 0x8cc70208, 0x90befffa, 0xa4506ceb, 0xbef9a3f7, 0xc67178f2]
  }

  function K(t: nat): Word
    requires t < 64
  {
    KRow(t / 8)[t % 8]
  }

  datatype Regs = Regs(a: Word, b: Word, c: Word, d: Word, e: Word, f: Word, g: Word, h: Word)

  function Initial(): Regs {
    Regs(0x6a09e667, 0xbb67ae85, 0x3c6ef372, 0xa54ff53a, 0x510e527f, 0x9b05688c, 0x1f83d9ab, 0x5be0cd19)
  }

  // ---------- FIPS 180-4: hash computation (section 6.2.2) ----------

  function WordBE(b0: bv8, b1: bv8, b2: bv8, b3: bv8): Word {
    Bits(((b0 as bv32) << 24) | ((b1 as bv32) << 16) | ((b2 as bv32) << 8) | (b3 as bv32))
  }

  /** The message schedule. */
  function W(block: seq<bv8>, t: nat): Word
    requires |block| == 64 && t < 64
  {
    if t < 16 then WordBE(block[4 * t], block[4 * t + 1], block[4 * t + 2], block[4 * t + 3])
    else Add(Add(Add(SmallSigma1(W(block, t - 2)), W(block, t - 7)), SmallSigma0(W(block, t - 15))), W(block, t - 16))
  }

  function Step(r: Regs, k: Word, w: Word): Regs {
    var t1 := Add(Add(Add(Add(r.h, BigSigma1(r.e)), Ch(r.e, r.f, r.g)), k), w);
    var t2 := Add(BigSigma0(r.a), Maj(r.a, r.b, r.c));
    Regs(Add(t1, t2), r.a, r.b, r.c, Add(r.d, t1), r.e, r.f, r.g)
  }

  function Steps(r: Regs, block: seq<bv8>, t: nat): Regs
    requires |block| == 64 && t <= 64
  {
    if t == 0 then r else Step(Steps(r, block, t - 1), K(t - 1), W(block, t - 1))
  }

  function AddRegs(x: Regs, y: Regs): Regs {
    Regs(Add(x.a, y.a), Add(x.b, y.b), Add(x.c, y.c), Add(x.d, y.d),
         Add(x.e, y.e), Add(x.f, y.f), Add(x.g, y.g), Add(x.h, y.h))
  }

  function Compress(r: Regs, block: seq<bv8>): Regs
    requires |block| == 64
  {
    AddRegs(r, Steps(r, block, 64))
  }

  /** Iterating a compression function over the blocks of a padded message. */
  function Absorb(f: (Regs, seq<bv8>) -> Regs, r: Regs, m: seq<bv8>): Regs
    requires |m| % 64 == 0
    decreases |m|
  {
    if m == [] then r else Absorb(f, f(r, m[..64]), m[64..])
  }

  /** The compression function of SHA-256 as a value. */
  function Compressor(): (Regs, seq<bv8>) -> Regs {
    (r: Regs, block: seq<bv8>) => if |block| == 64 then Compress(r, block) else r
  }

  lemma CompressorIs(r: Regs, block: seq<bv8>)
    requires |block| == 64
    ensures Compressor()(r, block) == Compress(r, block)
  {
    hide Compress;
  }

  // ---------- FIPS 180-4: padding (section 5.1.1) ----------

  function Zeros(n: nat): seq<bv8> {
    seq(n, _ => 0)
  }

  /** Eight bytes, most significant first; the standard's messages have fewer than 2^64 bits. */
  function LengthBE(n: nat): (r: seq<bv8>)
    ensures |r| == 8
  {
    [ByteAt(n, 0x100_0000_0000_0000), ByteAt(n, 0x1_0000_0000_0000), ByteAt(n, 0x100_0000_0000), ByteAt(n, 0x1_0000_0000),
     ByteAt(n, 0x100_0000), ByteAt(n, 0x1_0000), ByteAt(n, 0x100), ByteAt(n, 1)]
  }

  function ByteAt(n: nat, unit: nat): bv8
    requires unit > 0
  {
    ((n / unit) % 256) as bv8
  }

  lemma WholeBlocks(n: nat)
    ensures (n + 9 + (55 - n) % 64) % 64 == 0
  {
  }

  /** A one bit, the fewest zeros that leave room for the length, and the bit length. */
  function Pad(m: seq<bv8>): (r: seq<bv8>)
    ensures |r| % 64 == 0
  {
    WholeBlocks(|m|);
    var end := [0x80] + Zeros((55 - |m|) % 64) + LengthBE(8 * |m| % TWO64);
    assert |m + end| == |m| + 9 + (55 - |m|) % 64;
    m + end
  }

  const TWO64: nat := 0x1_0000_0000_0000_0000

  function BytesBE(w: Word): (r: seq<bv8>)
    ensures |r| == 4
  {
    [ByteAt(w, 0x100_0000), ByteAt(w, 0x1_0000), ByteAt(w, 0x100), ByteAt(w, 1)]
  }

  function RegsBytes(r: Regs): (s: seq<bv8>)
    ensures |s| == 32
  {
    BytesBE(r.a) + BytesBE(r.b) + BytesBE(r.c) + BytesBE(r.d) +
    BytesBE(r.e) + BytesBE(r.f) + BytesBE(r.g) + BytesBE(r.h)
  }

  function Hash(m: seq<bv8>): (r: seq<bv8>)
    ensures |r| == 32
  {
    RegsBytes(Absorb(Compressor(), Initial(), Pad(m)))
  }

  lemma {:induction false} AbsorbAppend(f: (Regs, seq<bv8>) -> Regs, r: Regs, m: seq<bv8>, n: seq<bv8>)
    requires |m| % 64 == 0 && |n| % 64 == 0
    ensures |m + n| % 64 == 0 && Absorb(f, r, m + n) == Absorb(f, Absorb(f, r, m), n)
    decreases |m|
  {
    if m == [] {
      assert m + n == n;
    } else {
      AbsorbAppend(f, f(r, m[..64]), m[64..], n);
      assert (m + n)[..64] == m[..64];
      assert (m + n)[64..] == m[64..] + n;
    }
  }

  lemma AbsorbBlock(f: (Regs, seq<bv8>) -> Regs, r: Regs, m: seq<bv8>, block: seq<bv8>)
    requires |m| % 64 == 0 && |block| == 64
    ensures |m + block| % 64 == 0 && Absorb(f, r, m + block) == f(Absorb(f, r, m), block)
  {
    AbsorbAppend(f, r, m, block);
    assert block[..64] == block && block[64..] == [];
  }

  /** The registers hold the state after the whole blocks m. */
  ghost predicate Absorbed(regs: Regs, m: seq<bv8>) {
    |m| % 64 == 0 && regs == Absorb(Compressor(), Initial(), m)
  }

  /** The 64-bit counter agrees with n bytes in whole blocks. */
  ghost predicate Counted(total: nat, n: int) {
    n >= 0 && n % 64 == 0 && total == n % TWO64
  }

  // ---------- The implementation's round functions ----------

  /** The choice and majority forms the code uses. */
  function ChCode(x: Word, y: Word, z: Word): Word {
    var e, f, g := x as bv32, y as bv32, z as bv32;
    Bits(g ^ (e & (f ^ g)))
  }

  function MajCode(x: Word, y: Word, z: Word): Word {
    var a, b, c := x as bv32, y as bv32, z as bv32;
    Bits(((a | b) & c) | (a & b))
  }

  lemma ChoiceBits(e: bv32, f: bv32, g: bv32)
    ensures g ^ (e & (f ^ g)) == (e & f) ^ (!e & g)
  {
  }

  lemma MajorityBits(a: bv32, b: bv32, c: bv32)
    ensures ((a | b) & c) | (a & b) == (a & b) ^ (a & c) ^ (b & c)
  {
  }

  /** They are the standard's functions. */
  lemma ChoiceForm(e: Word, f: Word, g: Word)
    ensures ChCode(e, f, g) == Ch(e, f, g)
  {
    hide Bits;
    ChoiceBits(e as bv32, f as bv32, g as bv32);
  }

  lemma MajorityForm(a: Word, b: Word, c: Word)
    ensures MajCode(a, b, c) == Maj(a, b, c)
  {
    hide Bits;
    MajorityBits(a as bv32, b as bv32, c as bv32);
  }

  lemma ReducedSum(x: nat, z: nat)
    ensures (x % TWO32 + z) % TWO32 == (x + z) % TWO32
  {
  }

  lemma AddAssoc(x: Word, y: Word, z: Word)
    ensures Add(Add(x, y), z) == Add(x, Add(y, z))
  {
    ReducedSum(x + y, z);
    ReducedSum(y + z, x);
  }

  lemma AddComm(x: Word, y: Word)
    ensures Add(x, y) == Add(y, x)
  {
  }

  /** The order in which the schedule is summed does not matter. */
  lemma SumOrder(a: Word, b: Word, c: Word, d: Word)
    ensures Add(Add(Add(a, b), c), d) == Add(Add(Add(d, c), b), a)
  {
    hide Add;
    AddAssoc(Add(a, b), c, d);
    AddComm(c, d);
    AddComm(a, b);
    AddAssoc(b, a, Add(d, c));
    AddComm(a, Add(d, c));
    AddComm(b, Add(Add(d, c), a));
    AddAssoc(Add(d, c), a, b);
    AddComm(a, b);
    AddAssoc(Add(d, c), b, a);
  }

  /** The registers as read through a renaming: the code renames instead of moving values. */
  function View(s: seq<Word>, i0: nat, i1: nat, i2: nat, i3: nat, i4: nat, i5: nat, i6: nat, i7: nat): Regs
    requires i0 < |s| && i1 < |s| && i2 < |s| && i3 < |s| && i4 < |s| && i5 < |s| && i6 < |s| && i7 < |s|
  {
    Regs(s[i0], s[i1], s[i2], s[i3], s[i4], s[i5], s[i6], s[i7])
  }

  /** One round; only the registers named d and h are written. */
  method Round1(i0: nat, i1: nat, i2: nat, i3: nat, i4: nat, i5: nat, i6: nat, i7: nat,
                s: array<Word>, k: Word, w: Word)
    requires s.Length == 8
    requires i0 < 8 && i1 < 8 && i2 < 8 && i3 < 8 && i4 < 8 && i5 < 8 && i6 < 8 && i7 < 8
    requires i3 !in [i0, i1, i2, i4, i5, i6, i7] && i7 !in [i0, i1, i2, i4, i5, i6]
    modifies s
    ensures View(s[..], i7, i0, i1, i2, i3, i4, i5, i6) ==
            Step(View(old(s[..]), i0, i1, i2, i3, i4, i5, i6, i7), k, w)
  {
    hide Ch, Maj, BigSigma0, BigSigma1, Add, ChCode, MajCode;
    var e := s[i4];
    var h := s[i7];
    h := Add(h, BigSigma1(e));
    var f := s[i5];
    var g := s[i6];
    ChoiceForm(e, f, g);
    h := Add(h, ChCode(e, f, g));
    h := Add(h, k);
    h := Add(h, w);
    ghost var t1 := h;
    s[i3] := Add(s[i3], h);
    var a := s[i0];
    var b := s[i1];
    var c := s[i2];
    h := Add(h, BigSigma0(a));
    MajorityForm(a, b, c);
    h := Add(h, MajCode(a, b, c));
    AddAssoc(t1, BigSigma0(a), Maj(a, b, c));
    s[i7] := h;
  }

  function RegsOf(s: seq<Word>): Regs
    requires |s| == 8
  {
    View(s, 0, 1, 2, 3, 4, 5, 6, 7)
  }

  lemma NextStep(r: Regs, block: seq<bv8>, t: nat)
    requires |block| == 64 && t < 64
    ensures Steps(r, block, t + 1) == Step(Steps(r, block, t), K(t), W(block, t))
  {
    hide Step, W, K;
  }

  lemma NoSteps(r: Regs, block: seq<bv8>)
    requires |block| == 64
    ensures Steps(r, block, 0) == r
  {
  }

  // ---------- The streaming object ----------

  class Sha256 {
    var totalSize: nat
    var roundBufSize: nat
    const roundBuf: array<bv8>
    const h: array<Word>
    // everything hashed since the last reset
    ghost var message: seq<bv8>

    predicate Shape()
      reads this
    {
      roundBuf.Length == 64 && h.Length == 8 && roundBufSize < 64 && totalSize < TWO64
    }

    ghost predicate Valid()
      reads this, roundBuf, h
    {
      && Shape()
      && var full := |message| - roundBufSize;
      && 0 <= full && Counted(totalSize, full)
      && Absorbed(RegsOf(h[..]), message[..full])
      && roundBuf[..roundBufSize] == message[full..]
    }

    constructor ()
      ensures Valid() && message == []
      ensures fresh(roundBuf) && fresh(h) && roundBuf.Length == 64 && h.Length == 8
    {
      roundBuf := new bv8[64](_ => 0);
      h := new Word[8](_ => 0);
      totalSize, roundBufSize := 0, 0;
      message := [];
      new;
      Clear();
    }

    method Clear()
      requires roundBuf.Length == 64 && h.Length == 8
      modifies this, h
      ensures Valid() && message == []
    {
      hide Absorbed, Counted;
      NothingAbsorbed();
      totalSize := 0;
      roundBufSize := 0;
      message := [];
      h[0] := 0x6a09e667;
      h[1] := 0xbb67ae85;
      h[2] := 0x3c6ef372;
      h[3] := 0xa54ff53a;
      h[4] := 0x510e527f;
      h[5] := 0x9b05688c;
      h[6] := 0x1f83d9ab;
      h[7] := 0x5be0cd19;
    }

    /** Schedule of one block. */
    method Schedule(buf: seq<bv8>) returns (w: array<Word>)
      requires |buf| == 64
      ensures fresh(w) && w.Length == 64 && forall t :: 0 <= t < 64 ==> w[t] == W(buf, t)
    {
      hide SmallSigma0, SmallSigma1, WordBE, Add, W;
      w := new Word[64](_ => 0);
      for i := 0 to 16
        invariant forall t :: 0 <= t < i ==> w[t] == W(buf, t)
      {
        w[i] := WordBE(buf[4 * i], buf[4 * i + 1], buf[4 * i + 2], buf[4 * i + 3]);
        FirstWords(buf, i);
      }
      for i := 16 to 64
        invariant forall t :: 0 <= t < i ==> w[t] == W(buf, t)
      {
        var s0 := SmallSigma0(w[i - 15]);
        var s1 := SmallSigma1(w[i - 2]);
        SumOrder(w[i - 16], s0, w[i - 7], s1);
        LaterWords(buf, i);
        w[i] := Add(Add(Add(w[i - 16], s0), w[i - 7]), s1);
      }
    }

    /** Round i on registers under given names; afterwards they have moved on by one. */
    method RoundAt(i0: nat, i1: nat, i2: nat, i3: nat, i4: nat, i5: nat, i6: nat, i7: nat,
                   s: array<Word>, w: array<Word>, i: nat, ghost buf: seq<bv8>, ghost r: Regs)
      requires |buf| == 64 && s.Length == 8 && w.Length == 64 && i < 64
      requires i0 < 8 && i1 < 8 && i2 < 8 && i3 < 8 && i4 < 8 && i5 < 8 && i6 < 8 && i7 < 8
      requires i3 !in [i0, i1, i2, i4, i5, i6, i7] && i7 !in [i0, i1, i2, i4, i5, i6]
      requires w[i] == W(buf, i)
      requires View(s[..], i0, i1, i2, i3, i4, i5, i6, i7) == Steps(r, buf, i)
      modifies s
      ensures View(s[..], i7, i0, i1, i2, i3, i4, i5, i6) == Steps(r, buf, i + 1)
    {
      hide Step, Steps, W, K, View;
      NextStep(r, buf, i);
      Round1(i0, i1, i2, i3, i4, i5, i6, i7, s, K(i), w[i]);
    }

    /** Four rounds from registers under their own names. */
    method FirstFour(s: array<Word>, w: array<Word>, i: nat, ghost buf: seq<bv8>, ghost r: Regs)
      requires |buf| == 64 && s.Length == 8 && w.Length == 64 && s != w && i + 4 <= 64
      requires forall t :: 0 <= t < 64 ==> w[t] == W(buf, t)
      requires View(s[..], 0, 1, 2, 3, 4, 5, 6, 7) == Steps(r, buf, i)
      modifies s
      ensures View(s[..], 4, 5, 6, 7, 0, 1, 2, 3) == Steps(r, buf, i + 4)
    {
      hide Steps, W, View;
      RoundAt(0, 1, 2, 3, 4, 5, 6, 7, s, w, i, buf, r);
      RoundAt(7, 0, 1, 2, 3, 4, 5, 6, s, w, i + 1, buf, r);
      RoundAt(6, 7, 0, 1, 2, 3, 4, 5, s, w, i + 2, buf, r);
      RoundAt(5, 6, 7, 0, 1, 2, 3, 4, s, w, i + 3, buf, r);
    }

    /** The four rounds that bring every register back under its own name. */
    method LastFour(s: array<Word>, w: array<Word>, i: nat, ghost buf: seq<bv8>, ghost r: Regs)
      requires |buf| == 64 && s.Length == 8 && w.Length == 64 && s != w && i + 4 <= 64
      requires forall t :: 0 <= t < 64 ==> w[t] == W(buf, t)
      requires View(s[..], 4, 5, 6, 7, 0, 1, 2, 3) == Steps(r, buf, i)
      modifies s
      ensures View(s[..], 0, 1, 2, 3, 4, 5, 6, 7) == Steps(r, buf, i + 4)
    {
      hide Steps, W, View;
      RoundAt(4, 5, 6, 7, 0, 1, 2, 3, s, w, i, buf, r);
      RoundAt(3, 4, 5, 6, 7, 0, 1, 2, s, w, i + 1, buf, r);
      RoundAt(2, 3, 4, 5, 6, 7, 0, 1, s, w, i + 2, buf, r);
      RoundAt(1, 2, 3, 4, 5, 6, 7, 0, s, w, i + 3, buf, r);
    }

    /** Eight rounds, after which every register is back under its own name. */
    method Round8(s: array<Word>, w: array<Word>, i: nat, ghost buf: seq<bv8>, ghost r: Regs)
      requires |buf| == 64 && s.Length == 8 && w.Length == 64 && s != w && i + 8 <= 64
      requires forall t :: 0 <= t < 64 ==> w[t] == W(buf, t)
      requires RegsOf(s[..]) == Steps(r, buf, i)
      modifies s
      ensures RegsOf(s[..]) == Steps(r, buf, i + 8)
    {
      hide Steps, W, View;
      FirstFour(s, w, i, buf, r);
      LastFour(s, w, i + 4, buf, r);
    }

    /** All 64 rounds, eight at a time. */
    method Rounds(s: array<Word>, w: array<Word>, ghost buf: seq<bv8>, ghost r: Regs)
      requires |buf| == 64 && s.Length == 8 && w.Length == 64 && s != w
      requires forall t :: 0 <= t < 64 ==> w[t] == W(buf, t)
      requires RegsOf(s[..]) == Steps(r, buf, 0)
      modifies s
      ensures RegsOf(s[..]) == Steps(r, buf, 64)
    {
      hide W, Steps;
      var i := 0;
      while i < 64
        invariant 0 <= i <= 64 && i % 8 == 0
        invariant RegsOf(s[..]) == Steps(r, buf, i)
        invariant forall t :: 0 <= t < 64 ==> w[t] == W(buf, t)
      {
        Round8(s, w, i, buf, r);
        i := i + 8;
      }
    }

    /** One block: 64 rounds, then the sum with the old state. */
    method Round(buf: seq<bv8>)
      requires |buf| == 64 && h.Length == 8
      modifies h, `totalSize
      ensures RegsOf(h[..]) == Compressor()(RegsOf(old(h[..])), buf)
      ensures totalSize == (old(totalSize) + 64) % TWO64
    {
      hide W, Steps, Add, Compressor, AddRegs, RegsOf;
      var w := Schedule(buf);
      var s := StateCopy();
      ghost var r := RegsOf(h[..]);
      NoSteps(r, buf);
      Rounds(s, w, buf, r);
      AddBack(s);
      CompressorIs(r, buf);
      totalSize := (totalSize + 64) % TWO64;
    }

    method StateCopy() returns (s: array<Word>)
      requires h.Length == 8
      ensures fresh(s) && s.Length == 8 && s[..] == h[..]
    {
      s := new Word[8](_ => 0);
      for i := 0 to 8
        invariant forall k :: 0 <= k < i ==> s[k] == h[k]
      {
        s[i] := h[i];
      }
    }

    method AddBack(s: array<Word>)
      requires s.Length == 8 && h.Length == 8 && s != h
      modifies h
      ensures RegsOf(h[..]) == AddRegs(RegsOf(old(h[..])), RegsOf(s[..]))
    {
      hide Add;
      for i := 0 to 8
        invariant forall k :: 0 <= k < i ==> h[k] == Add(old(h[k]), s[k])
        invariant forall k :: i <= k < 8 ==> h[k] == old(h[k])
      {
        h[i] := Add(h[i], s[i]);
      }
    }

    /** Absorbs one block that continues the hashed part of the message. */
    method RoundOn(buf: seq<bv8>, ghost done: seq<bv8>)
      requires |buf| == 64 && h.Length == 8
      requires Absorbed(RegsOf(h[..]), done) && Counted(totalSize, |done|)
      modifies h, `totalSize
      ensures Absorbed(RegsOf(h[..]), done + buf) && Counted(totalSize, |done + buf|)
    {
      hide Absorbed, Counted, Compressor, RegsOf;
      ghost var before := RegsOf(h[..]);
      Round(buf);
      AbsorbNext(done, buf, before, RegsOf(h[..]));
      CountBlock(old(totalSize), |done|);
    }

    /** The object has taken in all[..upto]; the buffer may be full. */
    ghost predicate At(all: seq<bv8>, upto: nat)
      reads `totalSize, `roundBufSize, roundBuf, h
    {
      && roundBuf.Length == 64 && h.Length == 8 && roundBufSize <= 64
      && roundBufSize <= upto <= |all|
      && Counted(totalSize, upto - roundBufSize)
      && Absorbed(RegsOf(h[..]), all[..upto - roundBufSize])
      && roundBuf[..roundBufSize] == all[upto - roundBufSize..upto]
    }

    /** Bytes that go to the buffer. */
    method Fill(data: seq<bv8>, ghost all: seq<bv8>, ghost upto: nat)
      requires At(all, upto) && roundBufSize + |data| <= 64
      requires upto + |data| <= |all| && data == all[upto..upto + |data|]
      modifies `roundBufSize, roundBuf
      ensures At(all, upto + |data|) && roundBufSize == old(roundBufSize) + |data|
    {
      hide Absorbed, Counted, RegsOf;
      ghost var kept := roundBuf[..roundBufSize];
      ghost var regs := RegsOf(h[..]);
      CopyIn(roundBufSize, data);
      assert h[..] == old(h[..]);
      assert roundBuf[..roundBufSize + |data|] == kept + data;
      assert all[upto - roundBufSize..upto + |data|] == all[upto - roundBufSize..upto] + data;
      roundBufSize := roundBufSize + |data|;
    }

    /** A full buffer is absorbed. */
    method Flush(ghost all: seq<bv8>, ghost upto: nat)
      requires At(all, upto) && roundBufSize == 64
      modifies this`totalSize, this`roundBufSize, h
      ensures At(all, upto) && roundBufSize == 0
    {
      hide Absorbed, Counted, RegsOf;
      ghost var full := upto - 64;
      ghost var block := roundBuf[..64];
      JoinPrefix(all, full, upto);
      assert roundBuf[..] == block;
      RoundOn(roundBuf[..], all[..full]);
      roundBufSize := 0;
    }

    /** A whole block straight from the input. */
    method Take(block: seq<bv8>, ghost all: seq<bv8>, ghost upto: nat)
      requires At(all, upto) && roundBufSize == 0 && |block| == 64
      requires upto + 64 <= |all| && block == all[upto..upto + 64]
      modifies this`totalSize, h
      ensures At(all, upto + 64) && roundBufSize == 0
    {
      hide Absorbed, Counted, RegsOf;
      JoinPrefix(all, upto, upto + 64);
      RoundOn(block, all[..upto]);
    }

    lemma ValidAt(m: seq<bv8>)
      requires m == message
      ensures Valid() <==> Shape() && At(m, |m|)
    {
      hide Absorbed, Counted, RegsOf;
    }

    /** More input behind what was taken in changes nothing so far. */
    lemma AtExtended(m: seq<bv8>, more: seq<bv8>)
      requires At(m, |m|)
      ensures At(m + more, |m|)
    {
      hide Absorbed, Counted, RegsOf;
      var full := |m| - roundBufSize;
      assert (m + more)[..full] == m[..full];
      assert (m + more)[full..|m|] == m[full..];
    }

    /** Completes a partly filled buffer, as far as the input goes. */
    method TopUp(buf: seq<bv8>, ghost all: seq<bv8>, ghost start: nat) returns (pos: nat)
      requires At(all, start) && roundBufSize < 64 && start <= |all| && all[start..] == buf
      modifies `totalSize, `roundBufSize, roundBuf, h
      ensures pos <= |buf| && At(all, start + pos) && roundBufSize < 64
      ensures roundBufSize > 0 ==> pos == |buf|
    {
      hide At;
      pos := 0;
      if roundBufSize > 0 {
        var size := if 64 - roundBufSize < |buf| then 64 - roundBufSize else |buf|;
        InputSlice(all, start, buf, 0, size);
        Fill(buf[..size], all, start);
        pos := size;
      }
      if roundBufSize == 64 {
        Flush(all, start + pos);
      }
    }

    /** However the input is cut into calls, the object stands for all of it. */
    method Update(buf: seq<bv8>)
      requires Valid()
      modifies this, roundBuf, h
      ensures Valid() && message == old(message) + buf
    {
      hide At, Valid;
      ghost var start := |message|;
      ghost var all := message + buf;
      ValidAt(message);
      AtExtended(message, buf);
      if |buf| == 0 {
        assert all == message;
        return;
      }
      var pos := TopUp(buf, all, start);
      AtShape(all, start + pos);
      while |buf| - pos >= 64
        invariant 0 <= pos <= |buf| && At(all, start + pos) && roundBufSize < 64
        invariant roundBufSize > 0 ==> pos == |buf|
        invariant message == old(message)
        invariant Shape()
      {
        InputSlice(all, start, buf, pos, pos + 64);
        Take(buf[pos..pos + 64], all, start + pos);
        pos := pos + 64;
        AtShape(all, start + pos);
      }
      if |buf| - pos > 0 {
        InputSlice(all, start, buf, pos, |buf|);
        Fill(buf[pos..], all, start + pos);
      }
      message := all;
      AtShape(all, |all|);
      ValidAt(message);
    }

    lemma AtShape(all: seq<bv8>, upto: nat)
      requires At(all, upto) && roundBufSize < 64
      ensures Shape()
    {
      hide Absorbed, RegsOf;
    }

    method CopyIn(at: nat, data: seq<bv8>)
      requires roundBuf.Length == 64 && at + |data| <= 64
      modifies roundBuf
      ensures roundBuf[..] == old(roundBuf[..at]) + data + old(roundBuf[at + |data|..])
    {
      for i := 0 to |data|
        invariant forall k :: 0 <= k < 64 && !(at <= k < at + i) ==> roundBuf[k] == old(roundBuf[k])
        invariant forall k :: 0 <= k < i ==> roundBuf[at + k] == data[k]
      {
        roundBuf[at + i] := data[i];
      }
    }

    /** The marker bit and zeros up to the end of the buffer. */
    method MarkEnd(size: nat)
      requires roundBuf.Length == 64 && size < 64
      modifies roundBuf
      ensures roundBuf[..] == old(roundBuf[..size]) + [0x80] + Zeros(63 - size)
    {
      ghost var kept := roundBuf[..size];
      CopyIn(size, [0x80]);
      assert roundBuf[..size + 1] == kept + [0x80];
      CopyIn(size + 1, Zeros(63 - size));
      assert roundBuf[64..] == [];
    }

    /** Padding and the last one or two blocks. */
    method Term()
      requires Valid()
      modifies this, roundBuf, h
      ensures h.Length == 8 && Absorbed(RegsOf(h[..]), Pad(old(message)))
    {
      hide Absorbed, Counted, LengthBE, LengthField, Pad, RegsOf;
      ghost var m := message;
      var size := roundBufSize;
      ghost var full := |m| - size;
      ghost var done := m[..full];
      var length := LengthField(totalSize, size);
      LengthFieldRight(|m|, full, size, totalSize);
      MarkEnd(size);
      CountedBlocks(totalSize, full);
      PadShape(m, full, size);
      if size >= 56 {
        RoundOn(roundBuf[..], done);
        done := done + roundBuf[..];
        CopyIn(0, Zeros(56));
        assert roundBuf[..56] == Zeros(56);
      }
      ghost var head := roundBuf[..56];
      CopyIn(56, length);
      BufferEnd(head, length, roundBuf[64..]);
      RoundOn(roundBuf[..], done);
    }

    static method WriteOut(md: array<bv8>, out: seq<bv8>)
      requires |out| == 32 <= md.Length
      modifies md
      ensures md[..32] == out && md[32..] == old(md[32..])
    {
      for i := 0 to 32
        invariant md[..i] == out[..i] && md[32..] == old(md[32..])
      {
        md[i] := out[i];
      }
    }

    /** Hashes the rest and writes the result; too small an output buffer changes nothing. */
    method Digest(md: array<bv8>, buf: seq<bv8>) returns (n: nat)
      requires Valid() && md != roundBuf
      modifies this, roundBuf, h, md
      ensures md.Length < 32 ==> n == 0 && md[..] == old(md[..]) && Valid() && message == old(message)
      ensures md.Length >= 32 ==>
                n == 32 && md[..32] == Hash(old(message) + buf) && md[32..] == old(md[32..])
    {
      hide Absorb, Initial, Compressor, Pad, RegsBytes, RegsOf, Valid;
      if md.Length < 32 {
        return 0;
      }
      Update(buf);
      ghost var m := message;
      Term();
      var out := RegsBytes(RegsOf(h[..]));
      WriteOut(md, out);
      n := 32;
    }
  }

  lemma InputSlice(all: seq<bv8>, start: nat, buf: seq<bv8>, i: nat, j: nat)
    requires start <= |all| && all[start..] == buf && i <= j <= |buf|
    ensures start + j <= |all| && all[start + i..start + j] == buf[i..j]
  {
    assert all[start..][i..j] == all[start + i..start + j];
  }

  lemma NothingAbsorbed()
    ensures Absorbed(Initial(), []) && Counted(0, 0)
  {
  }

  lemma FirstWords(buf: seq<bv8>, t: nat)
    requires |buf| == 64 && t < 16
    ensures W(buf, t) == WordBE(buf[4 * t], buf[4 * t + 1], buf[4 * t + 2], buf[4 * t + 3])
  {
    hide WordBE;
  }

  lemma LaterWords(buf: seq<bv8>, t: nat)
    requires |buf| == 64 && 16 <= t < 64
    ensures W(buf, t) == Add(Add(Add(SmallSigma1(W(buf, t - 2)), W(buf, t - 7)), SmallSigma0(W(buf, t - 15))), W(buf, t - 16))
  {
    hide WordBE, SmallSigma0, SmallSigma1, Add;
  }

  lemma JoinPrefix(all: seq<bv8>, a: nat, b: nat)
    requires a <= b <= |all|
    ensures all[..a] + all[a..b] == all[..b] && all[b..b] == []
  {
  }

  lemma BufferEnd(head: seq<bv8>, tail: seq<bv8>, none: seq<bv8>)
    requires none == []
    ensures head + tail + none == head + tail
  {
  }

  lemma AbsorbNext(done: seq<bv8>, block: seq<bv8>, before: Regs, after: Regs)
    requires |block| == 64
    requires Absorbed(before, done) && after == Compressor()(before, block)
    ensures Absorbed(after, done + block)
  {
    hide Absorb, Initial, Compressor;
    AbsorbBlock(Compressor(), Initial(), done, block);
  }

  lemma CountedBlocks(total: nat, n: nat)
    requires Counted(total, n)
    ensures n % 64 == 0
  {
  }

  lemma CountBlock(total: nat, n: nat)
    requires Counted(total, n)
    ensures Counted((total + 64) % TWO64, n + 64)
  {
  }

  /** The length field as the code computes it from the counter and the buffer fill. */
  function LengthField(totalSize: nat, size: nat): (r: seq<bv8>)
    ensures |r| == 8
  {
    LengthBE(8 * ((totalSize + size) % TWO64) % TWO64)
  }

  lemma LengthFieldRight(len: nat, full: nat, size: nat, before: nat)
    requires len == full + size && Counted(before, full)
    ensures LengthField(before, size) == LengthBE(8 * len % TWO64)
  {
    hide LengthBE;
    SizeWraps(len, full, size, (before + size) % TWO64, before);
  }

  lemma SizeWraps(len: nat, full: nat, size: nat, total: nat, before: nat)
    requires len == full + size && before == full % TWO64 && total == (before + size) % TWO64
    ensures 8 * total % TWO64 == 8 * len % TWO64
  {
    var k, j := full / TWO64, (before + size) / TWO64;
    assert 8 * len == 8 * total + (8 * (k + j)) * TWO64;
    WholeTurns(8 * total, 8 * (k + j));
  }

  lemma WholeTurns(a: nat, c: nat)
    ensures (a + c * TWO64) % TWO64 == a % TWO64
  {
  }

  /** The padded message is the whole blocks followed by the one or two blocks `Term` forms. */
  lemma PadShape(m: seq<bv8>, full: nat, size: nat)
    requires |m| == full + size && full % 64 == 0 && size < 64
    ensures var length := LengthBE(8 * |m| % TWO64);
            var marked := m[full..] + [0x80] + Zeros(63 - size);
            && (size < 56 ==> Pad(m) == m[..full] + (marked[..56] + length))
            && (size >= 56 ==> Pad(m) == (m[..full] + marked) + (Zeros(56) + length))
  {
    hide LengthBE;
    var length := LengthBE(8 * |m| % TWO64);
    var marked := m[full..] + [0x80] + Zeros(63 - size);
    assert m == m[..full] + m[full..];
    ZeroCount(|m|, full, size);
    if size < 56 {
      assert marked[..56] == m[full..] + [0x80] + Zeros(55 - size);
    } else {
      assert Zeros(63 - size) + Zeros(56) == Zeros(119 - size);
    }
  }

  lemma ZeroCount(len: nat, full: nat, size: nat)
    requires len == full + size && full % 64 == 0 && size < 64
    ensures (55 - len) % 64 == if size >= 56 then 119 - size else 55 - size
  {
  }

  // ---------- HMAC ----------

  function XorAll(k: seq<bv8>, pad: bv8): (r: seq<bv8>)
    ensures |r| == |k|
  {
    seq(|k|, i requires 0 <= i < |k| => k[i] ^ pad)
  }

  /** The key brought to the block length, as RFC 2104 section 2 prescribes. */
  function BlockKey(key: seq<bv8>): (r: seq<bv8>)
    ensures |r| == 64
  {
    var k := if |key| > 64 then Hash(key) else key;
    k + Zeros(64 - |k|)
  }

  function Hmac(key: seq<bv8>, msg: seq<bv8>): (r: seq<bv8>)
    ensures |r| == 32
  {
    Hash(XorAll(BlockKey(key), 0x5c) + Hash(XorAll(BlockKey(key), 0x36) + msg))
  }

  /** The key block: long keys are hashed first, with an object that is then reset. */
  method KeyBlock(hash: Sha256, key: seq<bv8>) returns (k: array<bv8>)
    requires hash.roundBuf.Length == 64 && hash.h.Length == 8
    requires hash.Valid() && hash.message == []
    modifies hash, hash.roundBuf, hash.h
    ensures hash.Valid() && hash.message == []
    ensures fresh(k) && k[..] == BlockKey(key)
  {
    hide Hash, Sha256.Valid, Sha256.Shape;
    k := new bv8[64](_ => 0);
    if |key| > 64 {
      var n := hash.Digest(k, key);
      assert [] + key == key;
      hash.Clear();
      assert k[..] == k[..32] + k[32..];
    } else {
      CopyKey(k, key);
    }
  }

  method CopyKey(k: array<bv8>, key: seq<bv8>)
    requires |key| <= k.Length
    modifies k
    ensures k[..|key|] == key && k[|key|..] == old(k[|key|..])
  {
    for i := 0 to |key|
      invariant forall t :: 0 <= t < i ==> k[t] == key[t]
      invariant forall t :: i <= t < k.Length ==> k[t] == old(k[t])
    {
      k[i] := key[i];
    }
  }

  method XorInto(k: array<bv8>, pad: bv8)
    modifies k
    ensures k[..] == XorAll(old(k[..]), pad)
  {
    for i := 0 to k.Length
      invariant forall t :: 0 <= t < i ==> k[t] == old(k[t]) ^ pad
      invariant forall t :: i <= t < k.Length ==> k[t] == old(k[t])
    {
      k[i] := k[i] ^ pad;
    }
  }

  method Hmac256(hmac: array<bv8>, key: seq<bv8>, msg: seq<bv8>)
    requires hmac.Length == 32
    modifies hmac
    ensures hmac[..] == Hmac(key, msg)
  {
    hide Hash, BlockKey, XorAll, Sha256.Valid, Sha256.Shape;
    var hash := new Sha256();
    var k := KeyBlock(hash, key);
    ghost var bk := k[..];
    XorInto(k, 0x36);
    assert hash.Valid();
    hash.Update(k[..]);
    assert [] + k[..] == k[..];
    var n := hash.Digest(hmac, msg);
    ghost var inner := hmac[..];
    assert hmac[..32] == hmac[..];
    hash.Clear();
    XorInto(k, 0x36 ^ 0x5c);
    Repad(bk);
    hash.Update(k[..]);
    assert [] + k[..] == k[..];
    n := hash.Digest(hmac, hmac[..]);
    assert hmac[..32] == hmac[..];
  }

  /** Flipping the two paddings' difference turns the inner key into the outer one. */
  lemma Repad(k: seq<bv8>)
    ensures XorAll(XorAll(k, 0x36), 0x36 ^ 0x5c) == XorAll(k, 0x5c)
  {
    forall i | 0 <= i < |k|
      ensures (k[i] ^ 0x36) ^ (0x36 ^ 0x5c) == k[i] ^ 0x5c
    {
      RepadByte(k[i]);
    }
  }

  lemma RepadByte(b: bv8)
    ensures (b ^ 0x36) ^ (0x36 ^ 0x5c) == b ^ 0x5c
  {
  }
}
