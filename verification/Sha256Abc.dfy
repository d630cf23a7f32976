/** SHA-256 of "abc", worked out round by round from the definitions: the known answer of FIPS 180-4. */
module Sha2Abc {
  import opened Arith
  import opened Sha2
  import opened Sha2Standard

  /** The padded block of "abc". */
  ghost predicate IsAbc(b: seq<bv8>) {
    && |b| == 64
    && b[0] == 0x61 && b[1] == 0x62 && b[2] == 0x63 && b[3] == 0x80 && b[63] == 0x18
    && forall i :: 4 <= i < 63 ==> b[i] == 0
  }

  /** w is the message schedule of b. */
  ghost predicate Scheduled(b: seq<bv8>, w: seq<Word>) {
    |b| == 64 && |w| == 64 && forall t :: 0 <= t < 64 ==> w[t] == W(b, t)
  }

  /** Eight words of the schedule. */
  ghost predicate Words(w: seq<Word>, t: nat, a: Word, b: Word, c: Word, d: Word, e: Word, f: Word, g: Word,
      h: Word) {
    && t + 8 <= |w| && w[t] == a && w[t + 1] == b && w[t + 2] == c && w[t + 3] == d
    && w[t + 4] == e && w[t + 5] == f && w[t + 6] == g && w[t + 7] == h
  }

  lemma FirstSixteen(b: seq<bv8>, w: seq<Word>)
    requires IsAbc(b) && Scheduled(b, w)
    ensures Words(w, 0, 0x61626380, 0, 0, 0, 0, 0, 0, 0) && Words(w, 8, 0, 0, 0, 0, 0, 0, 0, 0x18)
  {
    hide WordBE, W;
    AbcWords();
    forall t | 0 <= t < 16
      ensures w[t] == if t == 0 then 0x61626380 else if t == 15 then 0x18 else 0
    {
      FirstWords(b, t);
    }
  }

  lemma AbcWords()
    ensures WordBE(0x61, 0x62, 0x63, 0x80) == 0x61626380 && WordBE(0, 0, 0, 0) == 0 && WordBE(0, 0, 0, 0x18) == 0x18
  {
  }

  /** The two functions of the schedule, written out: on literals each is one bit-vector fact. */
  predicate SmallValues(x: Word, y: Word, s1: Word, s0: Word) {
    && ((x as bv32).RotateRight(17) ^ (x as bv32).RotateRight(19) ^ (x as bv32 >> 10)) as nat == s1
    && ((y as bv32).RotateRight(7) ^ (y as bv32).RotateRight(18) ^ (y as bv32 >> 3)) as nat == s0
  }

  lemma SmallValuesAre(x: Word, y: Word, s1: Word, s0: Word)
    requires SmallValues(x, y, s1, s0)
    ensures SmallSigma1(x) == s1 && SmallSigma0(y) == s0
  {
  }

  lemma NextWord(b: seq<bv8>, w: seq<Word>, t: nat, s1: Word, s0: Word, v: Word)
    requires 16 <= t < 64 && Scheduled(b, w) && SmallValues(w[t - 2], w[t - 15], s1, s0)
    requires v == Add(Add(Add(s1, w[t - 7]), s0), w[t - 16])
    ensures w[t] == v
  {
    hide SmallValues, SmallSigma0, SmallSigma1, Add, W;
    SmallValuesAre(w[t - 2], w[t - 15], s1, s0);
    LaterWords(b, t);
  }

  lemma SmallValues16()
    ensures SmallValues(0x00000000, 0x00000000, 0x00000000, 0x00000000)
    ensures SmallValues(0x00000018, 0x00000000, 0x000f0000, 0x00000000)
    ensures SmallValues(0x61626380, 0x00000000, 0x7da86405, 0x00000000)
    ensures SmallValues(0x000f0000, 0x00000000, 0x600003c6, 0x00000000)
    ensures SmallValues(0x7da86405, 0x00000000, 0x3e9d7b78, 0x00000000)
    ensures SmallValues(0x600003c6, 0x00000000, 0x0183fc00, 0x00000000)
    ensures SmallValues(0x3e9d7b78, 0x00000000, 0x12dcbfc3, 0x00000000)
    ensures SmallValues(0x0183fc00, 0x00000000, 0x8180600e, 0x00000000)
  {
  }

  lemma Words16(b: seq<bv8>, w: seq<Word>)
    requires Scheduled(b, w) && |w| == 64
    requires Words(w, 0, 0x61626380, 0x00000000, 0x00000000, 0x00000000, 0x00000000, 0x00000000, 0x00000000,
        0x00000000)
    requires Words(w, 8, 0x00000000, 0x00000000, 0x00000000, 0x00000000, 0x00000000, 0x00000000, 0x00000000,
        0x00000018)
    ensures Words(w, 16, 0x61626380, 0x000f0000, 0x7da86405, 0x600003c6, 0x3e9d7b78, 0x0183fc00, 0x12dcbfdb,
        0xe2e2c38e)
  {
    hide SmallValues, Scheduled;
    SmallValues16();
    NextWord(b, w, 16, 0x00000000, 0x00000000, 0x61626380);
    NextWord(b, w, 17, 0x000f0000, 0x00000000, 0x000f0000);
    NextWord(b, w, 18, 0x7da86405, 0x00000000, 0x7da86405);
    NextWord(b, w, 19, 0x600003c6, 0x00000000, 0x600003c6);
    NextWord(b, w, 20, 0x3e9d7b78, 0x00000000, 0x3e9d7b78);
    NextWord(b, w, 21, 0x0183fc00, 0x00000000, 0x0183fc00);
    NextWord(b, w, 22, 0x12dcbfc3, 0x00000000, 0x12dcbfdb);
    NextWord(b, w, 23, 0x8180600e, 0x00000000, 0xe2e2c38e);
  }

  lemma SmallValues24()
    ensures SmallValues(0x12dcbfdb, 0x00000000, 0xc8125c1a, 0x00000000)
    ensures SmallValues(0xe2e2c38e, 0x00000000, 0x398e159d, 0x00000000)
    ensures SmallValues(0xc8215c1a, 0x00000000, 0x85bc3543, 0x00000000)
    ensures SmallValues(0xb73679a2, 0x00000000, 0xf3c8c0e3, 0x00000000)
    ensures SmallValues(0xe5bc3909, 0x00000000, 0x9b9ca167, 0x00000000)
    ensures SmallValues(0x32663c5b, 0x00000000, 0xd9aa66f0, 0x00000000)
    ensures SmallValues(0x9d209d67, 0x00000018, 0x5d387513, 0x30060003)
    ensures SmallValues(0xec8726cb, 0x61626380, 0x7787aa1a, 0x940e90ef)
  {
  }

  lemma Words24(b: seq<bv8>, w: seq<Word>)
    requires Scheduled(b, w) && |w| == 64
    requires Words(w, 8, 0x00000000, 0x00000000, 0x00000000, 0x00000000, 0x00000000, 0x00000000, 0x00000000,
        0x00000018)
    requires Words(w, 16, 0x61626380, 0x000f0000, 0x7da86405, 0x600003c6, 0x3e9d7b78, 0x0183fc00, 0x12dcbfdb,
        0xe2e2c38e)
    ensures Words(w, 24, 0xc8215c1a, 0xb73679a2, 0xe5bc3909, 0x32663c5b, 0x9d209d67, 0xec8726cb, 0x702138a4,
        0xd3b7973b)
  {
    hide SmallValues, Scheduled;
    SmallValues24();
    NextWord(b, w, 24, 0xc8125c1a, 0x00000000, 0xc8215c1a);
    NextWord(b, w, 25, 0x398e159d, 0x00000000, 0xb73679a2);
    NextWord(b, w, 26, 0x85bc3543, 0x00000000, 0xe5bc3909);
    NextWord(b, w, 27, 0xf3c8c0e3, 0x00000000, 0x32663c5b);
    NextWord(b, w, 28, 0x9b9ca167, 0x00000000, 0x9d209d67);
    NextWord(b, w, 29, 0xd9aa66f0, 0x00000000, 0xec8726cb);
    NextWord(b, w, 30, 0x5d387513, 0x30060003, 0x702138a4);
    NextWord(b, w, 31, 0x7787aa1a, 0x940e90ef, 0xd3b7973b);
  }

  lemma SmallValues32()
    ensures SmallValues(0x702138a4, 0x000f0000, 0xbb5abe5a, 0xc001fe03)
    ensures SmallValues(0xd3b7973b, 0x7da86405, 0x394e7e48, 0x1c4f0322)
    ensures SmallValues(0x93f5997f, 0x600003c6, 0x7fb4c6e2, 0x8031987f)
    ensures SmallValues(0x3b68ba73, 0x3e9d7b78, 0x4a7920f7, 0xa9709a3e)
    ensures SmallValues(0xaff4ffc1, 0x0183fc00, 0xe0331f3b, 0xff337818)
    ensures SmallValues(0xf10a5c62, 0x12dcbfdb, 0x65816433, 0x9b88ea33)
    ensures SmallValues(0x0a8b3996, 0xe2e2c38e, 0xfbfb66da, 0xb17a254e)
    ensures SmallValues(0x72af830a, 0xc8215c1a, 0x31f8dce2, 0x7b92db33)
  {
  }

  lemma Words32(b: seq<bv8>, w: seq<Word>)
    requires Scheduled(b, w) && |w| == 64
    requires Words(w, 16, 0x61626380, 0x000f0000, 0x7da86405, 0x600003c6, 0x3e9d7b78, 0x0183fc00, 0x12dcbfdb,
        0xe2e2c38e)
    requires Words(w, 24, 0xc8215c1a, 0xb73679a2, 0xe5bc3909, 0x32663c5b, 0x9d209d67, 0xec8726cb, 0x702138a4,
        0xd3b7973b)
    ensures Words(w, 32, 0x93f5997f, 0x3b68ba73, 0xaff4ffc1, 0xf10a5c62, 0x0a8b3996, 0x72af830a, 0x9409e33e,
        0x24641522)
  {
    hide SmallValues, Scheduled;
    SmallValues32();
    NextWord(b, w, 32, 0xbb5abe5a, 0xc001fe03, 0x93f5997f);
    NextWord(b, w, 33, 0x394e7e48, 0x1c4f0322, 0x3b68ba73);
    NextWord(b, w, 34, 0x7fb4c6e2, 0x8031987f, 0xaff4ffc1);
    NextWord(b, w, 35, 0x4a7920f7, 0xa9709a3e, 0xf10a5c62);
    NextWord(b, w, 36, 0xe0331f3b, 0xff337818, 0x0a8b3996);
    NextWord(b, w, 37, 0x65816433, 0x9b88ea33, 0x72af830a);
    NextWord(b, w, 38, 0xfbfb66da, 0xb17a254e, 0x9409e33e);
    NextWord(b, w, 39, 0x31f8dce2, 0x7b92db33, 0x24641522);
  }

  lemma SmallValues40()
    ensures SmallValues(0x9409e33e, 0xb73679a2, 0xcddd9afd, 0xcde00e0a)
    ensures SmallValues(0x24641522, 0xe5bc3909, 0x883c4fbb, 0x013e863c)
    ensures SmallValues(0x9f47bf94, 0x32663c5b, 0x281f0da4, 0x3f3ec76a)
    ensures SmallValues(0xf0a64f5a, 0x9d209d67, 0xee7a0fd4, 0xfbc7b5de)
    ensures SmallValues(0x3e246a79, 0xec8726cb, 0xb87c31cc, 0x43fb11b5)
    ensures SmallValues(0x27333ba3, 0x702138a4, 0xfaac3bb1, 0x08cd796d)
    ensures SmallValues(0x0c4763f2, 0xd3b7973b, 0x5d845673, 0x881f6924)
    ensures SmallValues(0x840abf27, 0x93f5997f, 0x0856302b, 0x8b06bce0)
  {
  }

  lemma Words40(b: seq<bv8>, w: seq<Word>)
    requires Scheduled(b, w) && |w| == 64
    requires Words(w, 24, 0xc8215c1a, 0xb73679a2, 0xe5bc3909, 0x32663c5b, 0x9d209d67, 0xec8726cb, 0x702138a4,
        0xd3b7973b)
    requires Words(w, 32, 0x93f5997f, 0x3b68ba73, 0xaff4ffc1, 0xf10a5c62, 0x0a8b3996, 0x72af830a, 0x9409e33e,
        0x24641522)
    ensures Words(w, 40, 0x9f47bf94, 0xf0a64f5a, 0x3e246a79, 0x27333ba3, 0x0c4763f2, 0x840abf27, 0x7a290d5d,
        0x065c43da)
  {
    hide SmallValues, Scheduled;
    SmallValues40();
    NextWord(b, w, 40, 0xcddd9afd, 0xcde00e0a, 0x9f47bf94);
    NextWord(b, w, 41, 0x883c4fbb, 0x013e863c, 0xf0a64f5a);
    NextWord(b, w, 42, 0x281f0da4, 0x3f3ec76a, 0x3e246a79);
    NextWord(b, w, 43, 0xee7a0fd4, 0xfbc7b5de, 0x27333ba3);
    NextWord(b, w, 44, 0xb87c31cc, 0x43fb11b5, 0x0c4763f2);
    NextWord(b, w, 45, 0xfaac3bb1, 0x08cd796d, 0x840abf27);
    NextWord(b, w, 46, 0x5d845673, 0x881f6924, 0x7a290d5d);
    NextWord(b, w, 47, 0x0856302b, 0x8b06bce0, 0x065c43da);
  }

  lemma SmallValues48()
    ensures SmallValues(0x7a290d5d, 0x3b68ba73, 0xa71b9812, 0xcf8708e0)
    ensures SmallValues(0x065c43da, 0xaff4ffc1, 0xa997d4f5, 0xa9511dfa)
    ensures SmallValues(0xfb3e89cb, 0xf10a5c62, 0x95e24d5a, 0x4cdbe376)
    ensures SmallValues(0xcc7617db, 0x0a8b3996, 0xc9258230, 0xe321f3e3)
    ensures SmallValues(0xb9e66c34, 0x72af830a, 0xfbb2b254, 0xfa7233cc)
    ensures SmallValues(0xa9993667, 0x9409e33e, 0xbdd547b2, 0x17668aa3)
    ensures SmallValues(0x84badedd, 0x24641522, 0x34945c7d, 0x458cc397)
    ensures SmallValues(0xc21462bc, 0x9f47bf94, 0xbd397c50, 0xd5335f5c)
  {
  }

  lemma Words48(b: seq<bv8>, w: seq<Word>)
    requires Scheduled(b, w) && |w| == 64
    requires Words(w, 32, 0x93f5997f, 0x3b68ba73, 0xaff4ffc1, 0xf10a5c62, 0x0a8b3996, 0x72af830a, 0x9409e33e,
        0x24641522)
    requires Words(w, 40, 0x9f47bf94, 0xf0a64f5a, 0x3e246a79, 0x27333ba3, 0x0c4763f2, 0x840abf27, 0x7a290d5d,
        0x065c43da)
    ensures Words(w, 48, 0xfb3e89cb, 0xcc7617db, 0xb9e66c34, 0xa9993667, 0x84badedd, 0xc21462bc, 0x1487472c,
        0xb20f7a99)
  {
    hide SmallValues, Scheduled;
    SmallValues48();
    NextWord(b, w, 48, 0xa71b9812, 0xcf8708e0, 0xfb3e89cb);
    NextWord(b, w, 49, 0xa997d4f5, 0xa9511dfa, 0xcc7617db);
    NextWord(b, w, 50, 0x95e24d5a, 0x4cdbe376, 0xb9e66c34);
    NextWord(b, w, 51, 0xc9258230, 0xe321f3e3, 0xa9993667);
    NextWord(b, w, 52, 0xfbb2b254, 0xfa7233cc, 0x84badedd);
    NextWord(b, w, 53, 0xbdd547b2, 0x17668aa3, 0xc21462bc);
    NextWord(b, w, 54, 0x34945c7d, 0x458cc397, 0x1487472c);
    NextWord(b, w, 55, 0xbd397c50, 0xd5335f5c, 0xb20f7a99);
  }

  lemma SmallValues56()
    ensures SmallValues(0x1487472c, 0xf0a64f5a, 0x4b76a902, 0x3823395c)
    ensures SmallValues(0xb20f7a99, 0x3e246a79, 0x52336c98, 0xef268a12)
    ensures SmallValues(0xef57b9cd, 0x27333ba3, 0x2be49faf, 0x8c40c8cf)
    ensures SmallValues(0xebe6b238, 0x0c4763f2, 0x8f619123, 0x3d6ce1a8)
    ensures SmallValues(0x9fe3095e, 0x840abf27, 0xe5a364cf, 0xf040a398)
    ensures SmallValues(0x78bc8d4b, 0x7a290d5d, 0xd712fc6a, 0xf6e62d3b)
    ensures SmallValues(0xa43fcf15, 0x065c43da, 0x1e41696b, 0xa431b16b)
    ensures SmallValues(0x668b2ff8, 0xfb3e89cb, 0xf21a9d5f, 0x2ae352e5)
  {
  }

  lemma Words56(b: seq<bv8>, w: seq<Word>)
    requires Scheduled(b, w) && |w| == 64
    requires Words(w, 40, 0x9f47bf94, 0xf0a64f5a, 0x3e246a79, 0x27333ba3, 0x0c4763f2, 0x840abf27, 0x7a290d5d,
        0x065c43da)
    requires Words(w, 48, 0xfb3e89cb, 0xcc7617db, 0xb9e66c34, 0xa9993667, 0x84badedd, 0xc21462bc, 0x1487472c,
        0xb20f7a99)
    ensures Words(w, 56, 0xef57b9cd, 0xebe6b238, 0x9fe3095e, 0x78bc8d4b, 0xa43fcf15, 0x668b2ff8, 0xeeaba2cc,
        0x12b1edeb)
  {
    hide SmallValues, Scheduled;
    SmallValues56();
    NextWord(b, w, 56, 0x4b76a902, 0x3823395c, 0xef57b9cd);
    NextWord(b, w, 57, 0x52336c98, 0xef268a12, 0xebe6b238);
    NextWord(b, w, 58, 0x2be49faf, 0x8c40c8cf, 0x9fe3095e);
    NextWord(b, w, 59, 0x8f619123, 0x3d6ce1a8, 0x78bc8d4b);
    NextWord(b, w, 60, 0xe5a364cf, 0xf040a398, 0xa43fcf15);
    NextWord(b, w, 61, 0xd712fc6a, 0xf6e62d3b, 0x668b2ff8);
    NextWord(b, w, 62, 0x1e41696b, 0xa431b16b, 0xeeaba2cc);
    NextWord(b, w, 63, 0xf21a9d5f, 0x2ae352e5, 0x12b1edeb);
  }

  /** r is what the registers hold after t rounds. */
  ghost predicate Reached(b: seq<bv8>, t: nat, r: Regs) {
    |b| == 64 && t <= 64 && r == Steps(Initial(), b, t)
  }

  /** The four functions of a round, written out likewise. */
  predicate Values(e: Word, f: Word, g: Word, a: Word, b: Word, c: Word, s1: Word, ch: Word, s0: Word, mj: Word) {
    && ((e as bv32).RotateRight(6) ^ (e as bv32).RotateRight(11) ^ (e as bv32).RotateRight(25)) as nat == s1
    && ((e as bv32 & f as bv32) ^ (!(e as bv32) & g as bv32)) as nat == ch
    && ((a as bv32).RotateRight(2) ^ (a as bv32).RotateRight(13) ^ (a as bv32).RotateRight(22)) as nat == s0
    && ((a as bv32 & b as bv32) ^ (a as bv32 & c as bv32) ^ (b as bv32 & c as bv32)) as nat == mj
  }

  lemma ValuesAre(e: Word, f: Word, g: Word, a: Word, b: Word, c: Word, s1: Word, ch: Word, s0: Word, mj: Word)
    requires Values(e, f, g, a, b, c, s1, ch, s0, mj)
    ensures BigSigma1(e) == s1 && Ch(e, f, g) == ch && BigSigma0(a) == s0 && Maj(a, b, c) == mj
  {
  }

  /** A chain of additions modulo 2^32 is one sum reduced. */
  lemma ChainOfFive(v: Word, w: Word, x: Word, y: Word, z: Word)
    ensures Add(Add(Add(Add(v, w), x), y), z) == (v + w + x + y + z) % TWO32
  {
    ReducedSum(v + w, x);
    ReducedSum(v + w + x, y);
    ReducedSum(v + w + x + y, z);
  }

  lemma RoundSums(h: Word, s1: Word, ch: Word, k: Word, v: Word, d: Word, e: Word, p: nat, t2: nat, a: Word, q: nat)
    requires d + h + s1 + ch + k + v == e + p * 0x1_0000_0000
    requires h + s1 + ch + k + v + t2 == a + q * 0x1_0000_0000
    ensures var t1 := Add(Add(Add(Add(h, s1), ch), k), v);
            Add(d, t1) == e && Add(t1, t2 % TWO32) == a
  {
    hide Add;
    ChainOfFive(h, s1, ch, k, v);
    AddReduced(d, h + s1 + ch + k + v, e, p);
    AddReduced(t2 % TWO32, h + s1 + ch + k + v, a, q - t2 / TWO32);
    AddComm(Add(Add(Add(Add(h, s1), ch), k), v), t2 % TWO32);
  }

  lemma AddReduced(x: Word, y: nat, r: Word, q: int)
    requires x + y == r + q * 0x1_0000_0000
    ensures Add(x, y % TWO32) == r
  {
    ReducedSum(y, x);
    QuotientIs(x + y, q, r, 0x1_0000_0000);
  }

  lemma SumIs(x: Word, y: Word)
    ensures Add(x, y) == (x + y) % TWO32
  {
  }

  /** One round from those values. */
  lemma Next(m: seq<bv8>, w: seq<Word>, t: nat, r: Regs, s1: Word, ch: Word, s0: Word, mj: Word, k: Word, v: Word,
             p: nat, q: nat, e: Word, a: Word) returns (u: Regs)
    requires t < 64 && Scheduled(m, w) && Reached(m, t, r) && K(t) == k && w[t] == v
    requires Values(r.e, r.f, r.g, r.a, r.b, r.c, s1, ch, s0, mj)
    requires r.d + r.h + s1 + ch + k + v == e + p * 0x1_0000_0000
    requires r.h + s1 + ch + k + v + s0 + mj == a + q * 0x1_0000_0000
    ensures u == Regs(a, r.a, r.b, r.c, e, r.e, r.f, r.g) && Reached(m, t + 1, u)
  {
    hide Values, BigSigma0, BigSigma1, Ch, Maj, K, W, Initial, Add;
    ValuesAre(r.e, r.f, r.g, r.a, r.b, r.c, s1, ch, s0, mj);
    RoundSums(r.h, s1, ch, k, v, r.d, e, p, s0 + mj, a, q);
    SumIs(s0, mj);
    u := Regs(a, r.a, r.b, r.c, e, r.e, r.f, r.g);
  }

  lemma Values0()
    ensures Values(0x510e527f, 0x9b05688c, 0x1f83d9ab, 0x6a09e667, 0xbb67ae85, 0x3c6ef372,
                   0x3587272b, 0x1f85c98c, 0xce20b47e, 0x3a6fe667)
    ensures Values(0xfa2a4622, 0x510e527f, 0x9b05688c, 0x5d6aebcd, 0x6a09e667, 0xbb67ae85,
                   0x5a94fd2d, 0x510f6aae, 0xa29f64d1, 0x7b6beec5)
    ensures Values(0x78ce7989, 0xfa2a4622, 0x510e527f, 0x5a6ad9ad, 0x5d6aebcd, 0x6a09e667,
                   0x73f0e495, 0x790a4276, 0x3096d054, 0x5a6aebed)
    ensures Values(0xf92939eb, 0x78ce7989, 0xfa2a4622, 0xc8c347a7, 0x5a6ad9ad, 0x5d6aebcd,
                   0x0607743c, 0x7a0a7f89, 0xc21008d0, 0x586acbad)
  {
  }

  lemma Values4()
    ensures Values(0x24e00850, 0xf92939eb, 0x78ce7989, 0xd550f666, 0xc8c347a7, 0x5a6ad9ad,
                   0x3a933432, 0x782e79c9, 0x45bb0c4b, 0xd842d7a7)
    ensures Values(0x43ada245, 0x24e00850, 0xf92939eb, 0x04409a6a, 0xd550f666, 0xc8c347a7,
                   0x8b77e19c, 0xb8a019ea, 0x5029ac8f, 0xc440d666)
    ensures Values(0x714260ad, 0x43ada245, 0x24e00850, 0x2b4209f5, 0x04409a6a, 0xd550f666,
                   0x015b7776, 0x45a02855, 0x0d5e0cc0, 0x05409a66)
    ensures Values(0x9b27a401, 0x714260ad, 0x43ada245, 0xe5030380, 0x2b4209f5, 0x04409a6a,
                   0x158dfaa9, 0x518a2245, 0x2949eb6c, 0x25420be0)
  {
  }

  lemma Constants0()
    ensures K(0) == 0x428a2f98 && K(1) == 0x71374491 && K(2) == 0xb5c0fbcf && K(3) == 0xe9b5dba5
    ensures K(4) == 0x3956c25b && K(5) == 0x59f111f1 && K(6) == 0x923f82a4 && K(7) == 0xab1c5ed5
  {
  }

  lemma Rounds0(m: seq<bv8>, w: seq<Word>)
    requires Scheduled(m, w)
    requires Words(w, 0, 0x61626380, 0x00000000, 0x00000000, 0x00000000, 0x00000000, 0x00000000, 0x00000000,
        0x00000000)
    requires Reached(m, 0, Regs(0x6a09e667, 0xbb67ae85, 0x3c6ef372, 0xa54ff53a, 0x510e527f, 0x9b05688c, 0x1f83d9ab,
        0x5be0cd19))
    ensures Reached(m, 8, Regs(0x85a07b5f, 0xe5030380, 0x2b4209f5, 0x04409a6a, 0x0c657a79, 0x9b27a401, 0x714260ad,
        0x43ada245))
  {
    hide Scheduled, Reached, Values, K;
    Constants0();
    Values0();
    Values4();
    var r := Regs(0x6a09e667, 0xbb67ae85, 0x3c6ef372, 0xa54ff53a, 0x510e527f, 0x9b05688c, 0x1f83d9ab, 0x5be0cd19);
    r := Next(m, w, 0, r, 0x3587272b, 0x1f85c98c, 0xce20b47e, 0x3a6fe667, 0x428a2f98, 0x61626380, 1, 2, 0xfa2a4622,
        0x5d6aebcd);
    r := Next(m, w, 1, r, 0x5a94fd2d, 0x510f6aae, 0xa29f64d1, 0x7b6beec5, 0x71374491, 0x00000000, 1, 2, 0x78ce7989,
        0x5a6ad9ad);
    r := Next(m, w, 2, r, 0x73f0e495, 0x790a4276, 0x3096d054, 0x5a6aebed, 0xb5c0fbcf, 0x00000000, 2, 2, 0xf92939eb,
        0xc8c347a7);
    r := Next(m, w, 3, r, 0x0607743c, 0x7a0a7f89, 0xc21008d0, 0x586acbad, 0xe9b5dba5, 0x00000000, 2, 2, 0x24e00850,
        0xd550f666);
    r := Next(m, w, 4, r, 0x3a933432, 0x782e79c9, 0x45bb0c4b, 0xd842d7a7, 0x3956c25b, 0x00000000, 2, 3, 0x43ada245,
        0x04409a6a);
    r := Next(m, w, 5, r, 0x8b77e19c, 0xb8a019ea, 0x5029ac8f, 0xc440d666, 0x59f111f1, 0x00000000, 2, 3, 0x714260ad,
        0x2b4209f5);
    r := Next(m, w, 6, r, 0x015b7776, 0x45a02855, 0x0d5e0cc0, 0x05409a66, 0x923f82a4, 0x00000000, 2, 1, 0x9b27a401,
        0xe5030380);
    r := Next(m, w, 7, r, 0x158dfaa9, 0x518a2245, 0x2949eb6c, 0x25420be0, 0xab1c5ed5, 0x00000000, 2, 1, 0x0c657a79,
        0x85a07b5f);
  }

  lemma Values8()
    ensures Values(0x0c657a79, 0x9b27a401, 0x714260ad, 0x85a07b5f, 0xe5030380, 0x2b4209f5,
                   0x99ad25c0, 0x79272085, 0xba794dc2, 0xa5020bd5)
    ensures Values(0x32ca2d8c, 0x0c657a79, 0x9b27a401, 0x8e04ecb9, 0x85a07b5f, 0xe5030380,
                   0xe45bb7ea, 0x8965a809, 0x15ffad31, 0x85006b99)
    ensures Values(0x1cc92596, 0x32ca2d8c, 0x0c657a79, 0x8c87346b, 0x8e04ecb9, 0x85a07b5f,
                   0x8e2276bc, 0x10ec7fed, 0x5cac0711, 0x8c847c7b)
    ensures Values(0x436b23e8, 0x1cc92596, 0x32ca2d8c, 0x4798a3f4, 0x8c87346b, 0x8e04ecb9,
                   0x699435ca, 0x30c92d84, 0x6ccbc526, 0x8e84a4f9)
  {
  }

  lemma Values12()
    ensures Values(0x816fd6e9, 0x436b23e8, 0x1cc92596, 0xf71fc5a9, 0x4798a3f4, 0x8c87346b,
                   0xccdee661, 0x1deb23fe, 0x2f9eee48, 0xc79fa5e9)
    ensures Values(0x1e578218, 0x816fd6e9, 0x436b23e8, 0x87912990, 0xf71fc5a9, 0x4798a3f4,
                   0x08bb98f7, 0x416fa3e8, 0x29c634f3, 0xc799a1b0)
    ensures Values(0x745a48de, 0x1e578218, 0x816fd6e9, 0xd932eb16, 0x87912990, 0xf71fc5a9,
                   0x4f3b8d50, 0x95779639, 0x25562836, 0xd713e990)
    ensures Values(0x0b92f20c, 0x745a48de, 0x1e578218, 0xc0645fde, 0xd932eb16, 0x87912990,
                   0xb8d63f93, 0x1457401c, 0xdf906fd4, 0xc1306b96)
  {
  }

  lemma Constants8()
    ensures K(8) == 0xd807aa98 && K(9) == 0x12835b01 && K(10) == 0x243185be && K(11) == 0x550c7dc3
    ensures K(12) == 0x72be5d74 && K(13) == 0x80deb1fe && K(14) == 0x9bdc06a7 && K(15) == 0xc19bf174
  {
  }

  lemma Rounds8(m: seq<bv8>, w: seq<Word>)
    requires Scheduled(m, w)
    requires Words(w, 8, 0x00000000, 0x00000000, 0x00000000, 0x00000000, 0x00000000, 0x00000000, 0x00000000,
        0x00000018)
    requires Reached(m, 8, Regs(0x85a07b5f, 0xe5030380, 0x2b4209f5, 0x04409a6a, 0x0c657a79, 0x9b27a401, 0x714260ad,
        0x43ada245))
    ensures Reached(m, 16, Regs(0xb0fa238e, 0xc0645fde, 0xd932eb16, 0x87912990, 0x07590dcd, 0x0b92f20c, 0x745a48de,
        0x1e578218))
  {
    hide Scheduled, Reached, Values, K;
    Constants8();
    Values8();
    Values12();
    var r := Regs(0x85a07b5f, 0xe5030380, 0x2b4209f5, 0x04409a6a, 0x0c657a79, 0x9b27a401, 0x714260ad, 0x43ada245);
    r := Next(m, w, 8, r, 0x99ad25c0, 0x79272085, 0xba794dc2, 0xa5020bd5, 0xd807aa98, 0x00000000, 2, 3, 0x32ca2d8c,
        0x8e04ecb9);
    r := Next(m, w, 9, r, 0xe45bb7ea, 0x8965a809, 0x15ffad31, 0x85006b99, 0x12835b01, 0x00000000, 2, 2, 0x1cc92596,
        0x8c87346b);
    r := Next(m, w, 10, r, 0x8e2276bc, 0x10ec7fed, 0x5cac0711, 0x8c847c7b, 0x243185be, 0x00000000, 2, 2,
        0x436b23e8, 0x4798a3f4);
    r := Next(m, w, 11, r, 0x699435ca, 0x30c92d84, 0x6ccbc526, 0x8e84a4f9, 0x550c7dc3, 0x00000000, 1, 1,
        0x816fd6e9, 0xf71fc5a9);
    r := Next(m, w, 12, r, 0xccdee661, 0x1deb23fe, 0x2f9eee48, 0xc79fa5e9, 0x72be5d74, 0x00000000, 2, 2,
        0x1e578218, 0x87912990);
    r := Next(m, w, 13, r, 0x08bb98f7, 0x416fa3e8, 0x29c634f3, 0xc799a1b0, 0x80deb1fe, 0x00000000, 1, 1,
        0x745a48de, 0xd932eb16);
    r := Next(m, w, 14, r, 0x4f3b8d50, 0x95779639, 0x25562836, 0xd713e990, 0x9bdc06a7, 0x00000000, 2, 2,
        0x0b92f20c, 0xc0645fde);
    r := Next(m, w, 15, r, 0xb8d63f93, 0x1457401c, 0xdf906fd4, 0xc1306b96, 0xc19bf174, 0x00000018, 3, 3,
        0x07590dcd, 0xb0fa238e);
  }

  lemma Values16()
    ensures Values(0x07590dcd, 0x0b92f20c, 0x745a48de, 0xb0fa238e, 0xc0645fde, 0xd932eb16,
                   0x213b6995, 0x7312401e, 0x58c535f1, 0xd0726b9e)
    ensures Values(0x8034229c, 0x07590dcd, 0x0b92f20c, 0x21da9a9b, 0xb0fa238e, 0xc0645fde,
                   0x3b81984e, 0x0b92d08c, 0x76c5c4f5, 0xa0fa1b9e)
    ensures Values(0x846ee454, 0x8034229c, 0x07590dcd, 0xc2fbd9d1, 0x21da9a9b, 0xb0fa238e,
                   0xeff31c0f, 0x8335299d, 0x5157a6a1, 0xa0fa9b9b)
    ensures Values(0xcc899961, 0x846ee454, 0x8034229c, 0xfe777bbf, 0xc2fbd9d1, 0x21da9a9b,
                   0xefc707b0, 0x843ca2dc, 0xff8cd2ad, 0xe2fbdb9b)
  {
  }

  lemma Values20()
    ensures Values(0xb0638179, 0xcc899961, 0x846ee454, 0xe1f20c33, 0xfe777bbf, 0xc2fbd9d1,
                   0xf8373ead, 0x840de565, 0x51d3431b, 0xe2f359b3)
    ensures Values(0x8ada8930, 0xb0638179, 0xcc899961, 0x9dc68b63, 0xe1f20c33, 0xfe777bbf,
                   0x897ea930, 0xc4439171, 0xa640c29b, 0xfdf60b33)
    ensures Values(0xe1257970, 0x8ada8930, 0xb0638179, 0xc2606d6d, 0x9dc68b63, 0xe1f20c33,
                   0x7f24093a, 0x90428939, 0x9a43bf51, 0xc1e20d63)
    ensures Values(0x49f5114a, 0xe1257970, 0x8ada8930, 0xa7a3623f, 0xc2606d6d, 0x9dc68b63,
                   0xfae64fc3, 0xc32f9970, 0x759d1b0a, 0x87e26b6f)
  {
  }

  lemma Constants16()
    ensures K(16) == 0xe49b69c1 && K(17) == 0xefbe4786 && K(18) == 0x0fc19dc6 && K(19) == 0x240ca1cc
    ensures K(20) == 0x2de92c6f && K(21) == 0x4a7484aa && K(22) == 0x5cb0a9dc && K(23) == 0x76f988da
  {
  }

  lemma Rounds16(m: seq<bv8>, w: seq<Word>)
    requires Scheduled(m, w)
    requires Words(w, 16, 0x61626380, 0x000f0000, 0x7da86405, 0x600003c6, 0x3e9d7b78, 0x0183fc00, 0x12dcbfdb,
        0xe2e2c38e)
    requires Reached(m, 16, Regs(0xb0fa238e, 0xc0645fde, 0xd932eb16, 0x87912990, 0x07590dcd, 0x0b92f20c,
        0x745a48de, 0x1e578218))
    ensures Reached(m, 24, Regs(0xc5d53d8d, 0xa7a3623f, 0xc2606d6d, 0x9dc68b63, 0xaa47c347, 0x49f5114a, 0xe1257970,
        0x8ada8930))
  {
    hide Scheduled, Reached, Values, K;
    Constants16();
    Values16();
    Values20();
    var r := Regs(0xb0fa238e, 0xc0645fde, 0xd932eb16, 0x87912990, 0x07590dcd, 0x0b92f20c, 0x745a48de, 0x1e578218);
    r := Next(m, w, 16, r, 0x213b6995, 0x7312401e, 0x58c535f1, 0xd0726b9e, 0xe49b69c1, 0x61626380, 2, 3,
        0x8034229c, 0x21da9a9b);
    r := Next(m, w, 17, r, 0x3b81984e, 0x0b92d08c, 0x76c5c4f5, 0xa0fa1b9e, 0xefbe4786, 0x000f0000, 2, 2,
        0x846ee454, 0xc2fbd9d1);
    r := Next(m, w, 18, r, 0xeff31c0f, 0x8335299d, 0x5157a6a1, 0xa0fa9b9b, 0x0fc19dc6, 0x7da86405, 2, 2,
        0xcc899961, 0xfe777bbf);
    r := Next(m, w, 19, r, 0xefc707b0, 0x843ca2dc, 0xff8cd2ad, 0xe2fbdb9b, 0x240ca1cc, 0x600003c6, 2, 3,
        0xb0638179, 0xe1f20c33);
    r := Next(m, w, 20, r, 0xf8373ead, 0x840de565, 0x51d3431b, 0xe2f359b3, 0x2de92c6f, 0x3e9d7b78, 2, 3,
        0x8ada8930, 0x9dc68b63);
    r := Next(m, w, 21, r, 0x897ea930, 0xc4439171, 0xa640c29b, 0xfdf60b33, 0x4a7484aa, 0x0183fc00, 2, 3,
        0xe1257970, 0xc2606d6d);
    r := Next(m, w, 22, r, 0x7f24093a, 0x90428939, 0x9a43bf51, 0xc1e20d63, 0x5cb0a9dc, 0x12dcbfdb, 3, 3,
        0x49f5114a, 0xa7a3623f);
    r := Next(m, w, 23, r, 0xfae64fc3, 0xc32f9970, 0x759d1b0a, 0x87e26b6f, 0x76f988da, 0xe2e2c38e, 4, 4,
        0xaa47c347, 0xc5d53d8d);
  }

  lemma Values24()
    ensures Values(0xaa47c347, 0x49f5114a, 0xe1257970, 0xc5d53d8d, 0xa7a3623f, 0xc2606d6d,
                   0x55bdf420, 0x49653972, 0xc9ed56dd, 0xc7e16d2d)
    ensures Values(0x2823ef91, 0xaa47c347, 0x49f5114a, 0x1c2c2838, 0xc5d53d8d, 0xa7a3623f,
                   0xa7724357, 0x69d7d34b, 0xf66b0b1f, 0x85a5283d)
    ensures Values(0x14383d8e, 0x2823ef91, 0xaa47c347, 0xcde8037d, 0x1c2c2838, 0xc5d53d8d,
                   0x958ca0fb, 0xaa67efc1, 0xc89998a8, 0xcdec293d)
    ensures Values(0xc74c6516, 0x14383d8e, 0x2823ef91, 0xb62ec4bc, 0xcde8037d, 0x1c2c2838,
                   0x5ff7537b, 0x2c2baf87, 0xb37cf281, 0x9c2c003c)
  {
  }

  lemma Values28()
    ensures Values(0xedffbff8, 0xc74c6516, 0x14383d8e, 0x77d37528, 0xb62ec4bc, 0xcde8037d,
                   0xe375bd7e, 0xd54c2516, 0xf963c20e, 0xf7ea453c)
    ensures Values(0x6112a3b7, 0xedffbff8, 0xc74c6516, 0x363482c9, 0x77d37528, 0xb62ec4bc,
                   0x2239b36a, 0xe75ee7b0, 0x89cfb5ce, 0x3636c4a8)
    ensures Values(0xade79437, 0x6112a3b7, 0xedffbff8, 0xa0060b30, 0x363482c9, 0x77d37528,
                   0xab883974, 0x611aabff, 0x69a8407c, 0x36160328)
    ensures Values(0x0109ab3a, 0xade79437, 0x6112a3b7, 0xea992a22, 0xa0060b30, 0x363482c9,
                   0x0b919a99, 0x611380b7, 0x8f1995eb, 0xa2140a20)
  {
  }

  lemma Constants24()
    ensures K(24) == 0x983e5152 && K(25) == 0xa831c66d && K(26) == 0xb00327c8 && K(27) == 0xbf597fc7
    ensures K(28) == 0xc6e00bf3 && K(29) == 0xd5a79147 && K(30) == 0x06ca6351 && K(31) == 0x14292967
  {
  }

  lemma Rounds24(m: seq<bv8>, w: seq<Word>)
    requires Scheduled(m, w)
    requires Words(w, 24, 0xc8215c1a, 0xb73679a2, 0xe5bc3909, 0x32663c5b, 0x9d209d67, 0xec8726cb, 0x702138a4,
        0xd3b7973b)
    requires Reached(m, 24, Regs(0xc5d53d8d, 0xa7a3623f, 0xc2606d6d, 0x9dc68b63, 0xaa47c347, 0x49f5114a,
        0xe1257970, 0x8ada8930))
    ensures Reached(m, 32, Regs(0x73b33bf5, 0xea992a22, 0xa0060b30, 0x363482c9, 0xba591112, 0x0109ab3a, 0xade79437,
        0x6112a3b7))
  {
    hide Scheduled, Reached, Values, K;
    Constants24();
    Values24();
    Values28();
    var r := Regs(0xc5d53d8d, 0xa7a3623f, 0xc2606d6d, 0x9dc68b63, 0xaa47c347, 0x49f5114a, 0xe1257970, 0x8ada8930);
    r := Next(m, w, 24, r, 0x55bdf420, 0x49653972, 0xc9ed56dd, 0xc7e16d2d, 0x983e5152, 0xc8215c1a, 3, 4,
        0x2823ef91, 0x1c2c2838);
    r := Next(m, w, 25, r, 0xa7724357, 0x69d7d34b, 0xf66b0b1f, 0x85a5283d, 0xa831c66d, 0xb73679a2, 4, 4,
        0x14383d8e, 0xcde8037d);
    r := Next(m, w, 26, r, 0x958ca0fb, 0xaa67efc1, 0xc89998a8, 0xcdec293d, 0xb00327c8, 0xe5bc3909, 3, 4,
        0xc74c6516, 0xb62ec4bc);
    r := Next(m, w, 27, r, 0x5ff7537b, 0x2c2baf87, 0xb37cf281, 0x9c2c003c, 0xbf597fc7, 0x32663c5b, 2, 3,
        0xedffbff8, 0x77d37528);
    r := Next(m, w, 28, r, 0xe375bd7e, 0xd54c2516, 0xf963c20e, 0xf7ea453c, 0xc6e00bf3, 0x9d209d67, 3, 5,
        0x6112a3b7, 0x363482c9);
    r := Next(m, w, 29, r, 0x2239b36a, 0xe75ee7b0, 0x89cfb5ce, 0x3636c4a8, 0xd5a79147, 0xec8726cb, 3, 3,
        0xade79437, 0xa0060b30);
    r := Next(m, w, 30, r, 0xab883974, 0x611aabff, 0x69a8407c, 0x36160328, 0x06ca6351, 0x702138a4, 3, 2,
        0x0109ab3a, 0xea992a22);
    r := Next(m, w, 31, r, 0x0b919a99, 0x611380b7, 0x8f1995eb, 0xa2140a20, 0x14292967, 0xd3b7973b, 2, 3,
        0xba591112, 0x73b33bf5);
  }

  lemma Values32()
    ensures Values(0xba591112, 0x0109ab3a, 0xade79437, 0x73b33bf5, 0xea992a22, 0xa0060b30,
                   0x4436a63b, 0x05af8537, 0x4fa886aa, 0xe2932b30)
    ensures Values(0x9cd9f5f6, 0xba591112, 0x0109ab3a, 0x98e12507, 0x73b33bf5, 0xea992a22,
                   0x085a07a7, 0x99591b1a, 0x4a90902b, 0xfab12b27)
    ensures Values(0x59249dd3, 0x9cd9f5f6, 0xba591112, 0xfe604df5, 0x98e12507, 0x73b33bf5,
                   0x65415f48, 0xba5995d2, 0x91003786, 0xfae12df5)
    ensures Values(0x085f3833, 0x59249dd3, 0x9cd9f5f6, 0xa9a7738c, 0xfe604df5, 0x98e12507,
                   0xe5dc6e83, 0x9c84ddd7, 0x2bc2a37e, 0xb8e16585)
  {
  }

  lemma Values36()
    ensures Values(0xf4b002d6, 0x085f3833, 0x59249dd3, 0x65a0cfe4, 0xa9a7738c, 0xfe604df5,
                   0x590d3d71, 0x09149d13, 0xe5748f69, 0xeda04fe4)
    ensures Values(0x0772a26b, 0xf4b002d6, 0x085f3833, 0x41a65cb1, 0x65a0cfe4, 0xa9a7738c,
                   0x582c115e, 0x0c3d1a52, 0x2c915f18, 0x61a65fa4)
    ensures Values(0xa507a53d, 0x0772a26b, 0xf4b002d6, 0x34df1604, 0x41a65cb1, 0x65a0cfe4,
                   0xd2f220b2, 0x55b2a2eb, 0xc14e73aa, 0x65a65ea4)
    ensures Values(0xf0781bc8, 0xa507a53d, 0x0772a26b, 0x6dc57a8a, 0x34df1604, 0x41a65cb1,
                   0x66d20b14, 0xa702a12b, 0x5ac8193e, 0x65c75e80)
  {
  }

  lemma Constants32()
    ensures K(32) == 0x27b70a85 && K(33) == 0x2e1b2138 && K(34) == 0x4d2c6dfc && K(35) == 0x53380d13
    ensures K(36) == 0x650a7354 && K(37) == 0x766a0abb && K(38) == 0x81c2c92e && K(39) == 0x92722c85
  {
  }

  lemma Rounds32(m: seq<bv8>, w: seq<Word>)
    requires Scheduled(m, w)
    requires Words(w, 32, 0x93f5997f, 0x3b68ba73, 0xaff4ffc1, 0xf10a5c62, 0x0a8b3996, 0x72af830a, 0x9409e33e,
        0x24641522)
    requires Reached(m, 32, Regs(0x73b33bf5, 0xea992a22, 0xa0060b30, 0x363482c9, 0xba591112, 0x0109ab3a,
        0xade79437, 0x6112a3b7))
    ensures Reached(m, 40, Regs(0x79ea687a, 0x6dc57a8a, 0x34df1604, 0x41a65cb1, 0x1efbc0a0, 0xf0781bc8, 0xa507a53d,
        0x0772a26b))
  {
    hide Scheduled, Reached, Values, K;
    Constants32();
    Values32();
    Values36();
    var r := Regs(0x73b33bf5, 0xea992a22, 0xa0060b30, 0x363482c9, 0xba591112, 0x0109ab3a, 0xade79437, 0x6112a3b7);
    r := Next(m, w, 32, r, 0x4436a63b, 0x05af8537, 0x4fa886aa, 0xe2932b30, 0x27b70a85, 0x93f5997f, 1, 2,
        0x9cd9f5f6, 0x98e12507);
    r := Next(m, w, 33, r, 0x085a07a7, 0x99591b1a, 0x4a90902b, 0xfab12b27, 0x2e1b2138, 0x3b68ba73, 2, 2,
        0x59249dd3, 0xfe604df5);
    r := Next(m, w, 34, r, 0x65415f48, 0xba5995d2, 0x91003786, 0xfae12df5, 0x4d2c6dfc, 0xaff4ffc1, 3, 3,
        0x085f3833, 0xa9a7738c);
    r := Next(m, w, 35, r, 0xe5dc6e83, 0x9c84ddd7, 0x2bc2a37e, 0xb8e16585, 0x53380d13, 0xf10a5c62, 3, 4,
        0xf4b002d6, 0x65a0cfe4);
    r := Next(m, w, 36, r, 0x590d3d71, 0x09149d13, 0xe5748f69, 0xeda04fe4, 0x650a7354, 0x0a8b3996, 2, 3,
        0x0772a26b, 0x41a65cb1);
    r := Next(m, w, 37, r, 0x582c115e, 0x0c3d1a52, 0x2c915f18, 0x61a65fa4, 0x766a0abb, 0x72af830a, 2, 2,
        0xa507a53d, 0x34df1604);
    r := Next(m, w, 38, r, 0xd2f220b2, 0x55b2a2eb, 0xc14e73aa, 0x65a65ea4, 0x81c2c92e, 0x9409e33e, 2, 3,
        0xf0781bc8, 0x6dc57a8a);
    r := Next(m, w, 39, r, 0x66d20b14, 0xa702a12b, 0x5ac8193e, 0x65c75e80, 0x92722c85, 0x24641522, 3, 3,
        0x1efbc0a0, 0x79ea687a);
  }

  lemma Values40()
    ensures Values(0x1efbc0a0, 0xf0781bc8, 0xa507a53d, 0x79ea687a, 0x6dc57a8a, 0x34df1604,
                   0xe9986075, 0xb17c259d, 0x7408bcaa, 0x7dcf7a0a)
    ensures Values(0x26352d63, 0x1efbc0a0, 0xf0781bc8, 0xd6670766, 0x79ea687a, 0x6dc57a8a,
                   0x3a6aa383, 0xd67912a8, 0x12b2e9b8, 0x7de76a6a)
    ensures Values(0x838b2711, 0x26352d63, 0x1efbc0a0, 0xdf46652f, 0xd6670766, 0x79ea687a,
                   0x61add539, 0x1e71e5a1, 0xc73bdc05, 0xdf66656e)
    ensures Values(0xdecd4715, 0x838b2711, 0x26352d63, 0x17aa0dfe, 0xdf46652f, 0xd6670766,
                   0xd363665b, 0xa2b92f73, 0x422dc671, 0xd766056e)
  {
  }

  lemma Values44()
    ensures Values(0xfda24c2e, 0xdecd4715, 0x838b2711, 0x9d4baf93, 0x17aa0dfe, 0xdf46652f,
                   0xef0f2a07, 0xde896715, 0xb5704fcc, 0x9f4a2dbf)
    ensures Values(0xa80f11f0, 0xfda24c2e, 0xdecd4715, 0x26628815, 0x9d4baf93, 0x17aa0dfe,
                   0xfb3dc5f1, 0xfec24625, 0x8311c588, 0x176a8d97)
    ensures Values(0xb7755da1, 0xa80f11f0, 0xfda24c2e, 0x72ab4b91, 0x26628815, 0x9d4baf93,
                   0x8845eb06, 0xe88711ae, 0xad0f0274, 0x366b8b91)
    ensures Values(0xd57b94a9, 0xb7755da1, 0xa80f11f0, 0xa14c14b0, 0x72ab4b91, 0x26628815,
                   0x8fa515ca, 0xbd7515f1, 0xbd84cdc9, 0x226a0891)
  {
  }

  lemma Constants40()
    ensures K(40) == 0xa2bfe8a1 && K(41) == 0xa81a664b && K(42) == 0xc24b8b70 && K(43) == 0xc76c51a3
    ensures K(44) == 0xd192e819 && K(45) == 0xd6990624 && K(46) == 0xf40e3585 && K(47) == 0x106aa070
  {
  }

  lemma Rounds40(m: seq<bv8>, w: seq<Word>)
    requires Scheduled(m, w)
    requires Words(w, 40, 0x9f47bf94, 0xf0a64f5a, 0x3e246a79, 0x27333ba3, 0x0c4763f2, 0x840abf27, 0x7a290d5d,
        0x065c43da)
    requires Reached(m, 40, Regs(0x79ea687a, 0x6dc57a8a, 0x34df1604, 0x41a65cb1, 0x1efbc0a0, 0xf0781bc8,
        0xa507a53d, 0x0772a26b))
    ensures Reached(m, 48, Regs(0x4172328d, 0xa14c14b0, 0x72ab4b91, 0x26628815, 0xfecf0bc6, 0xd57b94a9, 0xb7755da1,
        0xa80f11f0))
  {
    hide Scheduled, Reached, Values, K;
    Constants40();
    Values40();
    Values44();
    var r := Regs(0x79ea687a, 0x6dc57a8a, 0x34df1604, 0x41a65cb1, 0x1efbc0a0, 0xf0781bc8, 0xa507a53d, 0x0772a26b);
    r := Next(m, w, 40, r, 0xe9986075, 0xb17c259d, 0x7408bcaa, 0x7dcf7a0a, 0xa2bfe8a1, 0x9f47bf94, 3, 3,
        0x26352d63, 0xd6670766);
    r := Next(m, w, 41, r, 0x3a6aa383, 0xd67912a8, 0x12b2e9b8, 0x7de76a6a, 0xa81a664b, 0xf0a64f5a, 3, 3,
        0x838b2711, 0xdf46652f);
    r := Next(m, w, 42, r, 0x61add539, 0x1e71e5a1, 0xc73bdc05, 0xdf66656e, 0xc24b8b70, 0x3e246a79, 2, 4,
        0xdecd4715, 0x17aa0dfe);
    r := Next(m, w, 43, r, 0xd363665b, 0xa2b92f73, 0x422dc671, 0xd766056e, 0xc76c51a3, 0x27333ba3, 2, 3,
        0xfda24c2e, 0x9d4baf93);
    r := Next(m, w, 44, r, 0xef0f2a07, 0xde896715, 0xb5704fcc, 0x9f4a2dbf, 0xd192e819, 0x0c4763f2, 3, 4,
        0xa80f11f0, 0x26628815);
    r := Next(m, w, 45, r, 0xfb3dc5f1, 0xfec24625, 0x8311c588, 0x176a8d97, 0xd6990624, 0x840abf27, 4, 4,
        0xb7755da1, 0x72ab4b91);
    r := Next(m, w, 46, r, 0x8845eb06, 0xe88711ae, 0xad0f0274, 0x366b8b91, 0xf40e3585, 0x7a290d5d, 3, 4,
        0xd57b94a9, 0xa14c14b0);
    r := Next(m, w, 47, r, 0x8fa515ca, 0xbd7515f1, 0xbd84cdc9, 0x226a0891, 0x106aa070, 0x065c43da, 2, 3,
        0xfecf0bc6, 0x4172328d);
  }

  lemma Values48()
    ensures Values(0xfecf0bc6, 0xd57b94a9, 0xb7755da1, 0x4172328d, 0xa14c14b0, 0x72ab4b91,
                   0x04a106b1, 0xd57b54a1, 0x0cfcb237, 0x616a1291)
    ensures Values(0xbd714038, 0xfecf0bc6, 0xd57b94a9, 0x05757ceb, 0x4172328d, 0xa14c14b0,
                   0x5d427776, 0xfc4b9481, 0xf3f6d884, 0x017434a9)
    ensures Values(0x6e5c390c, 0xbd714038, 0xfecf0bc6, 0xf11bfaa8, 0x05757ceb, 0x4172328d,
                   0x3e283d54, 0xbcd302ca, 0x86ebd5b1, 0x41737aa9)
    ensures Values(0x52f1ccf7, 0x6e5c390c, 0xbd714038, 0x7a0508a1, 0xf11bfaa8, 0x05757ceb,
                   0x3b47e2a3, 0xef50080c, 0x0fa817e8, 0x711578a9)
  {
  }

  lemma Values52()
    ensures Values(0x49231c1e, 0x52f1ccf7, 0x6e5c390c, 0x886e7a22, 0x7a0508a1, 0xf11bfaa8,
                   0x6b63a737, 0x667d2d16, 0xcae757da, 0xf80f7aa0)
    ensures Values(0x529e7d00, 0x49231c1e, 0x52f1ccf7, 0x101fd28f, 0x886e7a22, 0x7a0508a1,
                   0xee7eaa12, 0x40639cf7, 0x2f35481d, 0x180f5aa3)
    ensures Values(0x9f4787c3, 0x529e7d00, 0x49231c1e, 0xf5702fdb, 0x101fd28f, 0x886e7a22,
                   0x55cd1720, 0x52261d1c, 0x433ccfa2, 0x907e7a8b)
    ensures Values(0xe50e1b4f, 0x9f4787c3, 0x529e7d00, 0x3ec45cdb, 0xf5702fdb, 0x101fd28f,
                   0xd1653e5c, 0x97966743, 0x381b8def, 0x34545edb)
  {
  }

  lemma Constants48()
    ensures K(48) == 0x19a4c116 && K(49) == 0x1e376c08 && K(50) == 0x2748774c && K(51) == 0x34b0bcb5
    ensures K(52) == 0x391c0cb3 && K(53) == 0x4ed8aa4a && K(54) == 0x5b9cca4f && K(55) == 0x682e6ff3
  {
  }

  lemma Rounds48(m: seq<bv8>, w: seq<Word>)
    requires Scheduled(m, w)
    requires Words(w, 48, 0xfb3e89cb, 0xcc7617db, 0xb9e66c34, 0xa9993667, 0x84badedd, 0xc21462bc, 0x1487472c,
        0xb20f7a99)
    requires Reached(m, 48, Regs(0x4172328d, 0xa14c14b0, 0x72ab4b91, 0x26628815, 0xfecf0bc6, 0xd57b94a9,
        0xb7755da1, 0xa80f11f0))
    ensures Reached(m, 56, Regs(0x38cc9913, 0x3ec45cdb, 0xf5702fdb, 0x101fd28f, 0x54cb266b, 0xe50e1b4f, 0x9f4787c3,
        0x529e7d00))
  {
    hide Scheduled, Reached, Values, K;
    Constants48();
    Values48();
    Values52();
    var r := Regs(0x4172328d, 0xa14c14b0, 0x72ab4b91, 0x26628815, 0xfecf0bc6, 0xd57b94a9, 0xb7755da1, 0xa80f11f0);
    r := Next(m, w, 48, r, 0x04a106b1, 0xd57b54a1, 0x0cfcb237, 0x616a1291, 0x19a4c116, 0xfb3e89cb, 2, 3,
        0xbd714038, 0x05757ceb);
    r := Next(m, w, 49, r, 0x5d427776, 0xfc4b9481, 0xf3f6d884, 0x017434a9, 0x1e376c08, 0xcc7617db, 3, 3,
        0x6e5c390c, 0xf11bfaa8);
    r := Next(m, w, 50, r, 0x3e283d54, 0xbcd302ca, 0x86ebd5b1, 0x41737aa9, 0x2748774c, 0xb9e66c34, 3, 3,
        0x52f1ccf7, 0x7a0508a1);
    r := Next(m, w, 51, r, 0x3b47e2a3, 0xef50080c, 0x0fa817e8, 0x711578a9, 0x34b0bcb5, 0xa9993667, 3, 3,
        0x49231c1e, 0x886e7a22);
    r := Next(m, w, 52, r, 0x6b63a737, 0x667d2d16, 0xcae757da, 0xf80f7aa0, 0x391c0cb3, 0x84badedd, 2, 4,
        0x529e7d00, 0x101fd28f);
    r := Next(m, w, 53, r, 0xee7eaa12, 0x40639cf7, 0x2f35481d, 0x180f5aa3, 0x4ed8aa4a, 0xc21462bc, 3, 2,
        0x9f4787c3, 0xf5702fdb);
    r := Next(m, w, 54, r, 0x55cd1720, 0x52261d1c, 0x433ccfa2, 0x907e7a8b, 0x5b9cca4f, 0x1487472c, 1, 2,
        0xe50e1b4f, 0x3ec45cdb);
    r := Next(m, w, 55, r, 0xd1653e5c, 0x97966743, 0x381b8def, 0x34545edb, 0x682e6ff3, 0xb20f7a99, 3, 3,
        0x54cb266b, 0x38cc9913);
  }

  lemma Values56()
    ensures Values(0x54cb266b, 0xe50e1b4f, 0x9f4787c3, 0x38cc9913, 0x3ec45cdb, 0xf5702fdb,
                   0x05aa8057, 0xcf0e83cb, 0x34ceacc3, 0x3cc41ddb)
    ensures Values(0x9b5e906c, 0x54cb266b, 0xe50e1b4f, 0xfcd1887b, 0x38cc9913, 0x3ec45cdb,
                   0x10b627de, 0x744a0b6b, 0xfaca6b61, 0x3cc4985b)
    ensures Values(0x7e44008e, 0x9b5e906c, 0x54cb266b, 0xc062d46f, 0xfcd1887b, 0x38cc9913,
                   0x0a369fbd, 0x1acf266d, 0xd837090c, 0xf8c0987b)
    ensures Values(0x6d83bfc6, 0x7e44008e, 0x9b5e906c, 0xffb70472, 0xc062d46f, 0xfcd1887b,
                   0x20a45dbe, 0xfe5c00ae, 0x406bf75a, 0xfcf3847b)
  {
  }

  lemma Values60()
    ensures Values(0xb21bad3d, 0x6d83bfc6, 0x7e44008e, 0xb6ae8fff, 0xffb70472, 0xc062d46f,
                   0x5ca8b318, 0x6c47ad86, 0x2869e851, 0xf6a6847f)
    ensures Values(0x961f4894, 0xb21bad3d, 0x6d83bfc6, 0xb85e2ce9, 0xb6ae8fff, 0xffb70472,
                   0x4f6ef480, 0xfb9bbf56, 0x71e9ef2a, 0xbebe0cfb)
    ensures Values(0x948d25b6, 0x961f4894, 0xb21bad3d, 0x04d24d6c, 0xb85e2ce9, 0xb6ae8fff,
                   0x2a127e78, 0xb61f889d, 0x236105da, 0xb4de0ded)
    ensures Values(0xfb121210, 0x948d25b6, 0x961f4894, 0xd39a2165, 0x04d24d6c, 0xb85e2ce9,
                   0x88fa2277, 0x940d4894, 0x174d83c6, 0x90da2d6d)
  {
  }

  lemma Constants56()
    ensures K(56) == 0x748f82ee && K(57) == 0x78a5636f && K(58) == 0x84c87814 && K(59) == 0x8cc70208
    ensures K(60) == 0x90befffa && K(61) == 0xa4506ceb && K(62) == 0xbef9a3f7 && K(63) == 0xc67178f2
  {
  }

  lemma Rounds56(m: seq<bv8>, w: seq<Word>)
    requires Scheduled(m, w)
    requires Words(w, 56, 0xef57b9cd, 0xebe6b238, 0x9fe3095e, 0x78bc8d4b, 0xa43fcf15, 0x668b2ff8, 0xeeaba2cc,
        0x12b1edeb)
    requires Reached(m, 56, Regs(0x38cc9913, 0x3ec45cdb, 0xf5702fdb, 0x101fd28f, 0x54cb266b, 0xe50e1b4f,
        0x9f4787c3, 0x529e7d00))
    ensures Reached(m, 64, Regs(0x506e3058, 0xd39a2165, 0x04d24d6c, 0xb85e2ce9, 0x5ef50f24, 0xfb121210, 0x948d25b6,
        0x961f4894))
  {
    hide Scheduled, Reached, Values, K;
    Constants56();
    Values56();
    Values60();
    var r := Regs(0x38cc9913, 0x3ec45cdb, 0xf5702fdb, 0x101fd28f, 0x54cb266b, 0xe50e1b4f, 0x9f4787c3, 0x529e7d00);
    r := Next(m, w, 56, r, 0x05aa8057, 0xcf0e83cb, 0x34ceacc3, 0x3cc41ddb, 0x748f82ee, 0xef57b9cd, 2, 2,
        0x9b5e906c, 0xfcd1887b);
    r := Next(m, w, 57, r, 0x10b627de, 0x744a0b6b, 0xfaca6b61, 0x3cc4985b, 0x78a5636f, 0xebe6b238, 3, 3,
        0x7e44008e, 0xc062d46f);
    r := Next(m, w, 58, r, 0x0a369fbd, 0x1acf266d, 0xd837090c, 0xf8c0987b, 0x84c87814, 0x9fe3095e, 2, 3,
        0x6d83bfc6, 0xffb70472);
    r := Next(m, w, 59, r, 0x20a45dbe, 0xfe5c00ae, 0x406bf75a, 0xfcf3847b, 0x8cc70208, 0x78bc8d4b, 2, 3,
        0xb21bad3d, 0xb6ae8fff);
    r := Next(m, w, 60, r, 0x5ca8b318, 0x6c47ad86, 0x2869e851, 0xf6a6847f, 0x90befffa, 0xa43fcf15, 3, 3,
        0x961f4894, 0xb85e2ce9);
    r := Next(m, w, 61, r, 0x4f6ef480, 0xfb9bbf56, 0x71e9ef2a, 0xbebe0cfb, 0xa4506ceb, 0x668b2ff8, 3, 4,
        0x948d25b6, 0x04d24d6c);
    r := Next(m, w, 62, r, 0x2a127e78, 0xb61f889d, 0x236105da, 0xb4de0ded, 0xbef9a3f7, 0xeeaba2cc, 3, 3,
        0xfb121210, 0xd39a2165);
    r := Next(m, w, 63, r, 0x88fa2277, 0x940d4894, 0x174d83c6, 0x90da2d6d, 0xc67178f2, 0x12b1edeb, 3, 3,
        0x5ef50f24, 0x506e3058);
  }

  lemma AbcRounds(b: seq<bv8>)
    requires |b| == 64 && IsAbc(b)
    ensures Reached(b, 64, Regs(0x506e3058, 0xd39a2165, 0x04d24d6c, 0xb85e2ce9, 0x5ef50f24, 0xfb121210, 0x948d25b6,
        0x961f4894))
  {
    hide Scheduled, Reached, Words, IsAbc;
    var w := ScheduleOf(b);
    FirstSixteen(b, w);
    Words16(b, w);
    Words24(b, w);
    Words32(b, w);
    Words40(b, w);
    Words48(b, w);
    Words56(b, w);
    Start(b);
    Rounds0(b, w);
    Rounds8(b, w);
    Rounds16(b, w);
    Rounds24(b, w);
    Rounds32(b, w);
    Rounds40(b, w);
    Rounds48(b, w);
    Rounds56(b, w);
  }

  lemma Start(b: seq<bv8>)
    requires |b| == 64
    ensures Reached(b, 0, Regs(0x6a09e667, 0xbb67ae85, 0x3c6ef372, 0xa54ff53a, 0x510e527f, 0x9b05688c, 0x1f83d9ab,
        0x5be0cd19))
  {
    NoSteps(Initial(), b);
  }

  lemma ScheduleOf(b: seq<bv8>) returns (w: seq<Word>)
    requires |b| == 64
    ensures |w| == 64 && Scheduled(b, w)
  {
    hide W;
    w := seq(64, t requires 0 <= t < 64 => W(b, t));
  }

  lemma AbcState(b: seq<bv8>, r: Regs)
    requires |b| == 64 && IsAbc(b) && r == Initial()
    ensures Compress(r, b) == Regs(0xba7816bf, 0x8f01cfea, 0x414140de, 0x5dae2223, 0xb00361a3, 0x96177a9c,
        0xb410ff61, 0xf20015ad)
  {
    hide Steps, IsAbc;
    AbcRounds(b);
  }

  lemma OneBlock(r: Regs, b: seq<bv8>)
    requires |b| == 64
    ensures Absorb(Compressor(), r, b) == Compress(r, b)
  {
    hide Compress;
    CompressorIs(r, b);
    AbsorbBlock(Compressor(), r, [], b);
    assert [] + b == b;
  }

  lemma PaddedAbc(m: seq<bv8>)
    requires m == [0x61, 0x62, 0x63]
    ensures |Pad(m)| == 64 && IsAbc(Pad(m))
  {
    hide LengthBE;
    var p := Pad(m);
    LengthOfAbc();
    assert p == m + ([0x80] + Zeros(52) + LengthBE(24));
  }

  lemma LengthOfAbc()
    ensures LengthBE(24) == [0, 0, 0, 0, 0, 0, 0, 0x18]
  {
    hide ByteAt;
    SmallByte(24, 0x100_0000_0000_0000, 0);
    SmallByte(24, 0x1_0000_0000_0000, 0);
    SmallByte(24, 0x100_0000_0000, 0);
    SmallByte(24, 0x1_0000_0000, 0);
    SmallByte(24, 0x100_0000, 0);
    SmallByte(24, 0x1_0000, 0);
    SmallByte(24, 0x100, 0);
    SmallByte(24, 1, 0x18);
  }

  /** SHA-256 of "abc" is ba7816bf 8f01cfea 414140de 5dae2223 b00361a3 96177a9c b410ff61 f20015ad. */
  lemma KnownAnswer(m: seq<bv8>)
    requires m == [0x61, 0x62, 0x63]
    ensures var d := Hash(m);
      && NumberAt(d, 0) == 0xba7816bf && NumberAt(d, 4) == 0x8f01cfea && NumberAt(d,
          8) == 0x414140de && NumberAt(d, 12) == 0x5dae2223
      && NumberAt(d, 16) == 0xb00361a3 && NumberAt(d, 20) == 0x96177a9c && NumberAt(d,
          24) == 0xb410ff61 && NumberAt(d, 28) == 0xf20015ad
  {
    hide Initial, Compress, Pad, IsAbc, Absorb, Compressor, RegsBytes, NumberAt;
    PaddedAbc(m);
    AbcState(Pad(m), Initial());
    OneBlock(Initial(), Pad(m));
    DigestNumbers(Compress(Initial(), Pad(m)));
  }
}
