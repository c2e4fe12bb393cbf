/** The SHA-256 compression function of sha256.c:52-168 against section 6.2.2 of FIPS 180-4.

    The C code keeps only 16 words of the 64-word schedule, overwrites them in place, renames
    the eight registers instead of moving them, and drops the last two stores. */
module Sha256 {

  type Word = bv32

  // ----- the functions of the code -----

  function Ch(x: Word, y: Word, z: Word): Word { z ^ (x & (y ^ z)) }

  function Maj(x: Word, y: Word, z: Word): Word { (x & y) | (z & (x | y)) }

  function Sigma0Big(x: Word): Word { ((x >> 2) | (x << 30)) ^ ((x >> 13) | (x << 19)) ^ ((x >> 22) | (x << 10)) }

  function Sigma1Big(x: Word): Word { ((x >> 6) | (x << 26)) ^ ((x >> 11) | (x << 21)) ^ ((x >> 25) | (x << 7)) }

  function Sigma0Small(x: Word): Word { ((x >> 7) | (x << 25)) ^ ((x >> 18) | (x << 14)) ^ (x >> 3) }

  function Sigma1Small(x: Word): Word { ((x >> 17) | (x << 15)) ^ ((x >> 19) | (x << 13)) ^ (x >> 10) }

  // ----- the standard, sections 4.1.2, 4.2.2 and 6.2.2 -----

  function SpecCh(x: Word, y: Word, z: Word): Word { (x & y) ^ (!x & z) }

  function SpecMaj(x: Word, y: Word, z: Word): Word { (x & y) ^ (x & z) ^ (y & z) }

  function SpecSigma0Big(x: Word): Word { x.RotateRight(2) ^ x.RotateRight(13) ^ x.RotateRight(22) }

  function SpecSigma1Big(x: Word): Word { x.RotateRight(6) ^ x.RotateRight(11) ^ x.RotateRight(25) }

  function SpecSigma0Small(x: Word): Word { x.RotateRight(7) ^ x.RotateRight(18) ^ (x >> 3) }

  function SpecSigma1Small(x: Word): Word { x.RotateRight(17) ^ x.RotateRight(19) ^ (x >> 10) }

  lemma AndOverXor(x: Word, y: Word, z: Word)
    ensures x & (y ^ z) == (x & y) ^ (x & z)
  {
  }

  lemma XorOverAnd(x: Word, y: Word, z: Word)
    ensures z & (x ^ y) == (x & z) ^ (y & z)
  {
  }

  lemma XorAnd(x: Word, z: Word)
    ensures z ^ (x & z) == !x & z
  {
  }

  lemma XorReorder(p: Word, q: Word, z: Word)
    ensures z ^ (p ^ q) == p ^ (z ^ q)
  {
  }

  lemma OrAsXor(x: Word, y: Word, z: Word)
    ensures (x & y) | (z & (x | y)) == (x & y) ^ (z & (x ^ y))
  {
  }

  lemma XorSplit(p: Word, s: Word, u: Word, v: Word)
    requires s == u ^ v
    ensures p ^ s == p ^ u ^ v
  {
  }

  /** The code's rewritten Ch is the standard's. */
  lemma ChRewritten(x: Word, y: Word, z: Word)
    ensures Ch(x, y, z) == SpecCh(x, y, z)
  {
    AndOverXor(x, y, z);
    XorAnd(x, z);
    XorReorder(x & y, x & z, z);
  }

  function MajMiddle(x: Word, y: Word, z: Word): Word { (x & y) ^ (z & (x ^ y)) }

  lemma MajFirst(x: Word, y: Word, z: Word)
    ensures Maj(x, y, z) == MajMiddle(x, y, z)
  {
    OrAsXor(x, y, z);
  }

  lemma MajSecond(x: Word, y: Word, z: Word)
    ensures MajMiddle(x, y, z) == SpecMaj(x, y, z)
  {
    XorOverAnd(x, y, z);
    XorSplit(x & y, z & (x ^ y), x & z, y & z);
  }

  /** The code's rewritten Maj is the standard's. */
  lemma MajRewritten(x: Word, y: Word, z: Word)
    ensures Maj(x, y, z) == SpecMaj(x, y, z)
  {
    hide *;
    MajFirst(x, y, z);
    MajSecond(x, y, z);
  }

  /** Shifting both ways and joining is rotating. */
  lemma Rotations(x: Word)
    ensures Sigma0Big(x) == SpecSigma0Big(x)
    ensures Sigma1Big(x) == SpecSigma1Big(x)
    ensures Sigma0Small(x) == SpecSigma0Small(x)
    ensures Sigma1Small(x) == SpecSigma1Small(x)
  {
  }

  /** Addition modulo 2^32.  Named, so that proofs about the order of rounds need not look at bits. */
  function Add(x: Word, y: Word): Word { x + y }

  lemma AddCommutes(x: Word, y: Word)
    ensures Add(x, y) == Add(y, x)
  {
  }

  const K0: seq<Word> := [
    0x428a2f98, 0x71374491, 0xb5c0fbcf, 0xe9b5dba5, 0x3956c25b, 0x59f111f1, 0x923f82a4, 0xab1c5ed5,
    0xd807aa98, 0x12835b01, 0x243185be, 0x550c7dc3, 0x72be5d74, 0x80deb1fe, 0x9bdc06a7, 0xc19bf174
  ]

  const K1: seq<Word> := [
    0xe49b69c1, 0xefbe4786, 0x0fc19dc6, 0x240ca1cc, 0x2de92c6f, 0x4a7484aa, 0x5cb0a9dc, 0x76f988da,
    0x983e5152, 0xa831c66d, 0xb00327c8, 0xbf597fc7, 0xc6e00bf3, 0xd5a79147, 0x06ca6351, 0x14292967
  ]

  const K2: seq<Word> := [
    0x27b70a85, 0x2e1b2138, 0x4d2c6dfc, 0x53380d13, 0x650a7354, 0x766a0abb, 0x81c2c92e, 0x92722c85,
    0xa2bfe8a1, 0xa81a664b, 0xc24b8b70, 0xc76c51a3, 0xd192e819, 0xd6990624, 0xf40e3585, 0x106aa070
  ]

  const K3: seq<Word> := [
    0x19a4c116, 0x1e376c08, 0x2748774c, 0x34b0bcb5, 0x391c0cb3, 0x4ed8aa4a, 0x5b9cca4f, 0x682e6ff3,
    0x748f82ee, 0x78a5636f, 0x84c87814, 0x8cc70208, 0x90befffa, 0xa4506ceb, 0xbef9a3f7, 0xc67178f2
  ]

  function K(t: nat): Word
    requires t < 64
  {
    if t < 16 then K0[t] else if t < 32 then K1[t - 16] else if t < 48 then K2[t - 32] else K3[t - 48]
  }

  datatype Regs = Regs(a: Word, b: Word, c: Word, d: Word, e: Word, f: Word, g: Word, h: Word)

  /** The message schedule of 64 words. */
  function W(block: seq<Word>, t: nat): Word
    requires |block| == 16 && t < 64
  {
    if t < 16 then block[t]
    else Add(Add(Add(SpecSigma1Small(W(block, t - 2)), W(block, t - 7)), SpecSigma0Small(W(block, t - 15))),
      W(block, t - 16))
  }

  /** Step 3 of section 6.2.2. */
  function SpecRound(r: Regs, k: Word, w: Word): Regs
  {
    var t1 := Add(Add(Add(Add(r.h, SpecSigma1Big(r.e)), SpecCh(r.e, r.f, r.g)), k), w);
    var t2 := Add(SpecSigma0Big(r.a), SpecMaj(r.a, r.b, r.c));
    Regs(Add(t1, t2), r.a, r.b, r.c, Add(r.d, t1), r.e, r.f, r.g)
  }

  /** The working variables after t rounds. */
  function Rounds(s: Regs, block: seq<Word>, t: nat): Regs
    requires |block| == 16 && t <= 64
  {
    if t == 0 then s else SpecRound(Rounds(s, block, t - 1), K(t - 1), W(block, t - 1))
  }

  /** The compression of one block: step 4 adds the working variables to the hash value. */
  function Compress(s: Regs, block: seq<Word>): Regs
    requires |block| == 16
  {
    var r := Rounds(s, block, 64);
    Regs(Add(s.a, r.a), Add(s.b, r.b), Add(s.c, r.c), Add(s.d, r.d), Add(s.e, r.e), Add(s.f, r.f), Add(s.g, r.g),
      Add(s.h, r.h))
  }

  // ----- the code -----

  lemma Next(s: Regs, block: seq<Word>, t: nat)
    requires |block| == 16 && t < 64
    ensures Rounds(s, block, t + 1) == SpecRound(Rounds(s, block, t), K(t), W(block, t))
  {
  }

  lemma Extend(block: seq<Word>, t: nat)
    requires |block| == 16 && 16 <= t < 64
    ensures Add(W(block, t - 16), Extension(W(block, t - 2), W(block, t - 7), W(block, t - 15))) == W(block, t)
  {
    Rotations(W(block, t - 2));
    Rotations(W(block, t - 15));
    hide Sigma0Small, Sigma1Small, SpecSigma0Small, SpecSigma1Small, Add;
    AddCommutes(W(block, t - 16), Extension(W(block, t - 2), W(block, t - 7), W(block, t - 15)));
  }

  /** What the code adds to a word 16 rounds old. */
  function Extension(w2: Word, w7: Word, w15: Word): Word
  {
    Add(Add(Sigma1Small(w2), w7), Sigma0Small(w15))
  }

  /** `Round`: two of the eight registers change. */
  method Round(a: Word, b: Word, c: Word, d: Word, e: Word, f: Word, g: Word, h: Word, k: Word, w: Word)
    returns (d': Word, h': Word)
    ensures Regs(h', a, b, c, d', e, f, g) == SpecRound(Regs(a, b, c, d, e, f, g, h), k, w)
  {
    hide *;
    var t1 := Add(Add(Add(Add(h, Sigma1Big(e)), Ch(e, f, g)), k), w);
    var t2 := Add(Sigma0Big(a), Maj(a, b, c));
    d' := Add(d, t1);
    h' := Add(t1, t2);
    RoundStep(Regs(a, b, c, d, e, f, g, h), k, w);
  }

  lemma RoundStep(r: Regs, k: Word, w: Word)
    ensures var t1 := Add(Add(Add(Add(r.h, Sigma1Big(r.e)), Ch(r.e, r.f, r.g)), k), w);
            var t2 := Add(Sigma0Big(r.a), Maj(r.a, r.b, r.c));
            Regs(Add(t1, t2), r.a, r.b, r.c, Add(r.d, t1), r.e, r.f, r.g) == SpecRound(r, k, w)
  {
    ChRewritten(r.e, r.f, r.g);
    MajRewritten(r.a, r.b, r.c);
    Rotations(r.e);
    Rotations(r.a);
    hide Ch, Maj, SpecCh, SpecMaj, Sigma0Big, Sigma1Big, SpecSigma0Big, SpecSigma1Big, Add,
      Sigma0Small, Sigma1Small, SpecSigma0Small, SpecSigma1Small;
  }

  lemma KValues0()
    ensures K(0) == 0x428a2f98 && K(1) == 0x71374491 && K(2) == 0xb5c0fbcf && K(3) == 0xe9b5dba5 &&
      K(4) == 0x3956c25b && K(5) == 0x59f111f1 && K(6) == 0x923f82a4 && K(7) == 0xab1c5ed5
  {
  }

  lemma KValues8()
    ensures K(8) == 0xd807aa98 && K(9) == 0x12835b01 && K(10) == 0x243185be && K(11) == 0x550c7dc3 &&
      K(12) == 0x72be5d74 && K(13) == 0x80deb1fe && K(14) == 0x9bdc06a7 && K(15) == 0xc19bf174
  {
  }

  lemma KValues16()
    ensures K(16) == 0xe49b69c1 && K(17) == 0xefbe4786 && K(18) == 0x0fc19dc6 && K(19) == 0x240ca1cc &&
      K(20) == 0x2de92c6f && K(21) == 0x4a7484aa && K(22) == 0x5cb0a9dc && K(23) == 0x76f988da
  {
  }

  lemma KValues24()
    ensures K(24) == 0x983e5152 && K(25) == 0xa831c66d && K(26) == 0xb00327c8 && K(27) == 0xbf597fc7 &&
      K(28) == 0xc6e00bf3 && K(29) == 0xd5a79147 && K(30) == 0x06ca6351 && K(31) == 0x14292967
  {
  }

  lemma KValues32()
    ensures K(32) == 0x27b70a85 && K(33) == 0x2e1b2138 && K(34) == 0x4d2c6dfc && K(35) == 0x53380d13 &&
      K(36) == 0x650a7354 && K(37) == 0x766a0abb && K(38) == 0x81c2c92e && K(39) == 0x92722c85
  {
  }

  lemma KValues40()
    ensures K(40) == 0xa2bfe8a1 && K(41) == 0xa81a664b && K(42) == 0xc24b8b70 && K(43) == 0xc76c51a3 &&
      K(44) == 0xd192e819 && K(45) == 0xd6990624 && K(46) == 0xf40e3585 && K(47) == 0x106aa070
  {
  }

  lemma KValues48()
    ensures K(48) == 0x19a4c116 && K(49) == 0x1e376c08 && K(50) == 0x2748774c && K(51) == 0x34b0bcb5 &&
      K(52) == 0x391c0cb3 && K(53) == 0x4ed8aa4a && K(54) == 0x5b9cca4f && K(55) == 0x682e6ff3
  {
  }

  lemma KValues56()
    ensures K(56) == 0x748f82ee && K(57) == 0x78a5636f && K(58) == 0x84c87814 && K(59) == 0x8cc70208 &&
      K(60) == 0x90befffa && K(61) == 0xa4506ceb && K(62) == 0xbef9a3f7 && K(63) == 0xc67178f2
  {
  }

  lemma Words(block: seq<Word>)
    requires |block| == 16
    ensures forall t :: 0 <= t < 16 ==> W(block, t) == block[t]
  {
  }

  /** sha256.c:92-99: the words of the block itself. */
  method FirstRounds0(ghost s: Regs, block: seq<Word>, a0: Word, b0: Word, c0: Word, d0: Word, e0: Word, f0: Word,
      g0: Word, h0: Word)
    returns (a: Word, b: Word, c: Word, d: Word, e: Word, f: Word, g: Word, h: Word, w0: Word, w1: Word, w2: Word,
      w3: Word, w4: Word, w5: Word, w6: Word, w7: Word)
    requires |block| == 16 && Regs(a0, b0, c0, d0, e0, f0, g0, h0) == Rounds(s, block, 0)
    ensures Regs(a, b, c, d, e, f, g, h) == Rounds(s, block, 8)
    ensures w0 == W(block, 0) && w1 == W(block, 1) && w2 == W(block, 2) && w3 == W(block, 3) && w4 == W(block, 4) &&
      w5 == W(block, 5) && w6 == W(block, 6) && w7 == W(block, 7)
  {
    Words(block);
    hide *;
    KValues0();
    a, b, c, d, e, f, g, h := a0, b0, c0, d0, e0, f0, g0, h0;
    w0 := block[0];
    d, h := Round(a, b, c, d, e, f, g, h, 0x428a2f98, w0);
    Next(s, block, 0);
    w1 := block[1];
    c, g := Round(h, a, b, c, d, e, f, g, 0x71374491, w1);
    Next(s, block, 1);
    w2 := block[2];
    b, f := Round(g, h, a, b, c, d, e, f, 0xb5c0fbcf, w2);
    Next(s, block, 2);
    w3 := block[3];
    a, e := Round(f, g, h, a, b, c, d, e, 0xe9b5dba5, w3);
    Next(s, block, 3);
    w4 := block[4];
    h, d := Round(e, f, g, h, a, b, c, d, 0x3956c25b, w4);
    Next(s, block, 4);
    w5 := block[5];
    g, c := Round(d, e, f, g, h, a, b, c, 0x59f111f1, w5);
    Next(s, block, 5);
    w6 := block[6];
    f, b := Round(c, d, e, f, g, h, a, b, 0x923f82a4, w6);
    Next(s, block, 6);
    w7 := block[7];
    e, a := Round(b, c, d, e, f, g, h, a, 0xab1c5ed5, w7);
    Next(s, block, 7);
  }

  /** sha256.c:100-107: the words of the block itself. */
  method FirstRounds8(ghost s: Regs, block: seq<Word>, a0: Word, b0: Word, c0: Word, d0: Word, e0: Word, f0: Word,
      g0: Word, h0: Word)
    returns (a: Word, b: Word, c: Word, d: Word, e: Word, f: Word, g: Word, h: Word, w8: Word, w9: Word, w10: Word,
      w11: Word, w12: Word, w13: Word, w14: Word, w15: Word)
    requires |block| == 16 && Regs(a0, b0, c0, d0, e0, f0, g0, h0) == Rounds(s, block, 8)
    ensures Regs(a, b, c, d, e, f, g, h) == Rounds(s, block, 16)
    ensures w8 == W(block, 8) && w9 == W(block, 9) && w10 == W(block, 10) && w11 == W(block, 11) &&
      w12 == W(block, 12) && w13 == W(block, 13) && w14 == W(block, 14) && w15 == W(block, 15)
  {
    Words(block);
    hide *;
    KValues8();
    a, b, c, d, e, f, g, h := a0, b0, c0, d0, e0, f0, g0, h0;
    w8 := block[8];
    d, h := Round(a, b, c, d, e, f, g, h, 0xd807aa98, w8);
    Next(s, block, 8);
    w9 := block[9];
    c, g := Round(h, a, b, c, d, e, f, g, 0x12835b01, w9);
    Next(s, block, 9);
    w10 := block[10];
    b, f := Round(g, h, a, b, c, d, e, f, 0x243185be, w10);
    Next(s, block, 10);
    w11 := block[11];
    a, e := Round(f, g, h, a, b, c, d, e, 0x550c7dc3, w11);
    Next(s, block, 11);
    w12 := block[12];
    h, d := Round(e, f, g, h, a, b, c, d, 0x72be5d74, w12);
    Next(s, block, 12);
    w13 := block[13];
    g, c := Round(d, e, f, g, h, a, b, c, 0x80deb1fe, w13);
    Next(s, block, 13);
    w14 := block[14];
    f, b := Round(c, d, e, f, g, h, a, b, 0x9bdc06a7, w14);
    Next(s, block, 14);
    w15 := block[15];
    e, a := Round(b, c, d, e, f, g, h, a, 0xc19bf174, w15);
    Next(s, block, 15);
  }

  /** Eight rounds that replace w0..w7 in place (sha256.c:109-116, 126-133, 143-150). */
  method LowRounds(ghost s: Regs, ghost block: seq<Word>, ghost t: nat, a0: Word, b0: Word, c0: Word, d0: Word,
      e0: Word, f0: Word, g0: Word, h0: Word,
      k0: Word, k1: Word, k2: Word, k3: Word, k4: Word, k5: Word, k6: Word, k7: Word,
      x0: Word, x1: Word, x2: Word, x3: Word, x4: Word, x5: Word, x6: Word, x7: Word, x8: Word, x9: Word, x10: Word,
      x11: Word, x12: Word, x13: Word, x14: Word, x15: Word)
    returns (a: Word, b: Word, c: Word, d: Word, e: Word, f: Word, g: Word, h: Word, w0: Word, w1: Word, w2: Word,
      w3: Word, w4: Word, w5: Word, w6: Word, w7: Word)
    requires |block| == 16 && 16 <= t <= 48 && Regs(a0, b0, c0, d0, e0, f0, g0, h0) == Rounds(s, block, t)
    requires k0 == K(t) && k1 == K(t + 1) && k2 == K(t + 2) && k3 == K(t + 3) && k4 == K(t + 4) && k5 == K(t + 5) &&
      k6 == K(t + 6) && k7 == K(t + 7)
    requires x0 == W(block, t - 16) && x1 == W(block, t - 15) && x2 == W(block, t - 14) && x3 == W(block, t - 13) &&
      x4 == W(block, t - 12) && x5 == W(block, t - 11) && x6 == W(block, t - 10) && x7 == W(block, t - 9) &&
      x8 == W(block, t - 8) && x9 == W(block, t - 7) && x10 == W(block, t - 6) && x11 == W(block, t - 5) &&
      x12 == W(block, t - 4) && x13 == W(block, t - 3) && x14 == W(block, t - 2) && x15 == W(block, t - 1)
    ensures Regs(a, b, c, d, e, f, g, h) == Rounds(s, block, t + 8)
    ensures w0 == W(block, t) && w1 == W(block, t + 1) && w2 == W(block, t + 2) && w3 == W(block, t + 3) &&
      w4 == W(block, t + 4) && w5 == W(block, t + 5) && w6 == W(block, t + 6) && w7 == W(block, t + 7)
  {
    hide *;
    a, b, c, d, e, f, g, h := a0, b0, c0, d0, e0, f0, g0, h0;
    var w8, w9, w10, w11, w12, w13, w14, w15 := x8, x9, x10, x11, x12, x13, x14, x15;
    w0, w1, w2, w3, w4, w5, w6, w7 := x0, x1, x2, x3, x4, x5, x6, x7;
    w0 := Add(w0, Extension(w14, w9, w1));
    Extend(block, t);
    d, h := Round(a, b, c, d, e, f, g, h, k0, w0);
    Next(s, block, t);
    w1 := Add(w1, Extension(w15, w10, w2));
    Extend(block, t + 1);
    c, g := Round(h, a, b, c, d, e, f, g, k1, w1);
    Next(s, block, t + 1);
    w2 := Add(w2, Extension(w0, w11, w3));
    Extend(block, t + 2);
    b, f := Round(g, h, a, b, c, d, e, f, k2, w2);
    Next(s, block, t + 2);
    w3 := Add(w3, Extension(w1, w12, w4));
    Extend(block, t + 3);
    a, e := Round(f, g, h, a, b, c, d, e, k3, w3);
    Next(s, block, t + 3);
    w4 := Add(w4, Extension(w2, w13, w5));
    Extend(block, t + 4);
    h, d := Round(e, f, g, h, a, b, c, d, k4, w4);
    Next(s, block, t + 4);
    w5 := Add(w5, Extension(w3, w14, w6));
    Extend(block, t + 5);
    g, c := Round(d, e, f, g, h, a, b, c, k5, w5);
    Next(s, block, t + 5);
    w6 := Add(w6, Extension(w4, w15, w7));
    Extend(block, t + 6);
    f, b := Round(c, d, e, f, g, h, a, b, k6, w6);
    Next(s, block, t + 6);
    w7 := Add(w7, Extension(w5, w0, w8));
    Extend(block, t + 7);
    e, a := Round(b, c, d, e, f, g, h, a, k7, w7);
    Next(s, block, t + 7);
  }

  /** Eight rounds that replace w8..w15 in place (sha256.c:117-124, 134-141). */
  method HighRounds(ghost s: Regs, ghost block: seq<Word>, ghost t: nat, a0: Word, b0: Word, c0: Word, d0: Word,
      e0: Word, f0: Word, g0: Word, h0: Word,
      k8: Word, k9: Word, k10: Word, k11: Word, k12: Word, k13: Word, k14: Word, k15: Word,
      w0: Word, w1: Word, w2: Word, w3: Word, w4: Word, w5: Word, w6: Word, w7: Word,
      x8: Word, x9: Word, x10: Word, x11: Word, x12: Word, x13: Word, x14: Word, x15: Word)
    returns (a: Word, b: Word, c: Word, d: Word, e: Word, f: Word, g: Word, h: Word, w8: Word, w9: Word, w10: Word,
      w11: Word, w12: Word, w13: Word, w14: Word, w15: Word)
    requires |block| == 16 && 16 <= t <= 48 && Regs(a0, b0, c0, d0, e0, f0, g0, h0) == Rounds(s, block, t + 8)
    requires k8 == K(t + 8) && k9 == K(t + 9) && k10 == K(t + 10) && k11 == K(t + 11) && k12 == K(t + 12) &&
      k13 == K(t + 13) && k14 == K(t + 14) && k15 == K(t + 15)
    requires w0 == W(block, t) && w1 == W(block, t + 1) && w2 == W(block, t + 2) && w3 == W(block, t + 3) &&
      w4 == W(block, t + 4) && w5 == W(block, t + 5) && w6 == W(block, t + 6) && w7 == W(block, t + 7)
    requires x8 == W(block, t - 8) && x9 == W(block, t - 7) && x10 == W(block, t - 6) && x11 == W(block, t - 5) &&
      x12 == W(block, t - 4) && x13 == W(block, t - 3) && x14 == W(block, t - 2) && x15 == W(block, t - 1)
    ensures Regs(a, b, c, d, e, f, g, h) == Rounds(s, block, t + 16)
    ensures w8 == W(block, t + 8) && w9 == W(block, t + 9) && w10 == W(block, t + 10) && w11 == W(block, t + 11) &&
      w12 == W(block, t + 12) && w13 == W(block, t + 13) && w14 == W(block, t + 14) && w15 == W(block, t + 15)
  {
    hide *;
    a, b, c, d, e, f, g, h := a0, b0, c0, d0, e0, f0, g0, h0;
    w8, w9, w10, w11, w12, w13, w14, w15 := x8, x9, x10, x11, x12, x13, x14, x15;
    w8 := Add(w8, Extension(w6, w1, w9));
    Extend(block, t + 8);
    d, h := Round(a, b, c, d, e, f, g, h, k8, w8);
    Next(s, block, t + 8);
    w9 := Add(w9, Extension(w7, w2, w10));
    Extend(block, t + 9);
    c, g := Round(h, a, b, c, d, e, f, g, k9, w9);
    Next(s, block, t + 9);
    w10 := Add(w10, Extension(w8, w3, w11));
    Extend(block, t + 10);
    b, f := Round(g, h, a, b, c, d, e, f, k10, w10);
    Next(s, block, t + 10);
    w11 := Add(w11, Extension(w9, w4, w12));
    Extend(block, t + 11);
    a, e := Round(f, g, h, a, b, c, d, e, k11, w11);
    Next(s, block, t + 11);
    w12 := Add(w12, Extension(w10, w5, w13));
    Extend(block, t + 12);
    h, d := Round(e, f, g, h, a, b, c, d, k12, w12);
    Next(s, block, t + 12);
    w13 := Add(w13, Extension(w11, w6, w14));
    Extend(block, t + 13);
    g, c := Round(d, e, f, g, h, a, b, c, k13, w13);
    Next(s, block, t + 13);
    w14 := Add(w14, Extension(w12, w7, w15));
    Extend(block, t + 14);
    f, b := Round(c, d, e, f, g, h, a, b, k14, w14);
    Next(s, block, t + 14);
    w15 := Add(w15, Extension(w13, w8, w0));
    Extend(block, t + 15);
    e, a := Round(b, c, d, e, f, g, h, a, k15, w15);
    Next(s, block, t + 15);
  }

  /** The last eight rounds; the last two words are used without being stored (sha256.c:151-158). */
  method LastRounds(ghost s: Regs, ghost block: seq<Word>, ghost t: nat, a0: Word, b0: Word, c0: Word, d0: Word,
      e0: Word, f0: Word, g0: Word, h0: Word,
      k8: Word, k9: Word, k10: Word, k11: Word, k12: Word, k13: Word, k14: Word, k15: Word,
      w0: Word, w1: Word, w2: Word, w3: Word, w4: Word, w5: Word, w6: Word, w7: Word,
      x8: Word, x9: Word, x10: Word, x11: Word, x12: Word, x13: Word, x14: Word, x15: Word)
    returns (a: Word, b: Word, c: Word, d: Word, e: Word, f: Word, g: Word, h: Word)
    requires |block| == 16 && 16 <= t <= 48 && Regs(a0, b0, c0, d0, e0, f0, g0, h0) == Rounds(s, block, t + 8)
    requires k8 == K(t + 8) && k9 == K(t + 9) && k10 == K(t + 10) && k11 == K(t + 11) && k12 == K(t + 12) &&
      k13 == K(t + 13) && k14 == K(t + 14) && k15 == K(t + 15)
    requires w0 == W(block, t) && w1 == W(block, t + 1) && w2 == W(block, t + 2) && w3 == W(block, t + 3) &&
      w4 == W(block, t + 4) && w5 == W(block, t + 5) && w6 == W(block, t + 6) && w7 == W(block, t + 7)
    requires x8 == W(block, t - 8) && x9 == W(block, t - 7) && x10 == W(block, t - 6) && x11 == W(block, t - 5) &&
      x12 == W(block, t - 4) && x13 == W(block, t - 3) && x14 == W(block, t - 2) && x15 == W(block, t - 1)
    ensures Regs(a, b, c, d, e, f, g, h) == Rounds(s, block, t + 16)
  {
    hide *;
    a, b, c, d, e, f, g, h := a0, b0, c0, d0, e0, f0, g0, h0;
    var w8, w9, w10, w11, w12, w13, w14, w15 := x8, x9, x10, x11, x12, x13, x14, x15;
    w8 := Add(w8, Extension(w6, w1, w9));
    Extend(block, t + 8);
    d, h := Round(a, b, c, d, e, f, g, h, k8, w8);
    Next(s, block, t + 8);
    w9 := Add(w9, Extension(w7, w2, w10));
    Extend(block, t + 9);
    c, g := Round(h, a, b, c, d, e, f, g, k9, w9);
    Next(s, block, t + 9);
    w10 := Add(w10, Extension(w8, w3, w11));
    Extend(block, t + 10);
    b, f := Round(g, h, a, b, c, d, e, f, k10, w10);
    Next(s, block, t + 10);
    w11 := Add(w11, Extension(w9, w4, w12));
    Extend(block, t + 11);
    a, e := Round(f, g, h, a, b, c, d, e, k11, w11);
    Next(s, block, t + 11);
    w12 := Add(w12, Extension(w10, w5, w13));
    Extend(block, t + 12);
    h, d := Round(e, f, g, h, a, b, c, d, k12, w12);
    Next(s, block, t + 12);
    w13 := Add(w13, Extension(w11, w6, w14));
    Extend(block, t + 13);
    g, c := Round(d, e, f, g, h, a, b, c, k13, w13);
    Next(s, block, t + 13);
    Extend(block, t + 14);
    f, b := Round(c, d, e, f, g, h, a, b, k14, Add(w14, Extension(w12, w7, w15)));
    Next(s, block, t + 14);
    Extend(block, t + 15);
    e, a := Round(b, c, d, e, f, g, h, a, k15, Add(w15, Extension(w13, w8, w0)));
    Next(s, block, t + 15);
  }

  /** The eight words of a hash value, as registers. */
  function AsRegs(s: seq<Word>): Regs
    requires |s| == 8
  {
    Regs(s[0], s[1], s[2], s[3], s[4], s[5], s[6], s[7])
  }

  /** The 64 rounds of `Transform`. */
  method AllRounds(start: Regs, chunk: seq<Word>) returns (a: Word, b: Word, c: Word, d: Word, e: Word, f: Word,
    g: Word, h: Word)
    requires |chunk| == 16
    ensures Regs(a, b, c, d, e, f, g, h) == Rounds(start, chunk, 64)
  {
    assert Rounds(start, chunk, 0) == start;
    hide *;
    var w0, w1, w2, w3, w4, w5, w6, w7, w8, w9, w10, w11, w12, w13, w14, w15;
    a, b, c, d, e, f, g, h, w0, w1, w2, w3, w4, w5, w6, w7 :=
      FirstRounds0(start, chunk, start.a, start.b, start.c, start.d, start.e, start.f, start.g, start.h);
    a, b, c, d, e, f, g, h, w8, w9, w10, w11, w12, w13, w14, w15 := FirstRounds8(start, chunk, a, b, c, d, e, f, g, h);
    KValues16();
    a, b, c, d, e, f, g, h, w0, w1, w2, w3, w4, w5, w6, w7 := LowRounds(start, chunk, 16, a, b, c, d, e, f, g, h,
      0xe49b69c1, 0xefbe4786, 0x0fc19dc6, 0x240ca1cc, 0x2de92c6f, 0x4a7484aa, 0x5cb0a9dc, 0x76f988da,
      w0, w1, w2, w3, w4, w5, w6, w7, w8, w9, w10, w11, w12, w13, w14, w15);
    KValues24();
    a, b, c, d, e, f, g, h, w8, w9, w10, w11, w12, w13, w14, w15 := HighRounds(start, chunk, 16, a, b, c, d, e, f, g, h,
      0x983e5152, 0xa831c66d, 0xb00327c8, 0xbf597fc7, 0xc6e00bf3, 0xd5a79147, 0x06ca6351, 0x14292967,
      w0, w1, w2, w3, w4, w5, w6, w7, w8, w9, w10, w11, w12, w13, w14, w15);
    KValues32();
    a, b, c, d, e, f, g, h, w0, w1, w2, w3, w4, w5, w6, w7 := LowRounds(start, chunk, 32, a, b, c, d, e, f, g, h,
      0x27b70a85, 0x2e1b2138, 0x4d2c6dfc, 0x53380d13, 0x650a7354, 0x766a0abb, 0x81c2c92e, 0x92722c85,
      w0, w1, w2, w3, w4, w5, w6, w7, w8, w9, w10, w11, w12, w13, w14, w15);
    KValues40();
    a, b, c, d, e, f, g, h, w8, w9, w10, w11, w12, w13, w14, w15 := HighRounds(start, chunk, 32, a, b, c, d, e, f, g, h,
      0xa2bfe8a1, 0xa81a664b, 0xc24b8b70, 0xc76c51a3, 0xd192e819, 0xd6990624, 0xf40e3585, 0x106aa070,
      w0, w1, w2, w3, w4, w5, w6, w7, w8, w9, w10, w11, w12, w13, w14, w15);
    KValues48();
    a, b, c, d, e, f, g, h, w0, w1, w2, w3, w4, w5, w6, w7 := LowRounds(start, chunk, 48, a, b, c, d, e, f, g, h,
      0x19a4c116, 0x1e376c08, 0x2748774c, 0x34b0bcb5, 0x391c0cb3, 0x4ed8aa4a, 0x5b9cca4f, 0x682e6ff3,
      w0, w1, w2, w3, w4, w5, w6, w7, w8, w9, w10, w11, w12, w13, w14, w15);
    KValues56();
    a, b, c, d, e, f, g, h := LastRounds(start, chunk, 48, a, b, c, d, e, f, g, h,
      0x748f82ee, 0x78a5636f, 0x84c87814, 0x8cc70208, 0x90befffa, 0xa4506ceb, 0xbef9a3f7, 0xc67178f2,
      w0, w1, w2, w3, w4, w5, w6, w7, w8, w9, w10, w11, w12, w13, w14, w15);
  }

  /** `Transform`, on the sixteen words of a chunk read big-endian. */
  method Transform(s: array<Word>, chunk: seq<Word>)
    requires s.Length == 8 && |chunk| == 16
    modifies s
    ensures AsRegs(s[..]) == Compress(AsRegs(old(s[..])), chunk)
  {
    hide Rounds, Add;
    var a, b, c, d, e, f, g, h := AllRounds(AsRegs(s[..]), chunk);
    s[0] := Add(s[0], a);
    s[1] := Add(s[1], b);
    s[2] := Add(s[2], c);
    s[3] := Add(s[3], d);
    s[4] := Add(s[4], e);
    s[5] := Add(s[5], f);
    s[6] := Add(s[6], g);
    s[7] := Add(s[7], h);
  }
}
