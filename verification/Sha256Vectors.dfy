/** A known answer that fixes what the digest is: that of the three bytes "abc" (appendix B.1 of FIPS 180-2). */
module Sha256Vectors {
  import opened Common
  import opened Sha256
  import opened Sha256Stream

  const ABC: seq<Byte> := [0x61, 0x62, 0x63]

  const DIGEST: seq<Byte> := [
    0xba, 0x78, 0x16, 0xbf, 0x8f, 0x01, 0xcf, 0xea, 0x41, 0x41, 0x40, 0xde, 0x5d, 0xae, 0x22, 0x23,
    0xb0, 0x03, 0x61, 0xa3, 0x96, 0x17, 0x7a, 0x9c, 0xb4, 0x10, 0xff, 0x61, 0xf2, 0x00, 0x15, 0xad
  ]

  /** The words of the one block. */
  const WORDS: seq<Word> := [0x61626380, 0, 0, 0, 0, 0, 0, 0, 0, 0, 0, 0, 0, 0, 0, 24]

  // ----- the message schedule -----

  /** The 64 words of the schedule. */
  function Schedule(): (ws: seq<Word>)
    ensures |ws| == 64
  {
    seq(64, t requires 0 <= t < 64 => W(WORDS, t))
  }

  predicate WordIs(t: nat, w: Word)
    requires t < 64
  {
    Schedule()[t] == w
  }

  lemma WordFrom(t: nat, w2: Word, w7: Word, w15: Word, w16: Word)
    requires 16 <= t < 64
    requires WordIs(t - 2, w2) && WordIs(t - 7, w7) && WordIs(t - 15, w15) && WordIs(t - 16, w16)
    ensures WordIs(t, Add(Add(Add(SpecSigma1Small(w2), w7), SpecSigma0Small(w15)), w16))
  {
    hide Add, SpecSigma0Small, SpecSigma1Small;
  }

  lemma Words0()
    ensures WordIs(0, 0x61626380) && WordIs(15, 24) && forall t :: 1 <= t < 15 ==> WordIs(t, 0)
  {
    Words(WORDS);
    hide W;
  }

  lemma Words16()
    ensures WordIs(16, 0x61626380) && WordIs(17, 0x000f0000) && WordIs(18, 0x7da86405) && WordIs(19, 0x600003c6)
    ensures WordIs(20, 0x3e9d7b78) && WordIs(21, 0x0183fc00) && WordIs(22, 0x12dcbfdb) && WordIs(23, 0xe2e2c38e)
  {
    hide WordIs;
    Words0();
    WordFrom(16, 0x00000000, 0x00000000, 0x00000000, 0x61626380);
    WordFrom(17, 0x00000018, 0x00000000, 0x00000000, 0x00000000);
    WordFrom(18, 0x61626380, 0x00000000, 0x00000000, 0x00000000);
    WordFrom(19, 0x000f0000, 0x00000000, 0x00000000, 0x00000000);
    WordFrom(20, 0x7da86405, 0x00000000, 0x00000000, 0x00000000);
    WordFrom(21, 0x600003c6, 0x00000000, 0x00000000, 0x00000000);
    WordFrom(22, 0x3e9d7b78, 0x00000018, 0x00000000, 0x00000000);
    WordFrom(23, 0x0183fc00, 0x61626380, 0x00000000, 0x00000000);
  }

  lemma Words24()
    ensures WordIs(24, 0xc8215c1a) && WordIs(25, 0xb73679a2) && WordIs(26, 0xe5bc3909) && WordIs(27, 0x32663c5b)
    ensures WordIs(28, 0x9d209d67) && WordIs(29, 0xec8726cb) && WordIs(30, 0x702138a4) && WordIs(31, 0xd3b7973b)
  {
    hide WordIs;
    Words0();
    Words16();
    WordFrom(24, 0x12dcbfdb, 0x000f0000, 0x00000000, 0x00000000);
    WordFrom(25, 0xe2e2c38e, 0x7da86405, 0x00000000, 0x00000000);
    WordFrom(26, 0xc8215c1a, 0x600003c6, 0x00000000, 0x00000000);
    WordFrom(27, 0xb73679a2, 0x3e9d7b78, 0x00000000, 0x00000000);
    WordFrom(28, 0xe5bc3909, 0x0183fc00, 0x00000000, 0x00000000);
    WordFrom(29, 0x32663c5b, 0x12dcbfdb, 0x00000000, 0x00000000);
    WordFrom(30, 0x9d209d67, 0xe2e2c38e, 0x00000018, 0x00000000);
    WordFrom(31, 0xec8726cb, 0xc8215c1a, 0x61626380, 0x00000018);
  }

  lemma Words32()
    ensures WordIs(32, 0x93f5997f) && WordIs(33, 0x3b68ba73) && WordIs(34, 0xaff4ffc1) && WordIs(35, 0xf10a5c62)
    ensures WordIs(36, 0x0a8b3996) && WordIs(37, 0x72af830a) && WordIs(38, 0x9409e33e) && WordIs(39, 0x24641522)
  {
    hide WordIs;
    Words16();
    Words24();
    WordFrom(32, 0x702138a4, 0xb73679a2, 0x000f0000, 0x61626380);
    WordFrom(33, 0xd3b7973b, 0xe5bc3909, 0x7da86405, 0x000f0000);
    WordFrom(34, 0x93f5997f, 0x32663c5b, 0x600003c6, 0x7da86405);
    WordFrom(35, 0x3b68ba73, 0x9d209d67, 0x3e9d7b78, 0x600003c6);
    WordFrom(36, 0xaff4ffc1, 0xec8726cb, 0x0183fc00, 0x3e9d7b78);
    WordFrom(37, 0xf10a5c62, 0x702138a4, 0x12dcbfdb, 0x0183fc00);
    WordFrom(38, 0x0a8b3996, 0xd3b7973b, 0xe2e2c38e, 0x12dcbfdb);
    WordFrom(39, 0x72af830a, 0x93f5997f, 0xc8215c1a, 0xe2e2c38e);
  }

  lemma Words40()
    ensures WordIs(40, 0x9f47bf94) && WordIs(41, 0xf0a64f5a) && WordIs(42, 0x3e246a79) && WordIs(43, 0x27333ba3)
    ensures WordIs(44, 0x0c4763f2) && WordIs(45, 0x840abf27) && WordIs(46, 0x7a290d5d) && WordIs(47, 0x065c43da)
  {
    hide WordIs;
    Words24();
    Words32();
    WordFrom(40, 0x9409e33e, 0x3b68ba73, 0xb73679a2, 0xc8215c1a);
    WordFrom(41, 0x24641522, 0xaff4ffc1, 0xe5bc3909, 0xb73679a2);
    WordFrom(42, 0x9f47bf94, 0xf10a5c62, 0x32663c5b, 0xe5bc3909);
    WordFrom(43, 0xf0a64f5a, 0x0a8b3996, 0x9d209d67, 0x32663c5b);
    WordFrom(44, 0x3e246a79, 0x72af830a, 0xec8726cb, 0x9d209d67);
    WordFrom(45, 0x27333ba3, 0x9409e33e, 0x702138a4, 0xec8726cb);
    WordFrom(46, 0x0c4763f2, 0x24641522, 0xd3b7973b, 0x702138a4);
    WordFrom(47, 0x840abf27, 0x9f47bf94, 0x93f5997f, 0xd3b7973b);
  }

  lemma Words48()
    ensures WordIs(48, 0xfb3e89cb) && WordIs(49, 0xcc7617db) && WordIs(50, 0xb9e66c34) && WordIs(51, 0xa9993667)
    ensures WordIs(52, 0x84badedd) && WordIs(53, 0xc21462bc) && WordIs(54, 0x1487472c) && WordIs(55, 0xb20f7a99)
  {
    hide WordIs;
    Words32();
    Words40();
    WordFrom(48, 0x7a290d5d, 0xf0a64f5a, 0x3b68ba73, 0x93f5997f);
    WordFrom(49, 0x065c43da, 0x3e246a79, 0xaff4ffc1, 0x3b68ba73);
    WordFrom(50, 0xfb3e89cb, 0x27333ba3, 0xf10a5c62, 0xaff4ffc1);
    WordFrom(51, 0xcc7617db, 0x0c4763f2, 0x0a8b3996, 0xf10a5c62);
    WordFrom(52, 0xb9e66c34, 0x840abf27, 0x72af830a, 0x0a8b3996);
    WordFrom(53, 0xa9993667, 0x7a290d5d, 0x9409e33e, 0x72af830a);
    WordFrom(54, 0x84badedd, 0x065c43da, 0x24641522, 0x9409e33e);
    WordFrom(55, 0xc21462bc, 0xfb3e89cb, 0x9f47bf94, 0x24641522);
  }

  lemma Words56()
    ensures WordIs(56, 0xef57b9cd) && WordIs(57, 0xebe6b238) && WordIs(58, 0x9fe3095e) && WordIs(59, 0x78bc8d4b)
    ensures WordIs(60, 0xa43fcf15) && WordIs(61, 0x668b2ff8) && WordIs(62, 0xeeaba2cc) && WordIs(63, 0x12b1edeb)
  {
    hide WordIs;
    Words40();
    Words48();
    WordFrom(56, 0x1487472c, 0xcc7617db, 0xf0a64f5a, 0x9f47bf94);
    WordFrom(57, 0xb20f7a99, 0xb9e66c34, 0x3e246a79, 0xf0a64f5a);
    WordFrom(58, 0xef57b9cd, 0xa9993667, 0x27333ba3, 0x3e246a79);
    WordFrom(59, 0xebe6b238, 0x84badedd, 0x0c4763f2, 0x27333ba3);
    WordFrom(60, 0x9fe3095e, 0xc21462bc, 0x840abf27, 0x0c4763f2);
    WordFrom(61, 0x78bc8d4b, 0x1487472c, 0x7a290d5d, 0x840abf27);
    WordFrom(62, 0xa43fcf15, 0xb20f7a99, 0x065c43da, 0x7a290d5d);
    WordFrom(63, 0x668b2ff8, 0xef57b9cd, 0xfb3e89cb, 0x065c43da);
  }

  // ----- the rounds -----

  lemma NextRound(t: nat, r: Regs, w: Word)
    requires t < 64 && Rounds(INIT, WORDS, t) == r && WordIs(t, w)
    ensures Rounds(INIT, WORDS, t + 1) == SpecRound(r, K(t), w)
  {
    hide SpecRound, K, W;
  }

  lemma Rounds0()
    ensures Rounds(INIT, WORDS, 0) == Regs(0x6a09e667, 0xbb67ae85, 0x3c6ef372, 0xa54ff53a, 0x510e527f, 0x9b05688c,
      0x1f83d9ab, 0x5be0cd19)
  {
  }

  lemma Rounds8()
    ensures Rounds(INIT, WORDS, 8) ==
      Regs(0x85a07b5f, 0xe5030380, 0x2b4209f5, 0x04409a6a, 0x0c657a79, 0x9b27a401, 0x714260ad, 0x43ada245)
  {
    hide WordIs, K, Rounds;
    Rounds0();
    Words0();
    KValues0();
    NextRound(0, Rounds(INIT, WORDS, 0), 0x61626380);
    NextRound(1, Rounds(INIT, WORDS, 1), 0x00000000);
    NextRound(2, Rounds(INIT, WORDS, 2), 0x00000000);
    NextRound(3, Rounds(INIT, WORDS, 3), 0x00000000);
    NextRound(4, Rounds(INIT, WORDS, 4), 0x00000000);
    NextRound(5, Rounds(INIT, WORDS, 5), 0x00000000);
    NextRound(6, Rounds(INIT, WORDS, 6), 0x00000000);
    NextRound(7, Rounds(INIT, WORDS, 7), 0x00000000);
  }

  lemma Rounds16()
    ensures Rounds(INIT, WORDS, 16) ==
      Regs(0xb0fa238e, 0xc0645fde, 0xd932eb16, 0x87912990, 0x07590dcd, 0x0b92f20c, 0x745a48de, 0x1e578218)
  {
    hide WordIs, K, Rounds;
    Rounds8();
    Words0();
    KValues8();
    NextRound(8, Rounds(INIT, WORDS, 8), 0x00000000);
    NextRound(9, Rounds(INIT, WORDS, 9), 0x00000000);
    NextRound(10, Rounds(INIT, WORDS, 10), 0x00000000);
    NextRound(11, Rounds(INIT, WORDS, 11), 0x00000000);
    NextRound(12, Rounds(INIT, WORDS, 12), 0x00000000);
    NextRound(13, Rounds(INIT, WORDS, 13), 0x00000000);
    NextRound(14, Rounds(INIT, WORDS, 14), 0x00000000);
    NextRound(15, Rounds(INIT, WORDS, 15), 0x00000018);
  }

  lemma Rounds24()
    ensures Rounds(INIT, WORDS, 24) ==
      Regs(0xc5d53d8d, 0xa7a3623f, 0xc2606d6d, 0x9dc68b63, 0xaa47c347, 0x49f5114a, 0xe1257970, 0x8ada8930)
  {
    hide WordIs, K, Rounds;
    Rounds16();
    Words16();
    KValues16();
    NextRound(16, Rounds(INIT, WORDS, 16), 0x61626380);
    NextRound(17, Rounds(INIT, WORDS, 17), 0x000f0000);
    NextRound(18, Rounds(INIT, WORDS, 18), 0x7da86405);
    NextRound(19, Rounds(INIT, WORDS, 19), 0x600003c6);
    NextRound(20, Rounds(INIT, WORDS, 20), 0x3e9d7b78);
    NextRound(21, Rounds(INIT, WORDS, 21), 0x0183fc00);
    NextRound(22, Rounds(INIT, WORDS, 22), 0x12dcbfdb);
    NextRound(23, Rounds(INIT, WORDS, 23), 0xe2e2c38e);
  }

  lemma Rounds32()
    ensures Rounds(INIT, WORDS, 32) ==
      Regs(0x73b33bf5, 0xea992a22, 0xa0060b30, 0x363482c9, 0xba591112, 0x0109ab3a, 0xade79437, 0x6112a3b7)
  {
    hide WordIs, K, Rounds;
    Rounds24();
    Words24();
    KValues24();
    NextRound(24, Rounds(INIT, WORDS, 24), 0xc8215c1a);
    NextRound(25, Rounds(INIT, WORDS, 25), 0xb73679a2);
    NextRound(26, Rounds(INIT, WORDS, 26), 0xe5bc3909);
    NextRound(27, Rounds(INIT, WORDS, 27), 0x32663c5b);
    NextRound(28, Rounds(INIT, WORDS, 28), 0x9d209d67);
    NextRound(29, Rounds(INIT, WORDS, 29), 0xec8726cb);
    NextRound(30, Rounds(INIT, WORDS, 30), 0x702138a4);
    NextRound(31, Rounds(INIT, WORDS, 31), 0xd3b7973b);
  }

  lemma Rounds40()
    ensures Rounds(INIT, WORDS, 40) ==
      Regs(0x79ea687a, 0x6dc57a8a, 0x34df1604, 0x41a65cb1, 0x1efbc0a0, 0xf0781bc8, 0xa507a53d, 0x0772a26b)
  {
    hide WordIs, K, Rounds;
    Rounds32();
    Words32();
    KValues32();
    NextRound(32, Rounds(INIT, WORDS, 32), 0x93f5997f);
    NextRound(33, Rounds(INIT, WORDS, 33), 0x3b68ba73);
    NextRound(34, Rounds(INIT, WORDS, 34), 0xaff4ffc1);
    NextRound(35, Rounds(INIT, WORDS, 35), 0xf10a5c62);
    NextRound(36, Rounds(INIT, WORDS, 36), 0x0a8b3996);
    NextRound(37, Rounds(INIT, WORDS, 37), 0x72af830a);
    NextRound(38, Rounds(INIT, WORDS, 38), 0x9409e33e);
    NextRound(39, Rounds(INIT, WORDS, 39), 0x24641522);
  }

  lemma Rounds48()
    ensures Rounds(INIT, WORDS, 48) ==
      Regs(0x4172328d, 0xa14c14b0, 0x72ab4b91, 0x26628815, 0xfecf0bc6, 0xd57b94a9, 0xb7755da1, 0xa80f11f0)
  {
    hide WordIs, K, Rounds;
    Rounds40();
    Words40();
    KValues40();
    NextRound(40, Rounds(INIT, WORDS, 40), 0x9f47bf94);
    NextRound(41, Rounds(INIT, WORDS, 41), 0xf0a64f5a);
    NextRound(42, Rounds(INIT, WORDS, 42), 0x3e246a79);
    NextRound(43, Rounds(INIT, WORDS, 43), 0x27333ba3);
    NextRound(44, Rounds(INIT, WORDS, 44), 0x0c4763f2);
    NextRound(45, Rounds(INIT, WORDS, 45), 0x840abf27);
    NextRound(46, Rounds(INIT, WORDS, 46), 0x7a290d5d);
    NextRound(47, Rounds(INIT, WORDS, 47), 0x065c43da);
  }

  lemma Rounds56()
    ensures Rounds(INIT, WORDS, 56) ==
      Regs(0x38cc9913, 0x3ec45cdb, 0xf5702fdb, 0x101fd28f, 0x54cb266b, 0xe50e1b4f, 0x9f4787c3, 0x529e7d00)
  {
    hide WordIs, K, Rounds;
    Rounds48();
    Words48();
    KValues48();
    NextRound(48, Rounds(INIT, WORDS, 48), 0xfb3e89cb);
    NextRound(49, Rounds(INIT, WORDS, 49), 0xcc7617db);
    NextRound(50, Rounds(INIT, WORDS, 50), 0xb9e66c34);
    NextRound(51, Rounds(INIT, WORDS, 51), 0xa9993667);
    NextRound(52, Rounds(INIT, WORDS, 52), 0x84badedd);
    NextRound(53, Rounds(INIT, WORDS, 53), 0xc21462bc);
    NextRound(54, Rounds(INIT, WORDS, 54), 0x1487472c);
    NextRound(55, Rounds(INIT, WORDS, 55), 0xb20f7a99);
  }

  lemma Rounds64()
    ensures Rounds(INIT, WORDS, 64) ==
      Regs(0x506e3058, 0xd39a2165, 0x04d24d6c, 0xb85e2ce9, 0x5ef50f24, 0xfb121210, 0x948d25b6, 0x961f4894)
  {
    hide WordIs, K, Rounds;
    Rounds56();
    Words56();
    KValues56();
    NextRound(56, Rounds(INIT, WORDS, 56), 0xef57b9cd);
    NextRound(57, Rounds(INIT, WORDS, 57), 0xebe6b238);
    NextRound(58, Rounds(INIT, WORDS, 58), 0x9fe3095e);
    NextRound(59, Rounds(INIT, WORDS, 59), 0x78bc8d4b);
    NextRound(60, Rounds(INIT, WORDS, 60), 0xa43fcf15);
    NextRound(61, Rounds(INIT, WORDS, 61), 0x668b2ff8);
    NextRound(62, Rounds(INIT, WORDS, 62), 0xeeaba2cc);
    NextRound(63, Rounds(INIT, WORDS, 63), 0x12b1edeb);
  }

  lemma Compressed()
    ensures Compress(INIT, WORDS) == Regs(0xba7816bf, 0x8f01cfea, 0x414140de, 0x5dae2223, 0xb00361a3, 0x96177a9c,
      0xb410ff61, 0xf20015ad)
  {
    hide Rounds;
    Rounds64();
  }

  // ----- the message -----

  lemma Length()
    ensures Be64(24) == [0, 0, 0, 0, 0, 0, 0, 24]
  {
    assert Rest(24) == 0 && Rest(0) == 0 && Digit(24) == 24 && Digit(0) == 0;
    hide Rest, Digit;
    assert Be(0, 7) == [0, 0, 0, 0, 0, 0, 0];
  }

  lemma Message()
    ensures Padded(ABC) == ABC + [0x80] + Zeros(52) + [0, 0, 0, 0, 0, 0, 0, 24]
  {
    hide Be64;
    CodeZerosAreFewest(3);
    forall y: nat | PadZeros(3, y) ensures y == 52 { PadZerosUnique(3, y, 52); }
    Length();
  }

  lemma MessageWords()
    ensures |Padded(ABC)| == BLOCK && BlockWords(Padded(ABC)) == WORDS
  {
    hide Padded, Be32;
    Message();
    FirstWord();
    forall i | 0 <= i < 16 ensures WordAt(Padded(ABC), i) == WORDS[i] {
    }
  }

  lemma FirstWord()
    ensures Be32(0x61, 0x62, 0x63, 0x80) == 0x61626380 && Be32(0, 0, 0, 0) == 0 && Be32(0, 0, 0, 24) == 24
  {
  }

  lemma KnownOutput()
    ensures Output(Regs(0xba7816bf, 0x8f01cfea, 0x414140de, 0x5dae2223, 0xb00361a3, 0x96177a9c, 0xb410ff61,
      0xf20015ad)) == DIGEST
  {
    hide Be32Bytes;
    OutputBytes();
  }

  lemma OutputBytes()
    ensures Be32Bytes(0xba7816bf) == [0xba, 0x78, 0x16, 0xbf]
    ensures Be32Bytes(0x8f01cfea) == [0x8f, 0x01, 0xcf, 0xea]
    ensures Be32Bytes(0x414140de) == [0x41, 0x41, 0x40, 0xde]
    ensures Be32Bytes(0x5dae2223) == [0x5d, 0xae, 0x22, 0x23]
    ensures Be32Bytes(0xb00361a3) == [0xb0, 0x03, 0x61, 0xa3]
    ensures Be32Bytes(0x96177a9c) == [0x96, 0x17, 0x7a, 0x9c]
    ensures Be32Bytes(0xb410ff61) == [0xb4, 0x10, 0xff, 0x61]
    ensures Be32Bytes(0xf20015ad) == [0xf2, 0x00, 0x15, 0xad]
  {
  }

  /** The digest of "abc". */
  lemma KnownDigest()
    ensures Digest(ABC) == DIGEST
  {
    hide Compress, BlockWords, Padded, Output;
    MessageWords();
    assert Padded(ABC)[..0] == [] && Padded(ABC)[0..] == Padded(ABC);
    assert HashBlocks(Padded(ABC)) == Compress(INIT, WORDS);
    Compressed();
    KnownOutput();
  }

  /** A context fed with the three bytes one by one computes it. */
  method KnownAnswer(aligned: (nat, nat) -> bool) returns (digest: seq<Byte>)
    ensures digest == DIGEST
  {
    hide Digest;
    var pieces := [[0x61], [0x62], [0x63]];
    Concats();
    digest := HashPieces(pieces, aligned);
    KnownDigest();
  }

  lemma ConcatStep(p: seq<seq<Byte>>, i: nat)
    requires i < |p|
    ensures Concat(p[..i + 1]) == Concat(p[..i]) + p[i]
  {
    assert p[..i + 1][..i] == p[..i];
  }

  lemma Concats()
    ensures Concat([[0x61], [0x62], [0x63]]) == ABC
    ensures forall i :: 0 <= i < 3 ==> |Concat([[0x61], [0x62], [0x63]][..i])| == i
  {
    var p: seq<seq<Byte>> := [[0x61], [0x62], [0x63]];
    assert p[..0] == [];
    ConcatStep(p, 0);
    ConcatStep(p, 1);
    ConcatStep(p, 2);
    assert p[..3] == p;
  }
}
