/** The key schedule against the numbers of FIPS 197: the round constants of section 5.2, and the first
    computed words of the example in appendix A.3. */
module AesVectors {
  import opened Common
  import opened AesBytes
  import opened AesBlock
  import opened AesKeys

  /** The round constants are the powers of x in GF(2^8), from x^0 on. */
  lemma RconDoubles()
    ensures Rcon(1) == 1
    ensures forall i :: 1 <= i < 10 ==> Rcon(i + 1) == Xtime(Rcon(i))
  {
  }

  lemma FirstConstants()
    ensures Rcon(1) == 0x01 && Rcon(2) == 0x02
  {
  }

  // ----- the example -----

  const KEY: seq<Byte> := [
    0x60, 0x3d, 0xeb, 0x10, 0x15, 0xca, 0x71, 0xbe, 0x2b, 0x73, 0xae, 0xf0, 0x85, 0x7d, 0x77, 0x81,
    0x1f, 0x35, 0x2c, 0x07, 0x3b, 0x61, 0x08, 0xd7, 0x2d, 0x98, 0x10, 0xa3, 0x09, 0x14, 0xdf, 0xf4
  ]

  lemma WordFrom(i: nat, v: Quad, u: Quad)
    requires 8 <= i < 60 && ScheduleWord(KEY, i - 8) == v && ScheduleWord(KEY, i - 1) == u
    ensures ScheduleWord(KEY, i) == XorWord(v, Mixed(u, i))
  {
    hide ScheduleWord, Schedule, Mixed, XorWord;
    var m := Mixed(u, i);
    ScheduleStep(KEY, i, m[0], m[1], m[2], m[3]);
    assert m == [m[0], m[1], m[2], m[3]];
  }

  lemma FirstWord(i: nat)
    requires i < 8
    ensures ScheduleWord(KEY, i) == [KEY[4 * i], KEY[4 * i + 1], KEY[4 * i + 2], KEY[4 * i + 3]]
  {
  }

  /** The sum of two words, and what is added to a word eight places on. */
  lemma SumOf(v: Quad, m: Quad)
    ensures XorWord(v, m) == [Plus(v[0], m[0]), Plus(v[1], m[1]), Plus(v[2], m[2]), Plus(v[3], m[3])]
  {
  }

  lemma MixedFirst(u: Quad, i: nat)
    requires 8 <= i < 60 && i % 8 == 0
    ensures Mixed(u, i) == [Plus(Sbox(u[1]), Rcon(i / 8)), Sbox(u[2]), Sbox(u[3]), Sbox(u[0])]
  {
  }

  lemma MixedFourth(u: Quad, i: nat)
    requires 8 <= i < 60 && i % 8 == 4
    ensures Mixed(u, i) == [Sbox(u[0]), Sbox(u[1]), Sbox(u[2]), Sbox(u[3])]
  {
  }

  lemma MixedPlain(u: Quad, i: nat)
    requires 8 <= i < 60 && i % 8 != 0 && i % 8 != 4
    ensures Mixed(u, i) == u
  {
  }

  lemma KeyWords0()
    ensures ScheduleWord(KEY, 0) == [0x60, 0x3d, 0xeb, 0x10] && ScheduleWord(KEY, 1) == [0x15, 0xca, 0x71, 0xbe]
  {
    hide ScheduleWord;
    FirstWord(0);
    FirstWord(1);
  }

  lemma KeyWords2()
    ensures ScheduleWord(KEY, 2) == [0x2b, 0x73, 0xae, 0xf0] && ScheduleWord(KEY, 3) == [0x85, 0x7d, 0x77, 0x81]
  {
    hide ScheduleWord;
    FirstWord(2);
    FirstWord(3);
  }

  lemma KeyWords4()
    ensures ScheduleWord(KEY, 4) == [0x1f, 0x35, 0x2c, 0x07] && ScheduleWord(KEY, 5) == [0x3b, 0x61, 0x08, 0xd7]
  {
    hide ScheduleWord;
    FirstWord(4);
    FirstWord(5);
  }

  lemma KeyWords6()
    ensures ScheduleWord(KEY, 6) == [0x2d, 0x98, 0x10, 0xa3] && ScheduleWord(KEY, 7) == [0x09, 0x14, 0xdf, 0xf4]
  {
    hide ScheduleWord;
    FirstWord(6);
    FirstWord(7);
  }

  lemma KeyWords()
    ensures ScheduleWord(KEY, 0) == [0x60, 0x3d, 0xeb, 0x10] && ScheduleWord(KEY, 1) == [0x15, 0xca, 0x71, 0xbe]
    ensures ScheduleWord(KEY, 2) == [0x2b, 0x73, 0xae, 0xf0] && ScheduleWord(KEY, 3) == [0x85, 0x7d, 0x77, 0x81]
    ensures ScheduleWord(KEY, 4) == [0x1f, 0x35, 0x2c, 0x07] && ScheduleWord(KEY, 5) == [0x3b, 0x61, 0x08, 0xd7]
    ensures ScheduleWord(KEY, 6) == [0x2d, 0x98, 0x10, 0xa3] && ScheduleWord(KEY, 7) == [0x09, 0x14, 0xdf, 0xf4]
  {
    hide ScheduleWord;
    KeyWords0();
    KeyWords2();
    KeyWords4();
    KeyWords6();
  }

  lemma Words8()
    ensures ScheduleWord(KEY, 8) == [0x9b, 0xa3, 0x54, 0x11] && ScheduleWord(KEY, 9) == [0x8e, 0x69, 0x25, 0xaf]
    ensures ScheduleWord(KEY, 10) == [0xa5, 0x1a, 0x8b, 0x5f] && ScheduleWord(KEY, 11) == [0x20, 0x67, 0xfc, 0xde]
  {
    hide ScheduleWord, Sbox, Plus, Rcon, Mixed, XorWord;
    KeyWords();
    FirstConstants();
    Bytes8();
    Sums8();
    MixedFirst([0x09, 0x14, 0xdf, 0xf4], 8);
    WordFrom(8, [0x60, 0x3d, 0xeb, 0x10], [0x09, 0x14, 0xdf, 0xf4]);
    SumOf([0x60, 0x3d, 0xeb, 0x10], [0xfb, 0x9e, 0xbf, 0x01]);
    MixedPlain([0x9b, 0xa3, 0x54, 0x11], 9);
    WordFrom(9, [0x15, 0xca, 0x71, 0xbe], [0x9b, 0xa3, 0x54, 0x11]);
    SumOf([0x15, 0xca, 0x71, 0xbe], [0x9b, 0xa3, 0x54, 0x11]);
    MixedPlain([0x8e, 0x69, 0x25, 0xaf], 10);
    WordFrom(10, [0x2b, 0x73, 0xae, 0xf0], [0x8e, 0x69, 0x25, 0xaf]);
    SumOf([0x2b, 0x73, 0xae, 0xf0], [0x8e, 0x69, 0x25, 0xaf]);
    MixedPlain([0xa5, 0x1a, 0x8b, 0x5f], 11);
    WordFrom(11, [0x85, 0x7d, 0x77, 0x81], [0xa5, 0x1a, 0x8b, 0x5f]);
    SumOf([0x85, 0x7d, 0x77, 0x81], [0xa5, 0x1a, 0x8b, 0x5f]);
  }

  lemma Bytes8()
    ensures Sbox(0x09) == 0x01 && Sbox(0x14) == 0xfa && Sbox(0xdf) == 0x9e && Sbox(0xf4) == 0xbf
  {
  }

  lemma Sums8()
    ensures Plus(0xfa, 0x01) == 0xfb
    ensures Plus(0x60, 0xfb) == 0x9b && Plus(0x3d, 0x9e) == 0xa3 && Plus(0xeb, 0xbf) == 0x54 && Plus(0x10, 0x01) == 0x11
    ensures Plus(0x15, 0x9b) == 0x8e && Plus(0xca, 0xa3) == 0x69 && Plus(0x71, 0x54) == 0x25 && Plus(0xbe, 0x11) == 0xaf
    ensures Plus(0x2b, 0x8e) == 0xa5 && Plus(0x73, 0x69) == 0x1a && Plus(0xae, 0x25) == 0x8b && Plus(0xf0, 0xaf) == 0x5f
    ensures Plus(0x85, 0xa5) == 0x20 && Plus(0x7d, 0x1a) == 0x67 && Plus(0x77, 0x8b) == 0xfc && Plus(0x81, 0x5f) == 0xde
  {
  }

  lemma Words12()
    ensures ScheduleWord(KEY, 12) == [0xa8, 0xb0, 0x9c, 0x1a] && ScheduleWord(KEY, 13) == [0x93, 0xd1, 0x94, 0xcd]
    ensures ScheduleWord(KEY, 14) == [0xbe, 0x49, 0x84, 0x6e] && ScheduleWord(KEY, 15) == [0xb7, 0x5d, 0x5b, 0x9a]
  {
    hide ScheduleWord, Sbox, Plus, Rcon, Mixed, XorWord;
    KeyWords();
    Words8();
    Bytes12();
    Sums12();
    MixedFourth([0x20, 0x67, 0xfc, 0xde], 12);
    WordFrom(12, [0x1f, 0x35, 0x2c, 0x07], [0x20, 0x67, 0xfc, 0xde]);
    SumOf([0x1f, 0x35, 0x2c, 0x07], [0xb7, 0x85, 0xb0, 0x1d]);
    MixedPlain([0xa8, 0xb0, 0x9c, 0x1a], 13);
    WordFrom(13, [0x3b, 0x61, 0x08, 0xd7], [0xa8, 0xb0, 0x9c, 0x1a]);
    SumOf([0x3b, 0x61, 0x08, 0xd7], [0xa8, 0xb0, 0x9c, 0x1a]);
    MixedPlain([0x93, 0xd1, 0x94, 0xcd], 14);
    WordFrom(14, [0x2d, 0x98, 0x10, 0xa3], [0x93, 0xd1, 0x94, 0xcd]);
    SumOf([0x2d, 0x98, 0x10, 0xa3], [0x93, 0xd1, 0x94, 0xcd]);
    MixedPlain([0xbe, 0x49, 0x84, 0x6e], 15);
    WordFrom(15, [0x09, 0x14, 0xdf, 0xf4], [0xbe, 0x49, 0x84, 0x6e]);
    SumOf([0x09, 0x14, 0xdf, 0xf4], [0xbe, 0x49, 0x84, 0x6e]);
  }

  lemma Bytes12()
    ensures Sbox(0x20) == 0xb7 && Sbox(0x67) == 0x85 && Sbox(0xfc) == 0xb0 && Sbox(0xde) == 0x1d
  {
  }

  lemma Sums12()
    ensures Plus(0x1f, 0xb7) == 0xa8 && Plus(0x35, 0x85) == 0xb0 && Plus(0x2c, 0xb0) == 0x9c && Plus(0x07, 0x1d) == 0x1a
    ensures Plus(0x3b, 0xa8) == 0x93 && Plus(0x61, 0xb0) == 0xd1 && Plus(0x08, 0x9c) == 0x94 && Plus(0xd7, 0x1a) == 0xcd
    ensures Plus(0x2d, 0x93) == 0xbe && Plus(0x98, 0xd1) == 0x49 && Plus(0x10, 0x94) == 0x84 && Plus(0xa3, 0xcd) == 0x6e
    ensures Plus(0x09, 0xbe) == 0xb7 && Plus(0x14, 0x49) == 0x5d && Plus(0xdf, 0x84) == 0x5b && Plus(0xf4, 0x6e) == 0x9a
  {
  }

  lemma Words16()
    ensures ScheduleWord(KEY, 16) == [0xd5, 0x9a, 0xec, 0xb8] && ScheduleWord(KEY, 17) == [0x5b, 0xf3, 0xc9, 0x17]
    ensures ScheduleWord(KEY, 18) == [0xfe, 0xe9, 0x42, 0x48] && ScheduleWord(KEY, 19) == [0xde, 0x8e, 0xbe, 0x96]
  {
    hide ScheduleWord, Sbox, Plus, Rcon, Mixed, XorWord;
    Words8();
    Words12();
    FirstConstants();
    Bytes16();
    Sums16();
    MixedFirst([0xb7, 0x5d, 0x5b, 0x9a], 16);
    WordFrom(16, [0x9b, 0xa3, 0x54, 0x11], [0xb7, 0x5d, 0x5b, 0x9a]);
    SumOf([0x9b, 0xa3, 0x54, 0x11], [0x4e, 0x39, 0xb8, 0xa9]);
    MixedPlain([0xd5, 0x9a, 0xec, 0xb8], 17);
    WordFrom(17, [0x8e, 0x69, 0x25, 0xaf], [0xd5, 0x9a, 0xec, 0xb8]);
    SumOf([0x8e, 0x69, 0x25, 0xaf], [0xd5, 0x9a, 0xec, 0xb8]);
    MixedPlain([0x5b, 0xf3, 0xc9, 0x17], 18);
    WordFrom(18, [0xa5, 0x1a, 0x8b, 0x5f], [0x5b, 0xf3, 0xc9, 0x17]);
    SumOf([0xa5, 0x1a, 0x8b, 0x5f], [0x5b, 0xf3, 0xc9, 0x17]);
    MixedPlain([0xfe, 0xe9, 0x42, 0x48], 19);
    WordFrom(19, [0x20, 0x67, 0xfc, 0xde], [0xfe, 0xe9, 0x42, 0x48]);
    SumOf([0x20, 0x67, 0xfc, 0xde], [0xfe, 0xe9, 0x42, 0x48]);
  }

  lemma Bytes16()
    ensures Sbox(0xb7) == 0xa9 && Sbox(0x5d) == 0x4c && Sbox(0x5b) == 0x39 && Sbox(0x9a) == 0xb8
  {
  }

  lemma Sums16()
    ensures Plus(0x4c, 0x02) == 0x4e
    ensures Plus(0x9b, 0x4e) == 0xd5 && Plus(0xa3, 0x39) == 0x9a && Plus(0x54, 0xb8) == 0xec && Plus(0x11, 0xa9) == 0xb8
    ensures Plus(0x8e, 0xd5) == 0x5b && Plus(0x69, 0x9a) == 0xf3 && Plus(0x25, 0xec) == 0xc9 && Plus(0xaf, 0xb8) == 0x17
    ensures Plus(0xa5, 0x5b) == 0xfe && Plus(0x1a, 0xf3) == 0xe9 && Plus(0x8b, 0xc9) == 0x42 && Plus(0x5f, 0x17) == 0x48
    ensures Plus(0x20, 0xfe) == 0xde && Plus(0x67, 0xe9) == 0x8e && Plus(0xfc, 0x42) == 0xbe && Plus(0xde, 0x48) == 0x96
  {
  }
}
