/** The numbers of SHA-256 against their definitions in FIPS 180-4: the initial hash value of section 5.3.3,
    the constants of section 4.2.2, and the order of the bytes of a word (section 3.1). */
module Sha256Constants {
  import opened Common
  import opened Sha256
  import opened Sha256Stream

  // ----- bytes and words -----

  /** Four bytes as a number, the first one most significant. */
  function Number(a: Byte, b: Byte, c: Byte, d: Byte): Word
  {
    (((a as Word) * 256 + b as Word) * 256 + c as Word) * 256 + d as Word
  }

  lemma WordIsNumber(a: Byte, b: Byte, c: Byte, d: Byte)
    ensures Be32(a, b, c, d) == Number(a, b, c, d)
  {
  }

  /** The bytes of a word are its digits. */
  lemma BytesAreDigits(w: Word)
    ensures var r := Be32Bytes(w); Number(r[0], r[1], r[2], r[3]) == w
  {
    hide Number;
    var r := Be32Bytes(w);
    WordIsNumber(r[0], r[1], r[2], r[3]);
    JoinsAgain(w);
  }

  lemma JoinsAgain(w: Word)
    ensures Be32((w >> 24) as Byte, ((w >> 16) & 0xff) as Byte, ((w >> 8) & 0xff) as Byte, (w & 0xff) as Byte) == w
  {
  }

  lemma WordOf(bytes: seq<Byte>, i: nat)
    requires |bytes| == BLOCK && i < 16
    ensures WordAt(bytes, i) == Be32(bytes[4 * i], bytes[4 * i + 1], bytes[4 * i + 2], bytes[4 * i + 3])
  {
    hide Be32;
  }

  /** The words of a block are its groups of four bytes, in order. */
  lemma BlockIsNumbers(bytes: seq<Byte>, i: nat)
    requires |bytes| == BLOCK && i < 16
    ensures BlockWords(bytes)[i] == Number(bytes[4 * i], bytes[4 * i + 1], bytes[4 * i + 2], bytes[4 * i + 3])
  {
    hide Number, Be32, WordAt;
    WordOf(bytes, i);
    WordIsNumber(bytes[4 * i], bytes[4 * i + 1], bytes[4 * i + 2], bytes[4 * i + 3]);
  }

  /** Register i of the hash value. */
  function Register(r: Regs, i: nat): Word
    requires i < 8
  {
    if i == 0 then r.a else if i == 1 then r.b else if i == 2 then r.c else if i == 3 then r.d
      else if i == 4 then r.e else if i == 5 then r.f else if i == 6 then r.g else r.h
  }

  lemma Halves(a: seq<Byte>, b: seq<Byte>, c: seq<Byte>, d: seq<Byte>, e: seq<Byte>, f: seq<Byte>, g: seq<Byte>,
    h: seq<Byte>)
    ensures a + b + c + d + e + f + g + h == (a + b + c + d) + (e + f + g + h)
  {
    var x := a + b + c + d;
    Associates(x, e, f);
    Associates(x, e + f, g);
    Associates(x, e + f + g, h);
  }

  lemma Quarters(a: seq<Byte>, b: seq<Byte>, c: seq<Byte>, d: seq<Byte>)
    requires |a| == |b| == |c| == |d| == 4
    ensures var s := a + b + c + d; |s| == 16 && s[0..4] == a && s[4..8] == b && s[8..12] == c && s[12..16] == d
  {
  }

  lemma HalfAt(s: seq<Byte>, x: seq<Byte>, y: seq<Byte>, k: nat)
    requires s == x + y && |x| == |y| == 16 && k <= 12
    ensures s[k..k + 4] == x[k..k + 4] && s[16 + k..16 + k + 4] == y[k..k + 4]
  {
  }

  lemma OutputHalves(r: Regs)
    ensures Output(r) ==
      (Be32Bytes(r.a) + Be32Bytes(r.b) + Be32Bytes(r.c) + Be32Bytes(r.d)) +
      (Be32Bytes(r.e) + Be32Bytes(r.f) + Be32Bytes(r.g) + Be32Bytes(r.h))
  {
    hide Be32Bytes;
    Halves(Be32Bytes(r.a), Be32Bytes(r.b), Be32Bytes(r.c), Be32Bytes(r.d), Be32Bytes(r.e), Be32Bytes(r.f),
      Be32Bytes(r.g), Be32Bytes(r.h));
  }

  lemma OutputAt(r: Regs, i: nat)
    requires i < 8
    ensures |Output(r)| == 32 && Output(r)[4 * i..4 * i + 4] == Be32Bytes(Register(r, i))
  {
    hide Be32Bytes, Output;
    var a, b, c, d := Be32Bytes(r.a), Be32Bytes(r.b), Be32Bytes(r.c), Be32Bytes(r.d);
    var e, f, g, h := Be32Bytes(r.e), Be32Bytes(r.f), Be32Bytes(r.g), Be32Bytes(r.h);
    OutputHalves(r);
    Quarters(a, b, c, d);
    Quarters(e, f, g, h);
    HalfAt(Output(r), a + b + c + d, e + f + g + h, if i < 4 then 4 * i else 4 * (i - 4));
  }

  /** The digest is the registers from a to h, each as its four digits. */
  lemma OutputIsNumbers(r: Regs, i: nat)
    requires i < 8
    ensures |Output(r)| == 32
    ensures Number(Output(r)[4 * i], Output(r)[4 * i + 1], Output(r)[4 * i + 2], Output(r)[4 * i + 3]) == Register(r, i)
  {
    hide Number, Be32Bytes, Output, Register;
    OutputAt(r, i);
    BytesAreDigits(Register(r, i));
    var four := Output(r)[4 * i..4 * i + 4];
    assert four[0] == Output(r)[4 * i] && four[1] == Output(r)[4 * i + 1];
    assert four[2] == Output(r)[4 * i + 2] && four[3] == Output(r)[4 * i + 3];
  }

  // ----- the initial hash value -----

  const TWO32: nat := 0x1_0000_0000

  /** h is the first 32 bits of the fraction of the square root of p, whose whole part is k. */
  predicate SquareRootFraction(p: nat, k: nat, h: Word)
  {
    var r := k * TWO32 + h as nat;
    r * r <= p * (TWO32 * TWO32) < (r + 1) * (r + 1)
  }

  /** The square roots of the first eight primes. */
  lemma InitIsRoots()
    ensures SquareRootFraction(2, 1, INIT.a)
    ensures SquareRootFraction(3, 1, INIT.b)
    ensures SquareRootFraction(5, 2, INIT.c)
    ensures SquareRootFraction(7, 2, INIT.d)
    ensures SquareRootFraction(11, 3, INIT.e)
    ensures SquareRootFraction(13, 3, INIT.f)
    ensures SquareRootFraction(17, 4, INIT.g)
    ensures SquareRootFraction(19, 4, INIT.h)
  {
  }

  // ----- the round constants -----

  /** h is the first 32 bits of the fraction of the cube root of p, whose whole part is k. */
  predicate CubeRootFraction(p: nat, k: nat, h: Word)
  {
    var r := k * TWO32 + h as nat;
    r * r * r <= p * (TWO32 * TWO32 * TWO32) < (r + 1) * (r + 1) * (r + 1)
  }

  /** The cube roots of the primes from 2 to 19. */
  lemma Roots0()
    ensures CubeRootFraction(2, 1, K(0))
    ensures CubeRootFraction(3, 1, K(1))
    ensures CubeRootFraction(5, 1, K(2))
    ensures CubeRootFraction(7, 1, K(3))
    ensures CubeRootFraction(11, 2, K(4))
    ensures CubeRootFraction(13, 2, K(5))
    ensures CubeRootFraction(17, 2, K(6))
    ensures CubeRootFraction(19, 2, K(7))
  {
    KValues0();
    hide K;
  }

  /** The cube roots of the primes from 23 to 53. */
  lemma Roots8()
    ensures CubeRootFraction(23, 2, K(8))
    ensures CubeRootFraction(29, 3, K(9))
    ensures CubeRootFraction(31, 3, K(10))
    ensures CubeRootFraction(37, 3, K(11))
    ensures CubeRootFraction(41, 3, K(12))
    ensures CubeRootFraction(43, 3, K(13))
    ensures CubeRootFraction(47, 3, K(14))
    ensures CubeRootFraction(53, 3, K(15))
  {
    KValues8();
    hide K;
  }

  /** The cube roots of the primes from 59 to 89. */
  lemma Roots16()
    ensures CubeRootFraction(59, 3, K(16))
    ensures CubeRootFraction(61, 3, K(17))
    ensures CubeRootFraction(67, 4, K(18))
    ensures CubeRootFraction(71, 4, K(19))
    ensures CubeRootFraction(73, 4, K(20))
    ensures CubeRootFraction(79, 4, K(21))
    ensures CubeRootFraction(83, 4, K(22))
    ensures CubeRootFraction(89, 4, K(23))
  {
    KValues16();
    hide K;
  }

  /** The cube roots of the primes from 97 to 131. */
  lemma Roots24()
    ensures CubeRootFraction(97, 4, K(24))
    ensures CubeRootFraction(101, 4, K(25))
    ensures CubeRootFraction(103, 4, K(26))
    ensures CubeRootFraction(107, 4, K(27))
    ensures CubeRootFraction(109, 4, K(28))
    ensures CubeRootFraction(113, 4, K(29))
    ensures CubeRootFraction(127, 5, K(30))
    ensures CubeRootFraction(131, 5, K(31))
  {
    KValues24();
    hide K;
  }

  /** The cube roots of the primes from 137 to 173. */
  lemma Roots32()
    ensures CubeRootFraction(137, 5, K(32))
    ensures CubeRootFraction(139, 5, K(33))
    ensures CubeRootFraction(149, 5, K(34))
    ensures CubeRootFraction(151, 5, K(35))
    ensures CubeRootFraction(157, 5, K(36))
    ensures CubeRootFraction(163, 5, K(37))
    ensures CubeRootFraction(167, 5, K(38))
    ensures CubeRootFraction(173, 5, K(39))
  {
    KValues32();
    hide K;
  }

  /** The cube roots of the primes from 179 to 223. */
  lemma Roots40()
    ensures CubeRootFraction(179, 5, K(40))
    ensures CubeRootFraction(181, 5, K(41))
    ensures CubeRootFraction(191, 5, K(42))
    ensures CubeRootFraction(193, 5, K(43))
    ensures CubeRootFraction(197, 5, K(44))
    ensures CubeRootFraction(199, 5, K(45))
    ensures CubeRootFraction(211, 5, K(46))
    ensures CubeRootFraction(223, 6, K(47))
  {
    KValues40();
    hide K;
  }

  /** The cube roots of the primes from 227 to 263. */
  lemma Roots48()
    ensures CubeRootFraction(227, 6, K(48))
    ensures CubeRootFraction(229, 6, K(49))
    ensures CubeRootFraction(233, 6, K(50))
    ensures CubeRootFraction(239, 6, K(51))
    ensures CubeRootFraction(241, 6, K(52))
    ensures CubeRootFraction(251, 6, K(53))
    ensures CubeRootFraction(257, 6, K(54))
    ensures CubeRootFraction(263, 6, K(55))
  {
    KValues48();
    hide K;
  }

  /** The cube roots of the primes from 269 to 311. */
  lemma Roots56()
    ensures CubeRootFraction(269, 6, K(56))
    ensures CubeRootFraction(271, 6, K(57))
    ensures CubeRootFraction(277, 6, K(58))
    ensures CubeRootFraction(281, 6, K(59))
    ensures CubeRootFraction(283, 6, K(60))
    ensures CubeRootFraction(293, 6, K(61))
    ensures CubeRootFraction(307, 6, K(62))
    ensures CubeRootFraction(311, 6, K(63))
  {
    KValues56();
    hide K;
  }

}
