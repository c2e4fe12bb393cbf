/** The substitution table of aes.c:79-96 against section 5.1.1 of FIPS 197: the inverse in the field,
    then an affine map over its bits. */
module AesSbox {
  import opened Common
  import opened AesBytes

  function Term(y: Byte, bit: Byte, x: Byte): Byte
  {
    if y & bit != 0 then x else 0
  }

  /** Multiplication in GF(2^8) modulo x^8 + x^4 + x^3 + x + 1, section 4.2. */
  function FieldTimes(x: Byte, y: Byte): Byte
  {
    var x2 := Xtime(x);
    var x4 := Xtime(x2);
    var x8 := Xtime(x4);
    var x16 := Xtime(x8);
    var x32 := Xtime(x16);
    var x64 := Xtime(x32);
    var x128 := Xtime(x64);
    Term(y, 1, x) ^ Term(y, 2, x2) ^ Term(y, 4, x4) ^ Term(y, 8, x8) ^
    Term(y, 16, x16) ^ Term(y, 32, x32) ^ Term(y, 64, x64) ^ Term(y, 128, x128)
  }

  /** Bit i becomes the sum of the bits i, i + 4, .., i + 7, counted cyclically, and of bit i of {63}. */
  function Affine(b: Byte): Byte
  {
    b ^ ((b << 1) | (b >> 7)) ^ ((b << 2) | (b >> 6)) ^ ((b << 3) | (b >> 5)) ^ ((b << 4) | (b >> 4)) ^ 0x63
  }

  function AffineInverse(s: Byte): Byte
  {
    ((s << 1) | (s >> 7)) ^ ((s << 3) | (s >> 5)) ^ ((s << 6) | (s >> 2)) ^ 0x05
  }

  lemma AffineUndone(s: Byte)
    ensures Affine(AffineInverse(s)) == s && AffineInverse(Affine(s)) == s
  {
  }

  // ----- every byte but zero has an inverse -----

  lemma FirstInverts(x: Byte)
    requires 0 < x < 0x40
    ensures FieldTimes(x, AffineInverse(Sbox(x))) == 1
  {
    if x < 0x10 {
    } else if x < 0x20 {
    } else if x < 0x30 {
    }
  }

  lemma SecondInverts(x: Byte)
    requires 0x40 <= x < 0x80
    ensures FieldTimes(x, AffineInverse(Sbox(x))) == 1
  {
    if x < 0x50 {
    } else if x < 0x60 {
    } else if x < 0x70 {
    }
  }

  lemma ThirdInverts(x: Byte)
    requires 0x80 <= x < 0xc0
    ensures FieldTimes(x, AffineInverse(Sbox(x))) == 1
  {
    if x < 0x90 {
    } else if x < 0xa0 {
    } else if x < 0xb0 {
    }
  }

  lemma LastInverts(x: Byte)
    requires x >= 0xc0
    ensures FieldTimes(x, AffineInverse(Sbox(x))) == 1
  {
    if x < 0xd0 {
    } else if x < 0xe0 {
    } else if x < 0xf0 {
    }
  }

  lemma EntryInverts(x: Byte)
    requires x != 0
    ensures FieldTimes(x, AffineInverse(Sbox(x))) == 1
  {
    hide FieldTimes, Sbox, AffineInverse;
    if x < 0x40 {
      FirstInverts(x);
    } else if x < 0x80 {
      SecondInverts(x);
    } else if x < 0xc0 {
      ThirdInverts(x);
    } else {
      LastInverts(x);
    }
  }

  // ----- and the table is the affine map of any inverse -----

  lemma FirstQuarter(x: Byte, y: Byte)
    requires x < 0x40 && FieldTimes(x, y) == 1
    ensures Sbox(x) == Affine(y)
  {
  }

  lemma SecondQuarter(x: Byte, y: Byte)
    requires 0x40 <= x < 0x80 && FieldTimes(x, y) == 1
    ensures Sbox(x) == Affine(y)
  {
  }

  lemma ThirdQuarter(x: Byte, y: Byte)
    requires 0x80 <= x < 0xc0 && FieldTimes(x, y) == 1
    ensures Sbox(x) == Affine(y)
  {
  }

  lemma LastQuarter(x: Byte, y: Byte)
    requires x >= 0xc0 && FieldTimes(x, y) == 1
    ensures Sbox(x) == Affine(y)
  {
  }

  ghost predicate Inverse(x: Byte, y: Byte)
  {
    if x == 0 then y == 0 else FieldTimes(x, y) == 1
  }

  /** Every entry of the table is the affine map of the inverse of its index, which exists and is the
      only one; zero stands for its own inverse. */
  lemma SboxIsInverseThenAffine(x: Byte)
    ensures exists y :: Inverse(x, y)
    ensures forall y, z :: Inverse(x, y) && Inverse(x, z) ==> y == z
    ensures forall y :: Inverse(x, y) ==> Sbox(x) == Affine(y)
  {
    hide FieldTimes, Sbox, Affine, AffineInverse;
    var y0 := AffineInverse(Sbox(x));
    if x == 0 {
      ZeroEntry();
      assert Inverse(x, 0);
    } else {
      EntryInverts(x);
      assert Inverse(x, y0);
    }
    forall y | Inverse(x, y)
      ensures Sbox(x) == Affine(y) && y == y0
    {
      if x == 0 {
        ZeroEntry();
      } else if x < 0x40 {
        FirstQuarter(x, y);
      } else if x < 0x80 {
        SecondQuarter(x, y);
      } else if x < 0xc0 {
        ThirdQuarter(x, y);
      } else {
        LastQuarter(x, y);
      }
      AffineUndone(y);
    }
  }

  lemma ZeroEntry()
    ensures Sbox(0) == Affine(0)
  {
  }
}
