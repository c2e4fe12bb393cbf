/** The constants of compat/hashtab.c:135-167 and what the table code needs of them. */
module HtabPrimeTable {
  import opened HtabMod
  import opened HtabProbe

  const PRIME_TAB: seq<PrimeEnt> := [
    PrimeEnt(7, 0x24924925, 0x9999999b, 2),
    PrimeEnt(13, 0x3b13b13c, 0x745d1747, 3),
    PrimeEnt(31, 0x08421085, 0x1a7b9612, 4),
    PrimeEnt(61, 0x0c9714fc, 0x15b1e5f8, 5),
    PrimeEnt(127, 0x02040811, 0x0624dd30, 6),
    PrimeEnt(251, 0x05197f7e, 0x073260a5, 7),
    PrimeEnt(509, 0x01824366, 0x02864fc8, 8),
    PrimeEnt(1021, 0x00c0906d, 0x014191f7, 9),
    PrimeEnt(2039, 0x0121456f, 0x0161e69e, 10),
    PrimeEnt(4093, 0x00300902, 0x00501908, 11),
    PrimeEnt(8191, 0x00080041, 0x00180241, 12),
    PrimeEnt(16381, 0x000c0091, 0x00140191, 13),
    PrimeEnt(32749, 0x002605a5, 0x002a06e6, 14),
    PrimeEnt(65521, 0x000f00e2, 0x00110122, 15),
    PrimeEnt(131071, 0x00008001, 0x00018003, 16),
    PrimeEnt(262139, 0x00014002, 0x0001c004, 17),
    PrimeEnt(524287, 0x00002001, 0x00006001, 18),
    PrimeEnt(1048573, 0x00003001, 0x00005001, 19),
    PrimeEnt(2097143, 0x00004801, 0x00005801, 20),
    PrimeEnt(4194301, 0x00000c01, 0x00001401, 21),
    PrimeEnt(8388593, 0x00001e01, 0x00002201, 22),
    PrimeEnt(16777213, 0x00000301, 0x00000501, 23),
    PrimeEnt(33554393, 0x00001381, 0x00001481, 24),
    PrimeEnt(67108859, 0x00000141, 0x000001c1, 25),
    PrimeEnt(134217689, 0x000004e1, 0x00000521, 26),
    PrimeEnt(268435399, 0x00000391, 0x000003b1, 27),
    PrimeEnt(536870909, 0x00000019, 0x00000029, 28),
    PrimeEnt(1073741789, 0x0000008d, 0x00000095, 29),
    PrimeEnt(2147483647, 0x00000003, 0x00000007, 30),
    PrimeEnt(0xfffffffb, 0x00000006, 0x00000008, 31)
  ]

  /** Sizes 0..LAST_SAFE-1 keep the 32-bit index sum from wrapping; the last row does not. */
  const LAST_SAFE: nat := 29
  const MAX_SAFE: nat := 0x7fff_ffff
  const MAX_SIZE: nat := 0xffff_fffb

  /** What the table code relies on, as a property of any prime table. */
  ghost predicate GoodTable(tab: seq<PrimeEnt>)
  {
    && |tab| == LAST_SAFE + 1
    && (forall i :: 0 <= i < LAST_SAFE ==> 7 <= tab[i].prime <= MAX_SAFE && IsPrime(tab[i].prime))
    && (forall i :: 0 <= i < |tab| ==> ReducesExactly(tab[i]))
    && tab[LAST_SAFE - 1].prime == MAX_SAFE
    && tab[LAST_SAFE].prime == MAX_SIZE
  }

  lemma PowersOfTwo()
    ensures Pow2(0) == 1 && Pow2(1) == 2 && Pow2(2) == 4 && Pow2(3) == 8 && Pow2(4) == 16 && Pow2(5) == 32
    ensures Pow2(6) == 64 && Pow2(7) == 128 && Pow2(8) == 256 && Pow2(9) == 512 && Pow2(10) == 1024 && Pow2(11) == 2048
    ensures Pow2(12) == 4096 && Pow2(13) == 8192 && Pow2(14) == 16384 && Pow2(15) == 32768 && Pow2(16) == 65536 &&
      Pow2(17) == 131072
    ensures Pow2(18) == 262144 && Pow2(19) == 524288 && Pow2(20) == 1048576 && Pow2(21) == 2097152 &&
      Pow2(22) == 4194304 && Pow2(23) == 8388608
    ensures Pow2(24) == 16777216 && Pow2(25) == 33554432 && Pow2(26) == 67108864 && Pow2(27) == 134217728 &&
      Pow2(28) == 268435456 && Pow2(29) == 536870912
    ensures Pow2(30) == 1073741824 && Pow2(31) == 2147483648 && Pow2(32) == 4294967296
  {
  }

  lemma TableRows0(i: nat)
    requires 0 <= i < 5
    ensures Row(PRIME_TAB[i])
  {
    PowersOfTwo();
    if i == 0 { } else if i == 1 { } else if i == 2 { } else if i == 3 { } else { }
  }

  lemma TableRows5(i: nat)
    requires 5 <= i < 10
    ensures Row(PRIME_TAB[i])
  {
    PowersOfTwo();
    if i == 5 { } else if i == 6 { } else if i == 7 { } else if i == 8 { } else { }
  }

  lemma TableRows10(i: nat)
    requires 10 <= i < 15
    ensures Row(PRIME_TAB[i])
  {
    PowersOfTwo();
    if i == 10 { } else if i == 11 { } else if i == 12 { } else if i == 13 { } else { }
  }

  lemma TableRows15(i: nat)
    requires 15 <= i < 20
    ensures Row(PRIME_TAB[i])
  {
    PowersOfTwo();
    if i == 15 { } else if i == 16 { } else if i == 17 { } else if i == 18 { } else { }
  }

  lemma TableRows20(i: nat)
    requires 20 <= i < 25
    ensures Row(PRIME_TAB[i])
  {
    PowersOfTwo();
    if i == 20 { } else if i == 21 { } else if i == 22 { } else if i == 23 { } else { }
  }

  lemma TableRows25(i: nat)
    requires 25 <= i < 30
    ensures Row(PRIME_TAB[i])
  {
    PowersOfTwo();
    if i == 25 { } else if i == 26 { } else if i == 27 { } else if i == 28 { } else { }
  }

  /** Every row of the table is within tolerance. */
  lemma TableMultipliers(i: nat)
    requires i < |PRIME_TAB|
    ensures Row(PRIME_TAB[i])
  {
    if i < 5 { TableRows0(i); } else if i < 10 { TableRows5(i); } else if i < 15 { TableRows10(i); }
      else if i < 20 { TableRows15(i); } else if i < 25 { TableRows20(i); } else { TableRows25(i); }
  }

  lemma SizesIncrease()
    ensures |PRIME_TAB| == LAST_SAFE + 1
    ensures forall i, j :: 0 <= i && j == i + 1 < |PRIME_TAB| ==> PRIME_TAB[i].prime < PRIME_TAB[j].prime
    ensures forall i :: 0 <= i < LAST_SAFE ==> 7 <= PRIME_TAB[i].prime <= MAX_SAFE
    ensures PRIME_TAB[LAST_SAFE - 1].prime == MAX_SAFE && PRIME_TAB[LAST_SAFE].prime == MAX_SIZE
  {
  }

  /** The k-th slot that the probe loop visits for a hash is that of the probe sequence. */
  predicate ProbesAt(hash: Hash, p: nat, k: nat)
    requires 2 < p < WORD
  {
    Walk(hash % p, 1 + hash % (p - 2), p, k) == ProbeAt(hash % p, 1 + hash % (p - 2), p, k)
  }

  /** A size of the table is walked exactly for all hashes if and only if it is at most 2147483647. */
  lemma WalksExactly(i: nat)
    requires i < |PRIME_TAB|
    ensures 2 < PRIME_TAB[i].prime < WORD
    ensures (forall hash: Hash, k: nat :: ProbesAt(hash, PRIME_TAB[i].prime, k)) <==> PRIME_TAB[i].prime <= MAX_SAFE
  {
    SizesIncrease();
    var p := PRIME_TAB[i].prime;
    if p <= MAX_SAFE {
      forall hash: Hash, k: nat
        ensures ProbesAt(hash, p, k)
      {
        WalkIsProbes(hash % p, 1 + hash % (p - 2), p, k);
      }
    } else {
      LargestTableWraps();
      assert !ProbesAt(0xffffffef, p, 1);
    }
  }

  /** The shipped table is good, given that its first 29 sizes are prime numbers. */
  lemma ShippedTableIsGood()
    requires forall i :: 0 <= i < LAST_SAFE ==> IsPrime(PRIME_TAB[i].prime)
    ensures GoodTable(PRIME_TAB)
  {
    forall i | 0 <= i < |PRIME_TAB|
      ensures ReducesExactly(PRIME_TAB[i])
    {
      TableMultipliers(i);
      RowReducesExactly(PRIME_TAB[i]);
    }
    SizesIncrease();
  }
}
