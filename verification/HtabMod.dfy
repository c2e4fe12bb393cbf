/** The hash reductions of compat/hashtab.c.

    `htab_mod_1` replaces `x % y` by a multiplication whose high half is kept, one addition
    and one shift, all in 32-bit unsigned arithmetic.  The inverses come from a table.  This
    module states when such a replacement is exact, proves it, and checks every table entry. */
module HtabMod {

  const WORD: nat := 0x1_0000_0000

  /** An unsigned 32-bit value (`hashval_t`). */
  type Hash = x: int | 0 <= x < WORD

  function Pow2(n: nat): (r: nat)
    ensures r > 0
  {
    if n == 0 then 1 else 2 * Pow2(n - 1)
  }

  /** One row of the prime table: `inv` and `invM2` are the low words of the multipliers for
      `prime` and `prime - 2`; bit 32 of each multiplier is implied. */
  datatype PrimeEnt = PrimeEnt(prime: Hash, inv: Hash, invM2: Hash, shift: nat)

  /** `htab_mod_1`, with every 32-bit truncation of the C code written out: the high word of
      the product, then the steps that turn it into quotient and remainder. */
  function ModOne(x: Hash, y: Hash, inv: Hash, shift: nat): Hash
  {
    FromHighWord(x, y, x * inv / WORD % WORD, Pow2(shift))
  }

  function FromHighWord(x: Hash, y: nat, t1: nat, p: nat): Hash
    requires p > 0
  {
    var t2 := (x - t1) % WORD;
    var t3 := t2 / 2;
    var t4 := (t1 + t3) % WORD;
    var q := t4 / p;
    (x - q * y) % WORD
  }

  /** The multiplier 2^32 + inv is within the tolerance that makes the division by `d` exact. */
  predicate Multiplier(d: nat, inv: nat, shift: nat)
  {
    && Pow2(shift) < d <= Pow2(shift + 1)
    && WORD * Pow2(shift + 1) <= (WORD + inv) * d <= WORD * Pow2(shift + 1) + Pow2(shift + 1)
  }

  // ----- arithmetic used below -----

  lemma DivUnique(n: int, d: int, q: int)
    requires d > 0 && q * d <= n < (q + 1) * d
    ensures n / d == q
  {
    var e := n / d;
    DivBounds(n, d);
    CancelLt(q, e + 1, d);
    CancelLt(e, q + 1, d);
  }

  lemma MulMono(a: int, b: int, d: int)
    requires a <= b && 0 <= d
    ensures a * d <= b * d
  {
  }

  lemma DivBounds(n: int, d: int)
    requires d > 0
    ensures n / d * d <= n < (n / d + 1) * d
  {
    assert n == n / d * d + n % d;
  }

  lemma DivDiv(n: nat, a: nat, b: nat)
    requires a > 0 && b > 0
    ensures a * b > 0 && n / a / b == n / (a * b)
  {
    var u := n / a;
    var q := u / b;
    DivBounds(n, a);
    DivBounds(u, b);
    assert q * b <= u <= (q + 1) * b - 1;
    assert q * (a * b) <= n by {
      MulMono(q * b, u, a);
      assert (q * b) * a == q * (a * b);
    }
    assert n < (q + 1) * (a * b) by {
      MulMono(u + 1, (q + 1) * b, a);
      assert ((q + 1) * b) * a == (q + 1) * (a * b);
    }
    DivUnique(n, a * b, q);
  }

  lemma CancelLt(a: int, b: int, d: int)
    requires d > 0 && a * d < b * d
    ensures a < b
  {
    if b <= a { MulMono(b, a, d); }
  }

  lemma CancelLe(a: int, b: int, d: int)
    requires d > 0 && a * d <= b * d
    ensures a <= b
  {
    if b < a { MulMono(b + 1, a, d); }
  }

  /** The rounding error of the multiplier, spread over any 32-bit dividend, stays below one. */
  lemma ErrorBound(x: Hash, e: nat, p: nat)
    requires e <= p && p > 0
    ensures 0 <= x * e < WORD * p
  {
    calc {
      x * e;
    <= { MulMono(e, p, x); }
      x * p;
    <  { MulMono(x + 1, WORD, p); }
      WORD * p;
    }
  }

  lemma ScaledProduct(x: int, m: int, d: int, big: int, e: int)
    requires m * d == big + e
    ensures (x * m) * d == x * big + x * e
  {
    assert (x * m) * d == x * (m * d);
  }

  lemma Rearranged(q: int, a: int, d: int)
    ensures (q * a) * d == (q * d) * a
  {
  }

  /** The quotient the C code computes, before it is split into 32-bit steps. */
  lemma {:induction false} QuotientExact(x: Hash, d: nat, inv: nat, p: nat)
    requires d > 0 && p > 0
    requires WORD * p <= (WORD + inv) * d <= WORD * p + p
    ensures x * (WORD + inv) / (WORD * p) == x / d
  {
    var m, q, big := WORD + inv, x / d, WORD * p;
    var e := m * d - big;
    DivBounds(x, d);
    ErrorBound(x, e, p);
    ScaledProduct(x, m, d, big, e);
    CancelLe(q * big, x * m, d) by {
      MulMono(q * d, x, big);
      Rearranged(q, big, d);
    }
    CancelLt(x * m, (q + 1) * big, d) by {
      MulMono(x + 1, (q + 1) * d, big);
      assert (x + 1) * big == x * big + big;
      Rearranged(q + 1, big, d);
    }
    DivUnique(x * m, big, q);
  }

  /** t1 + (x - t1) / 2 is the halved sum, and both stay within 32 bits. */
  lemma HalvedSum(x: Hash, inv: Hash)
    ensures 0 <= x * inv / WORD <= x
    ensures var hi := x * inv / WORD; hi + (x - hi) / 2 == (x + hi) / 2 && x + hi == x * (WORD + inv) / WORD
  {
    var hi := x * inv / WORD;
    DivBounds(x * inv, WORD);
    MulMono(inv, WORD, x);
    assert x * (WORD + inv) == x * inv + x * WORD;
    DivUnique(x * (WORD + inv), WORD, x + hi);
  }

  lemma QuotientSteps(x: Hash, y: nat, inv: Hash, p: nat)
    requires y > 0 && p > 0
    requires WORD * (2 * p) <= (WORD + inv) * y <= WORD * (2 * p) + 2 * p
    ensures (x + x * inv / WORD) / 2 / p == x / y
  {
    HalvedSum(x, inv);
    DivDiv(x + x * inv / WORD, 2, p);
    MulMono(0, x, WORD + inv);
    DivDiv(x * (WORD + inv), WORD, 2 * p);
    QuotientExact(x, y, inv, 2 * p);
  }

  /** No 32-bit truncation in the C steps loses information once the quotient is right. */
  lemma WordSteps(x: Hash, y: nat, hi: nat, q: nat, p: nat)
    requires hi <= x && y > 0 && p > 0
    requires (hi + (x - hi) / 2) / p == q == x / y
    ensures FromHighWord(x, y, hi, p) == x % y
  {
    assert (x - hi) % WORD == x - hi;
    assert (hi + (x - hi) / 2) % WORD == hi + (x - hi) / 2;
    DivBounds(x, y);
    assert x - q * y == x % y;
  }

  lemma HighWordRemainder(x: Hash, y: nat, inv: Hash, p: nat)
    requires y > 0 && p > 0
    requires WORD * (2 * p) <= (WORD + inv) * y <= WORD * (2 * p) + 2 * p
    ensures x * inv / WORD % WORD == x * inv / WORD
    ensures FromHighWord(x, y, x * inv / WORD, p) == x % y
  {
    var hi := x * inv / WORD;
    HalvedSum(x, inv);
    assert hi % WORD == hi;
    assert (hi + (x - hi) / 2) / p == x / y by { QuotientSteps(x, y, inv, p); }
    WordSteps(x, y, hi, x / y, p);
  }

  /** `htab_mod_1` equals the remainder for every 32-bit dividend, whenever the multiplier is
      within tolerance. */
  lemma {:induction false} ModOneIsRemainder(x: Hash, y: Hash, inv: Hash, shift: nat)
    requires Multiplier(y, inv, shift)
    ensures ModOne(x, y, inv, shift) == x % y
  {
    HighWordRemainder(x, y, inv, Pow2(shift));
  }

  /** A table row serves both its prime and the prime minus two with one shift. */
  predicate Row(p: PrimeEnt)
  {
    && Multiplier(p.prime, p.inv, p.shift)
    && Multiplier(p.prime - 2, p.invM2, p.shift)
  }

  /** `htab_mod`: the primary index. */
  function Mod(hash: Hash, p: PrimeEnt): (r: nat)
  {
    ModOne(hash, p.prime, p.inv, p.shift)
  }

  /** `htab_mod_m2`: the probe step. */
  function ModM2(hash: Hash, p: PrimeEnt): (r: nat)
    requires p.prime > 2
  {
    (1 + ModOne(hash, p.prime - 2, p.invM2, p.shift)) % WORD
  }

  /** Both reductions are the intended remainders, for every hash. */
  lemma FirstReductionExact(hash: Hash, p: PrimeEnt)
    requires p.prime > 2 && Row(p)
    ensures Mod(hash, p) == hash % p.prime
  {
    ModOneIsRemainder(hash, p.prime, p.inv, p.shift);
  }

  lemma SecondReductionExact(hash: Hash, p: PrimeEnt)
    requires p.prime > 2 && Row(p)
    ensures ModM2(hash, p) == 1 + hash % (p.prime - 2)
  {
    ModOneIsRemainder(hash, p.prime - 2, p.invM2, p.shift);
    SmallWord(1 + hash % (p.prime - 2));
  }

  lemma SmallWord(n: nat)
    requires n < WORD
    ensures n % WORD == n
  {
  }

  /** The two reductions by a row's constants are the remainders they replace. */
  ghost predicate ReducesExactly(p: PrimeEnt)
  {
    && p.prime > 2
    && (forall h: Hash :: Mod(h, p) == h % p.prime)
    && (forall h: Hash :: ModM2(h, p) == 1 + h % (p.prime - 2))
  }

  lemma RowReducesExactly(p: PrimeEnt)
    requires p.prime > 2 && Row(p)
    ensures ReducesExactly(p)
  {
    forall h: Hash
      ensures Mod(h, p) == h % p.prime
    {
      FirstReductionExact(h, p);
    }
    forall h: Hash
      ensures ModM2(h, p) == 1 + h % (p.prime - 2)
    {
      SecondReductionExact(h, p);
    }
  }
}
