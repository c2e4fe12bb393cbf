/** Double hashing over a prime number of slots (compat/hashtab.c:588-615, 645-683).

    The probe loops have no visible bound.  They end because a step in 1..p-1 over a prime
    number p of slots visits every slot within p probes, so it meets the empty slot that the
    occupancy invariant guarantees. */
module HtabProbe {
  import opened HtabMod

  predicate Divides(d: nat, n: nat)
    requires d > 0
  {
    n % d == 0
  }

  ghost predicate IsPrime(p: nat)
  {
    p >= 2 && forall d :: 2 <= d < p ==> !Divides(d, p)
  }

  /** The slot of the k-th probe, as the loop reaches it but without a word size. */
  function ProbeAt(start: nat, step: nat, p: nat, k: nat): (i: nat)
    requires p > 0
    ensures i < p
  {
    if k == 0 then start % p else (ProbeAt(start, step, p, k - 1) + step) % p
  }

  /** `index += hash2; if (index >= size) index -= size;` on 32-bit unsigned indices. */
  function Advance(index: Hash, step: Hash, size: nat): Hash
  {
    var sum := (index + step) % WORD;
    if sum >= size then sum - size else sum
  }

  // ----- modular arithmetic -----

  lemma ModUnique(n: int, p: int, q: int, r: int)
    requires 0 <= r < p && n == q * p + r
    ensures n % p == r
  {
    DivUnique(n, p, q);
    assert n == n / p * p + n % p;
  }

  lemma ModAdd(a: int, b: int, p: int)
    requires p > 0
    ensures (a % p + b) % p == (a + b) % p
  {
    var q, r := (a % p + b) / p, (a % p + b) % p;
    assert a == a / p * p + a % p;
    assert a + b == (a / p + q) * p + r;
    ModUnique(a + b, p, a / p + q, r);
  }

  lemma ModEqualDivides(a: nat, b: nat, p: nat)
    requires p > 0 && a <= b && a % p == b % p
    ensures Divides(p, b - a)
  {
    assert b - a == (b / p - a / p) * p + 0;
    ModUnique(b - a, p, b / p - a / p, 0);
  }

  lemma SmallMod(n: nat, p: nat)
    requires p > 0 && n < p + p
    ensures n % p == if n < p then n else n - p
  {
    if n < p { ModUnique(n, p, 0, n); } else { ModUnique(n, p, 1, n - p); }
  }

  lemma {:induction false} ProbeClosedForm(start: nat, step: nat, p: nat, k: nat)
    requires p > 0
    ensures ProbeAt(start, step, p, k) == (start + k * step) % p
  {
    if k == 0 {
    } else {
      var a := start + (k - 1) * step;
      ProbeClosedForm(start, step, p, k - 1);
      ModAdd(a, step, p);
      assert a + step == start + k * step;
    }
  }

  /** The 32-bit step is the step of the probe sequence exactly when its sum does not wrap,
      which is always so up to 2147483647 slots. */
  lemma AdvanceExactness(index: Hash, step: Hash, p: nat)
    requires index < p && 0 < step < p < WORD
    ensures Advance(index, step, p) == (index + step) % p <==> index + step < WORD
  {
    SmallMod(index + step, p);
    SmallMod(index + step, WORD);
  }

  /** The slots that the probe loop visits, in 32-bit arithmetic. */
  function Walk(start: Hash, step: Hash, size: nat, k: nat): Hash
  {
    if k == 0 then start else Advance(Walk(start, step, size, k - 1), step, size)
  }

  /** Up to 2147483647 slots the loop visits the slots of the probe sequence. */
  lemma {:induction false} WalkIsProbes(start: Hash, step: Hash, p: nat, k: nat)
    requires start < p <= 0x7fff_ffff && 0 < step < p
    ensures Walk(start, step, p, k) == ProbeAt(start, step, p, k)
  {
    hide Advance;
    if k == 0 {
      SmallMod(start, p);
    } else {
      WalkIsProbes(start, step, p, k - 1);
      AdvanceExactness(Walk(start, step, p, k - 1), step, p);
    }
  }

  /** With 4294967291 slots the hash 0xffffffef starts in slot 0xffffffef and steps by 0xfffffff0, and the
      first sum already wraps. */
  lemma LargestTableWraps()
    ensures 0xffffffef % 0xfffffffb == 0xffffffef && 1 + 0xffffffef % (0xfffffffb - 2) == 0xfffffff0
    ensures Walk(0xffffffef, 0xfffffff0, 0xfffffffb, 1) == 0xffffffdf
    ensures ProbeAt(0xffffffef, 0xfffffff0, 0xfffffffb, 1) == 0xffffffe4
  {
    assert Walk(0xffffffef, 0xfffffff0, 0xfffffffb, 0) == 0xffffffef;
    assert ProbeAt(0xffffffef, 0xfffffff0, 0xfffffffb, 0) == 0xffffffef;
  }

  /** One step of that walk: sixteen slots back, from slot 15 to slot 4, and from slot 4 to 0xfffffff4. */
  lemma LargestStep(index: Hash)
    requires index < 0xfffffffb
    ensures Advance(index, 0xfffffff0, 0xfffffffb) ==
      if index >= 16 then index - 16 else if index >= 11 then index - 11 else index + 0xfffffff0
  {
    SmallMod(index + 0xfffffff0, WORD);
  }

  /** What that loop never meets: it goes down to slot 15 in slots congruent to 15 modulo 16, and from
      then on it runs round the slots congruent to 4.  Fourteen of sixteen slots are never looked at, so
      no empty slot need be met. */
  lemma {:induction false} LargestWalkStays(k: nat)
    ensures var index := Walk(0xffffffef, 0xfffffff0, 0xfffffffb, k);
      if k < 0x0fff_ffff then index == 0xffffffef - 16 * k && index % 16 == 15
      else index % 16 == 4 && index < 0xfffffff5
  {
    hide Advance;
    if k > 0 {
      LargestWalkStays(k - 1);
      LargestStep(Walk(0xffffffef, 0xfffffff0, 0xfffffffb, k - 1));
    }
  }

  /** Slot 0, for one, is never met. */
  lemma LargestWalkMisses(k: nat)
    ensures Walk(0xffffffef, 0xfffffff0, 0xfffffffb, k) != 0
  {
    LargestWalkStays(k);
  }

  // ----- a prime number of slots -----

  /** No multiple k*h with 0 < k < p of a step 0 < h < p is divisible by the prime p:
      Euclid's lemma by descent, since p % k has the same property as k. */
  lemma {:induction false} NoSmallMultiple(p: nat, h: nat, k: nat)
    requires IsPrime(p) && 0 < h < p && 0 < k < p
    ensures !Divides(p, k * h)
    decreases k
  {
    if k == 1 {
      ModUnique(h, p, 0, h);
    } else {
      var r := p % k;
      assert !Divides(k, p);
      NoSmallMultiple(p, h, r);
      if Divides(p, k * h) {
        var c, q := k * h / p, p / k;
        assert k * h == c * p;
        assert p == q * k + r;
        assert r * h == (h - q * c) * p by {
          assert p * h == q * (k * h) + r * h;
          assert q * (c * p) == (q * c) * p;
        }
        ModUnique(r * h, p, h - q * c, 0);
      }
    }
  }

  lemma {:induction false} ProbesDistinct(start: nat, step: nat, p: nat, i: nat, j: nat)
    requires IsPrime(p) && 0 < step < p && i < j < p
    ensures ProbeAt(start, step, p, i) != ProbeAt(start, step, p, j)
  {
    if ProbeAt(start, step, p, i) == ProbeAt(start, step, p, j) {
      ProbeClosedForm(start, step, p, i);
      ProbeClosedForm(start, step, p, j);
      MulMono(i, j, step);
      ModEqualDivides(start + i * step, start + j * step, p);
      assert (j - i) * step == j * step - i * step;
      NoSmallMultiple(p, step, j - i);
    }
  }

  // ----- pigeonhole -----

  predicate Distinct(s: seq<nat>)
  {
    forall i, j :: 0 <= i < j < |s| ==> s[i] != s[j]
  }

  function Below(n: nat): (r: set<nat>)
    ensures |r| == n && forall x: nat :: x in r <==> x < n
  {
    if n == 0 then {} else Below(n - 1) + {n - 1}
  }

  function Elements(s: seq<nat>): set<nat> {
    set x | x in s
  }

  lemma {:induction false} DistinctCount(s: seq<nat>)
    requires Distinct(s)
    ensures |Elements(s)| == |s|
  {
    if |s| == 0 {
      assert Elements(s) == {};
    } else {
      var t, last := s[..|s| - 1], s[|s| - 1];
      DistinctCount(t);
      assert s == t + [last];
      assert Elements(s) == Elements(t) + {last};
    }
  }

  lemma SubsetSameSize(a: set<nat>, b: set<nat>)
    requires a <= b && |a| == |b|
    ensures a == b
  {
    if a != b {
      var x :| x in b && x !in a;
      assert a <= b - {x};
      SubsetSize(a, b - {x});
    }
  }

  lemma {:induction false} SubsetSize(a: set<nat>, b: set<nat>)
    requires a <= b
    ensures |a| <= |b|
  {
    if a != {} {
      var x :| x in a;
      SubsetSize(a - {x}, b - {x});
    }
  }

  /** n distinct values below n are all of them. */
  lemma Pigeonhole(s: seq<nat>, v: nat)
    requires Distinct(s) && v < |s| && forall x :: x in s ==> x < |s|
    ensures v in s
  {
    DistinctCount(s);
    SubsetSameSize(Elements(s), Below(|s|));
    assert v in Elements(s);
  }

  /** Every slot is met within p probes. */
  lemma {:induction false} ProbesCover(start: nat, step: nat, p: nat, slot: nat) returns (k: nat)
    requires IsPrime(p) && 0 < step < p && slot < p
    ensures k < p && ProbeAt(start, step, p, k) == slot
  {
    var s := seq(p, i requires 0 <= i < p => ProbeAt(start, step, p, i));
    forall i, j | 0 <= i < j < p
      ensures s[i] != s[j]
    {
      ProbesDistinct(start, step, p, i, j);
    }
    Pigeonhole(s, slot);
    k :| 0 <= k < |s| && s[k] == slot;
  }
}
