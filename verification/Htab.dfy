/** The open-addressing hash table of compat/hashtab.c, updated in place.

    Each method is proved against the finite map its slots stand for (`Map`). */
module HtabTable {
  import opened Common
  import opened HtabMod
  import opened HtabPrimeTable
  import opened HtabProbe
  import opened HtabSlots

  /** `enum insert_option` */
  datatype InsertOption = NoInsert | Insert

  const DOWNSIZE_ABOVE: nat := 1024 * 1024 / 8
  const DOWNSIZE_TO: nat := 1024 / 8

  /** `i` is the first row whose prime is at least `n`. */
  predicate FirstPrime(tab: seq<PrimeEnt>, n: nat, i: nat)
  {
    && i < |tab|
    && n <= tab[i].prime
    && (i > 0 ==> tab[i - 1].prime < n)
  }

  function Middle(low: nat, high: nat): (mid: nat)
    requires low < high
    ensures low <= mid < high
  {
    low + (high - low) / 2
  }

  /** Where the binary search of `higher_prime_index` ends. */
  function SearchEnd(tab: seq<PrimeEnt>, n: nat, low: nat, high: nat): (end: nat)
    requires low <= high <= |tab|
    ensures low <= end <= high
    decreases high - low
  {
    if low == high then low
    else
      var mid := Middle(low, high);
      if n > tab[mid].prime then SearchEnd(tab, n, mid + 1, high) else SearchEnd(tab, n, low, mid)
  }

  lemma {:induction false} SearchSplits(tab: seq<PrimeEnt>, n: nat, low: nat, high: nat)
    requires low <= high <= |tab|
    requires low > 0 ==> tab[low - 1].prime < n
    requires high < |tab| ==> n <= tab[high].prime
    ensures var end := SearchEnd(tab, n, low, high);
      (end > 0 ==> tab[end - 1].prime < n) && (end < |tab| ==> n <= tab[end].prime)
    decreases high - low
  {
    hide Middle;
    if low != high {
      var mid := Middle(low, high);
      if n > tab[mid].prime { SearchSplits(tab, n, mid + 1, high); } else { SearchSplits(tab, n, low, mid); }
    }
  }

  /** The search stays in the table if and only if a prime is large enough, and then finds the first
      such prime.  Otherwise the C code goes on to read the row behind the table. */
  lemma SearchExactly(tab: seq<PrimeEnt>, n: nat)
    requires GoodTable(tab)
    ensures var end := SearchEnd(tab, n, 0, |tab|);
      && (end < |tab| <==> n <= MAX_SIZE)
      && (end < |tab| ==> FirstPrime(tab, n, end))
      && (n <= MAX_SAFE ==> end < LAST_SAFE)
  {
    hide SearchEnd, ReducesExactly, IsPrime;
    SearchSplits(tab, n, 0, |tab|);
    var end := SearchEnd(tab, n, 0, |tab|);
    assert end > 0 ==> tab[end - 1].prime < n;
    assert tab[LAST_SAFE].prime == MAX_SIZE && tab[LAST_SAFE - 1].prime == MAX_SAFE;
  }

  /** For 4294967292 slots the search ends behind the last of the thirty rows. */
  lemma SearchRunsOut(tab: seq<PrimeEnt>)
    requires GoodTable(tab)
    ensures SearchEnd(tab, 0xffff_fffc, 0, |tab|) == |tab| == 30
  {
    SearchExactly(tab, 0xffff_fffc);
  }

  /** A table of a size that is walked exactly, with `elts` live entries, expands to such a size if and only
      if these are at most 1073741823; for more of them it is always resized. */
  lemma ExpandsSafelyExactly(tab: seq<PrimeEnt>, elts: nat, size: nat)
    requires GoodTable(tab) && size <= MAX_SAFE
    ensures SearchEnd(tab, elts * 2, 0, |tab|) < LAST_SAFE <==> elts <= MAX_SAFE / 2
    ensures elts > MAX_SAFE / 2 ==> elts * 2 > size
  {
    hide SearchEnd, ReducesExactly, IsPrime;
    SearchExactly(tab, elts * 2);
    SearchSplits(tab, elts * 2, 0, |tab|);
  }

  /** `higher_prime_index` up to its check: the row found, or the end of the table, at which the C code
      reads one row too far and aborts. */
  method HigherPrimeIndex(tab: seq<PrimeEnt>, n: nat) returns (low: nat)
    requires GoodTable(tab)
    ensures low == SearchEnd(tab, n, 0, |tab|)
    ensures low <= |tab| && (low < |tab| <==> n <= MAX_SIZE)
    ensures low < |tab| ==> FirstPrime(tab, n, low)
    ensures n <= MAX_SAFE ==> low < LAST_SAFE
  {
    hide GoodTable, Middle;
    low := 0;
    var high := |tab|;
    while low != high
      invariant low <= high <= |tab|
      invariant SearchEnd(tab, n, low, high) == SearchEnd(tab, n, 0, |tab|)
      decreases high - low
    {
      var mid := Middle(low, high);
      if n > tab[mid].prime {
        low := mid + 1;
      } else {
        high := mid;
      }
    }
    SearchExactly(tab, n);
  }

  /** The 32-bit step leads from each probe to the next. */
  lemma NextProbe(hash: Hash, size: nat, index: Hash, hash2: Hash, k: nat)
    requires 2 < size < 0x8000_0000 && index == ProbeSlot(hash, size, k) && hash2 == 1 + hash % (size - 2)
    ensures Advance(index, hash2, size) == ProbeSlot(hash, size, k + 1)
  {
    AdvanceExactness(index, hash2, size);
  }

  class Htab<K(==), V(!new)> {
    const c: Keyed<K, V>
    const tab: seq<PrimeEnt>
    var entries: array<Slot<V>>
    var size: nat
    var nElements: nat
    var nDeleted: nat
    var primeIndex: nat

    ghost predicate Shape()
      reads this, entries
    {
      && GoodTable(tab)
      && primeIndex < LAST_SAFE
      && size == entries.Length == tab[primeIndex].prime
    }

    ghost predicate Valid()
      reads this, entries
    {
      Shape() && Consistent(c, entries[..], nElements, nDeleted)
    }

    /** The abstract value of the table. */
    ghost function Map(): map<K, V>
      requires Valid()
      reads this, entries
    {
      Contents(c, entries[..])
    }

    /** `htab_create_alloc`; for more than 4294967291 slots it aborts.  With the last size the table is
        made but its probe loops are not exact. */
    constructor (primes: seq<PrimeEnt>, callbacks: Keyed<K, V>, n: nat)
      requires GoodTable(primes) && n <= MAX_SIZE
      ensures fresh(entries) && c == callbacks && tab == primes && nElements == nDeleted == 0
      ensures FirstPrime(tab, n, primeIndex) && size == entries.Length == tab[primeIndex].prime
      ensures forall i :: 0 <= i < size ==> entries[i].Empty?
      ensures Unique(c, entries[..]) && Contents(c, entries[..]) == map[]
      ensures n <= MAX_SAFE ==> Valid() && Map() == map[]
    {
      var index := HigherPrimeIndex(primes, n);
      var sz := primes[index].prime;
      var slots := new Slot<V>[sz](_ => Empty);
      c, tab := callbacks, primes;
      entries := slots;
      size := sz;
      primeIndex := index;
      nElements := 0;
      nDeleted := 0;
      new;
      if n <= MAX_SAFE { AllEmptyWellFormed(c, entries[..]); }
    }

    /** `htab_mod` */
    method FirstIndex(hash: Hash) returns (index: nat)
      requires Shape()
      ensures index == ProbeSlot(hash, size, 0)
    {
      var row := tab[primeIndex];
      assert ReducesExactly(row);
      SmallMod(hash % size, size);
      index := Mod(hash, row);
    }

    /** `htab_mod_m2` */
    method ProbeStep(hash: Hash) returns (hash2: Hash)
      requires Shape()
      ensures hash2 == 1 + hash % (size - 2)
    {
      var row := tab[primeIndex];
      assert ReducesExactly(row);
      hash2 := ModM2(hash, row);
    }

    /** `index += hash2; if (index >= size) index -= size;` */
    method NextIndex(hash: Hash, index: Hash, hash2: Hash, ghost k: nat) returns (next: nat)
      requires Shape() && index == ProbeSlot(hash, size, k) && hash2 == 1 + hash % (size - 2)
      ensures next == ProbeSlot(hash, size, k + 1)
    {
      NextProbe(hash, size, index, hash2, k);
      next := Advance(index, hash2, size);
    }

    /** `htab_find_with_hash` */
    method FindWithHash(element: K, hash: Hash) returns (r: Option<V>)
      requires Valid() && hash == c.hash(element)
      ensures r == if element in Map() then Some(Map()[element]) else None
    {
      var index := FirstIndex(hash);
      ghost var last := EmptyProbe(entries[..], hash);
      ghost var k := 0;
      var entry := entries[index];
      if entry.Empty? {
        MissMeansAbsent(c, entries[..], element, 0);
        return None;
      }
      if entry.Live? && c.key(entry.value) == element {
        HitMeansPresent(c, entries[..], element, index);
        return Some(entry.value);
      }
      var hash2 := ProbeStep(hash);
      while true
        invariant index == ProbeSlot(hash, size, k) && k < last
        invariant Missed(c, entries[..], element, k + 1)
        decreases last - k
      {
        index := NextIndex(hash, index, hash2, k);
        k := k + 1;
        entry := entries[index];
        if entry.Empty? {
          MissMeansAbsent(c, entries[..], element, k);
          return None;
        }
        if entry.Live? && c.key(entry.value) == element {
          HitMeansPresent(c, entries[..], element, index);
          return Some(entry.value);
        }
      }
    }

    /** `find_empty_slot_for_expand`: the C code aborts on a tombstone, so there must be none. */
    method FindEmptySlotForExpand(hash: Hash) returns (index: nat, ghost k: nat)
      requires Shape() && Used(entries[..]) < size
      requires forall i :: 0 <= i < size ==> !entries[i].Deleted?
      ensures index < size && entries[index].Empty?
      ensures ReachableAt(entries[..], hash, index, k)
    {
      index := FirstIndex(hash);
      ghost var last := EmptyProbe(entries[..], hash);
      k := 0;
      if entries[index].Empty? {
        return;
      }
      var hash2 := ProbeStep(hash);
      while true
        invariant index == ProbeSlot(hash, size, k) && k < last
        invariant PathUsed(entries[..], hash, k + 1)
        decreases last - k
      {
        index := NextIndex(hash, index, hash2, k);
        k := k + 1;
        if entries[index].Empty? {
          return;
        }
      }
    }

    /** `htab_elements` */
    function Elements(): (n: int)
      reads this
    {
      nElements - nDeleted
    }

    /** The copying loop of `htab_expand`. */
    method MoveEntries(oentries: array<Slot<V>>)
      requires Shape() && oentries != entries && Unique(c, oentries[..])
      requires forall i :: 0 <= i < size ==> entries[i].Empty?
      requires Used(oentries[..]) - Tombs(oentries[..]) < size
      modifies entries
      ensures Copied(c, oentries[..], oentries.Length, entries[..])
    {
      ghost var olds := oentries[..];
      AllEmptyWellFormed(c, entries[..]);
      assert olds[..0] == [] && Contents(c, olds[..0]) == map[];
      var p := 0;
      while p < oentries.Length
        invariant p <= oentries.Length && oentries[..] == olds
        invariant Copied(c, olds, p, entries[..])
      {
        var x := oentries[p];
        ghost var before := entries[..];
        if x.Live? {
          var q, k := FindEmptySlotForExpand(c.hash(c.key(x.value)));
          CopyStep(c, olds, p, before, q, k);
          entries[q] := x;
          assert entries[..] == before[q := x];
        } else {
          SkipStep(c, olds, p, before);
        }
        p := p + 1;
      }
    }

    /** `htab_expand`: moves the live entries to a fresh slot array, resized when the old one
        was more than half live or less than one eighth live. */
    method Expand()
      requires Valid() && |Map()| <= MAX_SAFE / 2
      modifies this
      ensures Valid() && fresh(entries) && Map() == old(Map())
      ensures nDeleted == 0 && nElements == |Map()| && 2 * nElements <= size
      ensures var elts := |Map()|;
              if elts * 2 > old(size) || (elts * 8 < old(size) && old(size) > 32)
              then FirstPrime(tab, elts * 2, primeIndex)
              else primeIndex == old(primeIndex)
    {
      hide Contents, Used, Tombs, AllReachable, ReducesExactly, IsPrime;
      var oentries, osize := entries, size;
      LiveCount(c, oentries[..]);
      var elts := Elements();
      var nindex, nsize := primeIndex, osize;
      if elts * 2 > osize || (elts * 8 < osize && osize > 32) {
        nindex := HigherPrimeIndex(tab, elts * 2);
        nsize := tab[nindex].prime;
      }
      entries := new Slot<V>[nsize](_ => Empty);
      size := nsize;
      primeIndex := nindex;
      nElements := nElements - nDeleted;
      nDeleted := 0;
      MoveEntries(oentries);
      assert oentries[..osize] == oentries[..];
    }

    /** The probe loop of `htab_find_slot_with_hash`: ends at the key or at an empty slot, and
        remembers the first tombstone met on the way. */
    method ProbeForSlot(element: K, hash: Hash) returns (found: bool, index: nat, firstDeleted: Option<nat>,
      ghost k: nat, ghost d: nat)
      requires Valid() && hash == c.hash(element)
      ensures index < size
      ensures found ==> Holds(c, entries[index], element)
      ensures !found ==>
        entries[index].Empty? && Missed(c, entries[..], element, k) && ReachableAt(entries[..], hash, index, k)
      ensures firstDeleted.Some? ==>
                && firstDeleted.value < size && entries[firstDeleted.value].Deleted?
                && ReachableAt(entries[..], hash, firstDeleted.value, d)
    {
      hide Contents, AllReachable, Used, Tombs, IsPrime;
      ghost var last := EmptyProbe(entries[..], hash);
      index := FirstIndex(hash);
      firstDeleted := None;
      k, d := 0, 0;
      var entry := entries[index];
      if entry.Empty? {
        return false, index, firstDeleted, k, d;
      } else if entry.Deleted? {
        firstDeleted := Some(index);
      } else if c.key(entry.value) == element {
        return true, index, firstDeleted, k, d;
      }
      var hash2 := ProbeStep(hash);
      while true
        invariant index == ProbeSlot(hash, size, k) && k < last
        invariant Missed(c, entries[..], element, k + 1) && PathUsed(entries[..], hash, k + 1)
        invariant firstDeleted.Some? ==>
                    && firstDeleted.value < size && entries[firstDeleted.value].Deleted?
                    && ReachableAt(entries[..], hash, firstDeleted.value, d)
        decreases last - k
      {
        index := NextIndex(hash, index, hash2, k);
        k := k + 1;
        entry := entries[index];
        if entry.Empty? {
          return false, index, firstDeleted, k, d;
        } else if entry.Deleted? {
          if firstDeleted == None {
            firstDeleted := Some(index);
            d := k;
          }
        } else if c.key(entry.value) == element {
          return true, index, firstDeleted, k, d;
        }
      }
    }

    /** `htab_find_slot_with_hash`: the slot holding the key, or, when inserting, the slot the
        caller has to write the new entry into. */
    method FindSlotWithHash(element: K, hash: Hash, insert: InsertOption) returns (slot: Option<nat>)
      requires Valid() && hash == c.hash(element)
      requires insert == Insert && size * 3 <= nElements * 4 ==> |Map()| <= MAX_SAFE / 2
      modifies this, entries
      ensures Shape() && (fresh(entries) || entries == old(entries))
      ensures element in old(Map()) ==>
                && Valid() && Map() == old(Map())
                && slot.Some? && slot.value < size && Holds(c, entries[slot.value], element)
      ensures element !in old(Map()) && insert == NoInsert ==> slot == None && Valid() && Map() == old(Map())
      ensures element !in old(Map()) && insert == Insert ==>
                slot.Some? && AwaitsStore(c, entries[..], slot.value, element, old(Map()), nElements, nDeleted)
    {
      hide Contents, AwaitsStore, Used, Tombs;
      if insert == Insert && size * 3 <= nElements * 4 {
        Expand();
      }
      ghost var s := entries[..];
      var found, index, firstDeleted, k, d := ProbeForSlot(element, hash);
      if found {
        HitMeansPresent(c, s, element, index);
        return Some(index);
      }
      MissMeansAbsent(c, s, element, k);
      if insert == NoInsert {
        return None;
      }
      if firstDeleted.Some? {
        TombAwaitsStore(c, s, element, firstDeleted.value, d);
        nDeleted := nDeleted - 1;
        entries[firstDeleted.value] := Empty;
        assert entries[..] == s[firstDeleted.value := Empty];
        return firstDeleted;
      }
      EmptyAwaitsStore(c, s, element, index, k);
      nElements := nElements + 1;
      return Some(index);
    }

    /** `htab_clear_slot`: the C code aborts unless the slot holds an entry. */
    method ClearSlot(slot: nat)
      requires Valid() && slot < size && entries[slot].Live?
      modifies this, entries
      ensures Valid() && entries == old(entries)
      ensures Map() == old(Map()) - {c.key(old(entries[slot]).value)}
    {
      TombKeepsWellFormed(c, entries[..], slot);
      CountsUpdate(entries[..], slot, Deleted);
      ghost var s := entries[..];
      entries[slot] := Deleted;
      assert entries[..] == s[slot := Deleted];
      nDeleted := nDeleted + 1;
    }

    /** `htab_remove_elt_with_hash` */
    method RemoveEltWithHash(element: K, hash: Hash)
      requires Valid() && hash == c.hash(element)
      modifies this, entries
      ensures Valid() && (fresh(entries) || entries == old(entries))
      ensures Map() == old(Map()) - {element}
    {
      var slot := FindSlotWithHash(element, hash, NoInsert);
      if slot == None || entries[slot.value].Empty? {
        return;
      }
      ClearSlot(slot.value);
    }

    /** `htab_empty`: a large table is replaced by a small one, a small one is cleared. */
    method Clear()
      requires Valid()
      modifies this, entries
      ensures Valid() && (fresh(entries) || entries == old(entries))
      ensures Map() == map[] && nElements == 0 && nDeleted == 0
      ensures size == if old(size) > DOWNSIZE_ABOVE then tab[primeIndex].prime else old(size)
      ensures old(size) > DOWNSIZE_ABOVE ==> FirstPrime(tab, DOWNSIZE_TO, primeIndex)
    {
      if size > DOWNSIZE_ABOVE {
        var nindex := HigherPrimeIndex(tab, DOWNSIZE_TO);
        var nsize := tab[nindex].prime;
        entries := new Slot<V>[nsize](_ => Empty);
        size := nsize;
        primeIndex := nindex;
      } else {
        forall i | 0 <= i < entries.Length {
          entries[i] := Empty;
        }
      }
      nDeleted := 0;
      nElements := 0;
      AllEmptyWellFormed(c, entries[..]);
    }

    /** `htab_traverse_noresize` */
    method TraverseNoResize(callback: V -> bool) returns (visited: seq<V>)
      requires Valid()
      ensures visited == Visits(LiveValues(entries[..]), callback)
    {
      hide Consistent, LiveValues, Visits;
      ghost var s := entries[..];
      visited := [];
      var slot := 0;
      while slot < size
        invariant slot <= size
        invariant visited + ScanFrom(s, slot, callback) == ScanFrom(s, 0, callback)
      {
        var x := entries[slot];
        if x.Live? {
          visited := visited + [x.value];
          if !callback(x.value) {
            break;
          }
        }
        slot := slot + 1;
      }
      assert visited == ScanFrom(s, 0, callback);
      ScanVisitsLiveValues(s, 0, callback);
      assert s[0..] == s;
    }

    /** `htab_traverse` */
    method Traverse(callback: V -> bool) returns (visited: seq<V>)
      requires Valid()
      modifies this
      ensures Valid() && Map() == old(Map()) && (fresh(entries) || entries == old(entries))
      ensures visited == Visits(LiveValues(entries[..]), callback)
    {
      LiveCount(c, entries[..]);
      if Elements() * 8 < size && size > 32 {
        Expand();
      }
      visited := TraverseNoResize(callback);
    }
  }
}
