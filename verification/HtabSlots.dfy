/** What an open-addressing slot array means, independently of how it is updated
    (compat/hashtab.c).  All the invariants of the table are stated here on sequences. */
module HtabSlots {
  import opened HtabMod
  import opened HtabProbe

  /** HTAB_EMPTY_ENTRY, HTAB_DELETED_ENTRY, or a stored pointer. */
  datatype Slot<V> = Empty | Deleted | Live(value: V)

  /** The client's callbacks: the key of a stored element and the hash of a key. */
  datatype Keyed<!K, !V> = Keyed(key: V -> K, hash: K -> Hash)

  function ProbeSlot(hash: Hash, size: nat, k: nat): (i: nat)
    requires size > 2
    ensures i < size
  {
    ProbeAt(hash % size, 1 + hash % (size - 2), size, k)
  }

  predicate Holds<K(==), V>(c: Keyed<K, V>, slot: Slot<V>, key: K)
  {
    slot.Live? && c.key(slot.value) == key
  }

  // ----- counting -----

  function Used<V>(s: seq<Slot<V>>): (n: nat)
    ensures n <= |s|
  {
    if |s| == 0 then 0 else (if s[0].Empty? then 0 else 1) + Used(s[1..])
  }

  function Tombs<V>(s: seq<Slot<V>>): (n: nat)
    ensures n <= Used(s)
  {
    if |s| == 0 then 0 else (if s[0].Deleted? then 1 else 0) + Tombs(s[1..])
  }

  lemma {:induction false} CountsUpdate<V>(s: seq<Slot<V>>, i: nat, x: Slot<V>)
    requires i < |s|
    ensures Used(s[i := x]) == Used(s) + (if x.Empty? then 0 else 1) - (if s[i].Empty? then 0 else 1)
    ensures Tombs(s[i := x]) == Tombs(s) + (if x.Deleted? then 1 else 0) - (if s[i].Deleted? then 1 else 0)
  {
    if i == 0 {
      assert s[i := x][1..] == s[1..];
    } else {
      CountsUpdate(s[1..], i - 1, x);
      assert s[i := x][1..] == s[1..][i - 1 := x];
    }
  }

  lemma {:induction false} CountsAppend<V>(s: seq<Slot<V>>, t: seq<Slot<V>>)
    ensures Used(s + t) == Used(s) + Used(t)
    ensures Tombs(s + t) == Tombs(s) + Tombs(t)
  {
    if |s| == 0 {
      assert s + t == t;
    } else {
      CountsAppend(s[1..], t);
      assert (s + t)[1..] == s[1..] + t;
    }
  }

  lemma CountsSnoc<V>(s: seq<Slot<V>>, x: Slot<V>)
    ensures Used(s + [x]) == Used(s) + if x.Empty? then 0 else 1
    ensures Tombs(s + [x]) == Tombs(s) + if x.Deleted? then 1 else 0
  {
    CountsAppend(s, [x]);
  }

  lemma {:induction false} EmptyExists<V>(s: seq<Slot<V>>) returns (i: nat)
    requires Used(s) < |s|
    ensures i < |s| && s[i].Empty?
  {
    if s[0].Empty? {
      i := 0;
    } else {
      var j := EmptyExists(s[1..]);
      i := j + 1;
    }
  }

  lemma {:induction false} AllEmptyCounts<V>(s: seq<Slot<V>>)
    requires forall i :: 0 <= i < |s| ==> s[i].Empty?
    ensures Used(s) == 0 && Tombs(s) == 0
  {
    if |s| > 0 { AllEmptyCounts(s[1..]); }
  }

  // ----- the meaning of a slot array -----

  /** The entries of the slot array, oldest slot first: what a traversal visits. */
  function LiveValues<V>(s: seq<Slot<V>>): (r: seq<V>)
  {
    if |s| == 0 then [] else (if s[0].Live? then [s[0].value] else []) + LiveValues(s[1..])
  }

  ghost predicate Unique<K, V>(c: Keyed<K, V>, s: seq<Slot<V>>)
  {
    forall i, j :: 0 <= i < j < |s| && s[i].Live? && s[j].Live? ==> c.key(s[i].value) != c.key(s[j].value)
  }

  /** The finite map a slot array stands for. */
  ghost function Contents<K, V>(c: Keyed<K, V>, s: seq<Slot<V>>): map<K, V>
    requires Unique(c, s)
  {
    map i | 0 <= i < |s| && s[i].Live? :: c.key(s[i].value) := s[i].value
  }

  /** The probes before the k-th all meet used slots. */
  ghost predicate PathUsed<V>(s: seq<Slot<V>>, hash: Hash, k: nat)
    requires |s| > 2
  {
    forall j :: 0 <= j < k ==> !s[ProbeSlot(hash, |s|, j)].Empty?
  }

  /** Slot i is the k-th probe for some k, and no empty slot comes before it. */
  ghost predicate ReachableAt<V>(s: seq<Slot<V>>, hash: Hash, i: nat, k: nat)
    requires |s| > 2
  {
    k < |s| && ProbeSlot(hash, |s|, k) == i && PathUsed(s, hash, k)
  }

  ghost predicate Reachable<V>(s: seq<Slot<V>>, hash: Hash, i: nat)
    requires |s| > 2
  {
    exists k :: ReachableAt(s, hash, i, k)
  }

  ghost predicate AllReachable<K, V>(c: Keyed<K, V>, s: seq<Slot<V>>)
    requires |s| > 2
  {
    forall i :: 0 <= i < |s| && s[i].Live? ==> Reachable(s, c.hash(c.key(s[i].value)), i)
  }

  /** The part of the invariant that concerns the slots alone. */
  ghost predicate WellFormed<K, V>(c: Keyed<K, V>, s: seq<Slot<V>>)
  {
    && 2 < |s| < 0x8000_0000
    && IsPrime(|s|)
    && Unique(c, s)
    && AllReachable(c, s)
    && Used(s) < |s|
  }

  /** The loop's knowledge after probes 0..k-1: used slots, none of which holds the key. */
  ghost predicate Missed<K, V>(c: Keyed<K, V>, s: seq<Slot<V>>, key: K, k: nat)
    requires |s| > 2
  {
    forall j :: 0 <= j < k ==> var x := s[ProbeSlot(c.hash(key), |s|, j)]; !x.Empty? && !Holds(c, x, key)
  }

  /** The whole invariant: the slots are well formed and the two counters count them. */
  ghost predicate Consistent<K, V>(c: Keyed<K, V>, s: seq<Slot<V>>, nElements: nat, nDeleted: nat)
  {
    WellFormed(c, s) && nElements == Used(s) && nDeleted == Tombs(s)
  }

  // ----- consequences -----

  /** An empty slot is met within |s| probes: every probe loop ends. */
  lemma {:induction false} EmptyProbe<V>(s: seq<Slot<V>>, hash: Hash) returns (k: nat)
    requires 2 < |s| && IsPrime(|s|) && Used(s) < |s|
    ensures k < |s| && s[ProbeSlot(hash, |s|, k)].Empty?
  {
    var i := EmptyExists(s);
    k := ProbesCover(hash % |s|, 1 + hash % (|s| - 2), |s|, i);
  }

  /** A probe that reaches an empty slot without meeting the key proves the key absent. */
  lemma MissMeansAbsent<K, V>(c: Keyed<K, V>, s: seq<Slot<V>>, key: K, k: nat)
    requires WellFormed(c, s)
    requires s[ProbeSlot(c.hash(key), |s|, k)].Empty?
    requires Missed(c, s, key, k)
    ensures key !in Contents(c, s)
  {
  }

  lemma HitMeansPresent<K, V>(c: Keyed<K, V>, s: seq<Slot<V>>, key: K, i: nat)
    requires Unique(c, s) && i < |s| && Holds(c, s[i], key)
    ensures key in Contents(c, s) && Contents(c, s)[key] == s[i].value
  {
  }

  // ----- updates -----

  /** Filling an empty or deleted slot on the key's probe path adds the entry. */
  lemma {:induction false} StoreKeepsWellFormed<K, V>(c: Keyed<K, V>, s: seq<Slot<V>>, v: V, i: nat, k: nat)
    requires WellFormed(c, s) && i < |s| && !s[i].Live?
    requires c.key(v) !in Contents(c, s)
    requires ReachableAt(s, c.hash(c.key(v)), i, k)
    requires Used(s[i := Live(v)]) < |s|
    ensures WellFormed(c, s[i := Live(v)])
    ensures Contents(c, s[i := Live(v)]) == Contents(c, s)[c.key(v) := v]
  {
    var t := s[i := Live(v)];
    var key := c.key(v);
    assert Unique(c, t) by {
      forall j | 0 <= j < |s| && s[j].Live? ensures c.key(s[j].value) != key {
        HitMeansPresent(c, s, c.key(s[j].value), j);
      }
    }
    forall j | 0 <= j < |t| && t[j].Live?
      ensures Reachable(t, c.hash(c.key(t[j].value)), j)
    {
      if j == i {
        assert ReachableAt(t, c.hash(key), i, k);
      } else {
        StoreKeepsPath(c, s, t, i, j);
      }
    }
    var m, n := Contents(c, s), Contents(c, t);
    forall x | x in n ensures x in m[key := v] && n[x] == m[key := v][x] {
      var j :| 0 <= j < |t| && t[j].Live? && c.key(t[j].value) == x;
      HitMeansPresent(c, t, x, j);
      if j != i { HitMeansPresent(c, s, x, j); }
    }
    forall x | x in m[key := v] ensures x in n {
      if x == key { HitMeansPresent(c, t, key, i); } else {
        var j :| 0 <= j < |s| && s[j].Live? && c.key(s[j].value) == x;
        HitMeansPresent(c, t, x, j);
      }
    }
  }

  lemma StoreKeepsPath<K, V>(c: Keyed<K, V>, s: seq<Slot<V>>, t: seq<Slot<V>>, i: nat, j: nat)
    requires |s| > 2 && i < |s| == |t| && j < |s| && t == s[i := t[i]] && !t[i].Empty?
    requires s[j].Live? && Reachable(s, c.hash(c.key(s[j].value)), j)
    ensures Reachable(t, c.hash(c.key(s[j].value)), j)
  {
    var k :| ReachableAt(s, c.hash(c.key(s[j].value)), j, k);
    assert ReachableAt(t, c.hash(c.key(s[j].value)), j, k);
  }

  lemma TombUnique<K, V>(c: Keyed<K, V>, s: seq<Slot<V>>, i: nat)
    requires Unique(c, s) && i < |s| && s[i].Live?
    ensures Unique(c, s[i := Deleted])
    ensures forall j :: 0 <= j < |s| && j != i && s[j].Live? ==> c.key(s[j].value) != c.key(s[i].value)
  {
  }

  lemma TombContents<K, V>(c: Keyed<K, V>, s: seq<Slot<V>>, i: nat)
    requires Unique(c, s) && i < |s| && s[i].Live?
    ensures Unique(c, s[i := Deleted])
    ensures Contents(c, s[i := Deleted]) == Contents(c, s) - {c.key(s[i].value)}
  {
    hide Unique;
    TombUnique(c, s, i);
    var t := s[i := Deleted];
    var key := c.key(s[i].value);
    var m, n := Contents(c, s), Contents(c, t);
    forall x | x in n ensures x in m - {key} && n[x] == m[x] {
      var j :| 0 <= j < |t| && t[j].Live? && c.key(t[j].value) == x;
      HitMeansPresent(c, s, x, j);
      HitMeansPresent(c, t, x, j);
    }
    forall x | x in m - {key} ensures x in n {
      var j :| 0 <= j < |s| && s[j].Live? && c.key(s[j].value) == x;
      HitMeansPresent(c, t, x, j);
    }
  }

  /** Replacing an entry by a tombstone removes exactly that key; no other path is cut. */
  lemma {:induction false} TombKeepsWellFormed<K, V>(c: Keyed<K, V>, s: seq<Slot<V>>, i: nat)
    requires WellFormed(c, s) && i < |s| && s[i].Live?
    ensures WellFormed(c, s[i := Deleted])
    ensures Contents(c, s[i := Deleted]) == Contents(c, s) - {c.key(s[i].value)}
  {
    var t := s[i := Deleted];
    CountsUpdate(s, i, Deleted);
    TombContents(c, s, i);
    forall j | 0 <= j < |t| && t[j].Live?
      ensures Reachable(t, c.hash(c.key(t[j].value)), j)
    {
      StoreKeepsPath(c, s, t, i, j);
    }
  }

  lemma ReplaceUnique<K, V>(c: Keyed<K, V>, s: seq<Slot<V>>, v: V, i: nat)
    requires Unique(c, s) && i < |s| && Holds(c, s[i], c.key(v))
    ensures Unique(c, s[i := Live(v)])
  {
  }

  lemma ReplaceContents<K, V>(c: Keyed<K, V>, s: seq<Slot<V>>, v: V, i: nat)
    requires Unique(c, s) && i < |s| && Holds(c, s[i], c.key(v))
    ensures Unique(c, s[i := Live(v)])
    ensures Contents(c, s[i := Live(v)]) == Contents(c, s)[c.key(v) := v]
  {
    hide Unique;
    ReplaceUnique(c, s, v, i);
    var t := s[i := Live(v)];
    var m, n := Contents(c, s), Contents(c, t);
    HitMeansPresent(c, t, c.key(v), i);
    forall x | x in n ensures x in m && n[x] == m[c.key(v) := v][x] {
      var j :| 0 <= j < |t| && t[j].Live? && c.key(t[j].value) == x;
      HitMeansPresent(c, t, x, j);
      HitMeansPresent(c, s, x, j);
    }
    forall x | x in m ensures x in n {
      var j :| 0 <= j < |s| && s[j].Live? && c.key(s[j].value) == x;
      HitMeansPresent(c, t, x, j);
    }
    HitMeansPresent(c, s, c.key(v), i);
  }

  /** Overwriting an entry by one with the same key only changes the value of that key. */
  lemma {:induction false} ReplaceKeepsWellFormed<K, V>(c: Keyed<K, V>, s: seq<Slot<V>>, v: V, i: nat)
    requires WellFormed(c, s) && i < |s| && Holds(c, s[i], c.key(v))
    ensures WellFormed(c, s[i := Live(v)])
    ensures Contents(c, s[i := Live(v)]) == Contents(c, s)[c.key(v) := v]
  {
    var t := s[i := Live(v)];
    CountsUpdate(s, i, Live(v));
    ReplaceContents(c, s, v, i);
    forall j | 0 <= j < |t| && t[j].Live?
      ensures Reachable(t, c.hash(c.key(t[j].value)), j)
    {
      StoreKeepsPath(c, s, t, i, j);
    }
  }

  /** Slot i is where an entry for `key` goes: once any value with that key is written there,
      the table is consistent and stands for the map with that key bound. */
  ghost predicate AwaitsStore<K, V(!new)>(c: Keyed<K, V>, s: seq<Slot<V>>, i: nat, key: K,
                                          m: map<K, V>, nElements: nat, nDeleted: nat)
  {
    && i < |s| && !s[i].Live?
    && forall v :: c.key(v) == key ==>
         && Consistent(c, s[i := Live(v)], nElements, nDeleted)
         && Contents(c, s[i := Live(v)]) == m[key := v]
  }

  /** The first tombstone on the probe path is reused for the new key. */
  lemma {:induction false} TombAwaitsStore<K, V(!new)>(c: Keyed<K, V>, s: seq<Slot<V>>, key: K, i: nat, k: nat)
    requires WellFormed(c, s) && key !in Contents(c, s)
    requires i < |s| && s[i].Deleted? && ReachableAt(s, c.hash(key), i, k)
    ensures 0 < Tombs(s)
    ensures AwaitsStore(c, s[i := Empty], i, key, Contents(c, s), Used(s), Tombs(s) - 1)
  {
    CountsUpdate(s, i, Empty);
    forall v | c.key(v) == key
      ensures Consistent(c, s[i := Empty][i := Live(v)], Used(s), Tombs(s) - 1)
      ensures Contents(c, s[i := Empty][i := Live(v)]) == Contents(c, s)[key := v]
    {
      assert s[i := Empty][i := Live(v)] == s[i := Live(v)];
      CountsUpdate(s, i, Live(v));
      StoreKeepsWellFormed(c, s, v, i, k);
    }
  }

  /** Without a tombstone the empty slot that ended the probe takes the new key. */
  lemma {:induction false} EmptyAwaitsStore<K, V(!new)>(c: Keyed<K, V>, s: seq<Slot<V>>, key: K, i: nat, k: nat)
    requires WellFormed(c, s) && key !in Contents(c, s) && Used(s) + 1 < |s|
    requires i < |s| && s[i].Empty? && ReachableAt(s, c.hash(key), i, k)
    ensures AwaitsStore(c, s, i, key, Contents(c, s), Used(s) + 1, Tombs(s))
  {
    forall v | c.key(v) == key
      ensures Consistent(c, s[i := Live(v)], Used(s) + 1, Tombs(s))
      ensures Contents(c, s[i := Live(v)]) == Contents(c, s)[key := v]
    {
      CountsUpdate(s, i, Live(v));
      StoreKeepsWellFormed(c, s, v, i, k);
    }
  }

  lemma AllEmptyWellFormed<K, V>(c: Keyed<K, V>, s: seq<Slot<V>>)
    requires 2 < |s| < 0x8000_0000 && IsPrime(|s|)
    requires forall i :: 0 <= i < |s| ==> s[i].Empty?
    ensures WellFormed(c, s) && Contents(c, s) == map[] && Used(s) == 0 && Tombs(s) == 0
  {
    AllEmptyCounts(s);
  }

  /** `htab_elements`: the difference of the counters is the size of the map. */
  lemma {:induction false} LiveCount<K, V>(c: Keyed<K, V>, s: seq<Slot<V>>)
    requires Unique(c, s)
    ensures |Contents(c, s)| == Used(s) - Tombs(s)
  {
    if |s| == 0 {
      assert Contents(c, s) == map[];
    } else {
      var n := |s| - 1;
      var t := s[..n];
      assert s == t + [s[n]];
      CountsAppend(t, [s[n]]);
      LiveCount(c, t);
      ContentsSnoc(c, t, s[n]);
      if s[n].Live? {
        assert c.key(s[n].value) !in Contents(c, t);
        assert Contents(c, s).Keys == Contents(c, t).Keys + {c.key(s[n].value)};
      }
    }
  }

  /** Scanning one more slot adds its entry, if it holds one. */
  lemma ContentsSnoc<K, V>(c: Keyed<K, V>, t: seq<Slot<V>>, x: Slot<V>)
    requires Unique(c, t + [x])
    ensures Unique(c, t)
    ensures Contents(c, t + [x]) == if x.Live? then Contents(c, t)[c.key(x.value) := x.value] else Contents(c, t)
    ensures x.Live? ==> c.key(x.value) !in Contents(c, t)
  {
    var s := t + [x];
    assert forall i :: 0 <= i < |t| ==> s[i] == t[i];
    assert s[|t|] == x;
    var m, n := Contents(c, t), Contents(c, s);
    forall k | k in m ensures k in n && n[k] == m[k] {
      var j :| 0 <= j < |t| && t[j].Live? && c.key(t[j].value) == k;
      HitMeansPresent(c, t, k, j);
      HitMeansPresent(c, s, k, j);
    }
    if x.Live? { HitMeansPresent(c, s, c.key(x.value), |t|); }
    forall k | k in n ensures k in m || (x.Live? && k == c.key(x.value)) {
      var j :| 0 <= j < |s| && s[j].Live? && c.key(s[j].value) == k;
      if j < |t| { HitMeansPresent(c, t, k, j); }
    }
  }

  /** A list of values is one visit of each entry of a map. */
  ghost predicate Enumerates<K, V>(c: Keyed<K, V>, values: seq<V>, m: map<K, V>)
  {
    && |values| == |m|
    && (forall v :: v in values ==> c.key(v) in m && m[c.key(v)] == v)
    && (forall k :: k in m ==> m[k] in values)
    && (forall i, j :: 0 <= i < j < |values| ==> c.key(values[i]) != c.key(values[j]))
  }

  lemma EnumeratesSnoc<K, V>(c: Keyed<K, V>, values: seq<V>, m: map<K, V>, v: V)
    requires Enumerates(c, values, m) && c.key(v) !in m
    ensures Enumerates(c, values + [v], m[c.key(v) := v])
  {
    var w, n := values + [v], m[c.key(v) := v];
    assert n.Keys == m.Keys + {c.key(v)};
    forall x | x in w ensures c.key(x) in n && n[c.key(x)] == x {
      if x in values { } else { assert x == v; }
    }
    forall k | k in n ensures n[k] in w {
      if k == c.key(v) { assert w[|values|] == v; } else { assert n[k] in values; }
    }
    forall i, j | 0 <= i < j < |w| ensures c.key(w[i]) != c.key(w[j]) {
      if j == |values| { assert w[i] in values; }
    }
  }

  /** A traversal meets every entry of the map exactly once. */
  lemma {:induction false} LiveValuesVisitMap<K, V>(c: Keyed<K, V>, s: seq<Slot<V>>)
    requires Unique(c, s)
    ensures Enumerates(c, LiveValues(s), Contents(c, s))
  {
    if |s| == 0 {
      assert Contents(c, s) == map[];
    } else {
      var n := |s| - 1;
      var t := s[..n];
      assert s == t + [s[n]];
      LiveValuesAppend(t, [s[n]]);
      assert LiveValues([s[n]]) == if s[n].Live? then [s[n].value] else [];
      ContentsSnoc(c, t, s[n]);
      LiveValuesVisitMap(c, t);
      if s[n].Live? {
        EnumeratesSnoc(c, LiveValues(t), Contents(c, t), s[n].value);
      } else {
        assert LiveValues(s) == LiveValues(t);
      }
    }
  }

  lemma LiveValuesPush<V>(x: Slot<V>, s: seq<Slot<V>>)
    ensures LiveValues([x] + s) == (if x.Live? then [x.value] else []) + LiveValues(s)
  {
    assert ([x] + s)[1..] == s;
  }

  lemma {:induction false} LiveValuesAppend<V>(s: seq<Slot<V>>, t: seq<Slot<V>>)
    ensures LiveValues(s + t) == LiveValues(s) + LiveValues(t)
  {
    hide LiveValues;
    if |s| == 0 {
      assert s + t == t && s == [];
      LiveValuesNone<V>();
    } else {
      LiveValuesAppend(s[1..], t);
      assert s + t == [s[0]] + (s[1..] + t) && s == [s[0]] + s[1..];
      LiveValuesPush(s[0], s[1..] + t);
      LiveValuesPush(s[0], s[1..]);
    }
  }

  lemma LiveValuesNone<V>()
    ensures LiveValues<V>([]) == []
  {
  }

  /** The calls a traversal makes: it stops after the first callback that answers false. */
  function Visits<V>(values: seq<V>, callback: V -> bool): (r: seq<V>)
    ensures r <= values
  {
    if |values| == 0 then []
    else if callback(values[0]) then [values[0]] + Visits(values[1..], callback)
    else [values[0]]
  }

  /** The visits are the values up to the first one that is refused: every value before the last visited one
      was accepted, and all are visited unless that last one was refused. */
  lemma {:induction false} VisitsExactly<V>(values: seq<V>, callback: V -> bool, r: seq<V>)
    ensures r == Visits(values, callback) <==>
      && r <= values
      && (forall i :: 0 <= i < |r| - 1 ==> callback(r[i]))
      && (r == values || (r != [] && !callback(r[|r| - 1])))
  {
    if values != [] {
      if r != [] && r <= values {
        assert values == [values[0]] + values[1..] && r == [values[0]] + r[1..];
        VisitsExactly(values[1..], callback, r[1..]);
        assert forall i :: 0 <= i < |r| - 2 ==> r[1..][i] == r[i + 1];
      }
    }
  }

  // ----- moving the entries to a larger or smaller slot array -----

  /** Scanning part of the slots finds at most the live entries of all of them. */
  lemma LiveBelow<V>(s: seq<Slot<V>>, p: nat)
    requires p <= |s|
    ensures Used(s[..p]) - Tombs(s[..p]) <= Used(s) - Tombs(s)
  {
    assert s == s[..p] + s[p..];
    CountsAppend(s[..p], s[p..]);
  }

  /** The first p old slots have been moved into the tombstone-free array s. */
  ghost predicate Copied<K, V>(c: Keyed<K, V>, olds: seq<Slot<V>>, p: nat, s: seq<Slot<V>>)
  {
    && p <= |olds|
    && WellFormed(c, s)
    && (forall i :: 0 <= i < |s| ==> !s[i].Deleted?)
    && Tombs(s) == 0
    && Unique(c, olds[..p])
    && Contents(c, s) == Contents(c, olds[..p])
    && Used(s) == Used(olds[..p]) - Tombs(olds[..p])
  }

  lemma SkipStep<K, V>(c: Keyed<K, V>, olds: seq<Slot<V>>, p: nat, s: seq<Slot<V>>)
    requires Unique(c, olds) && p < |olds| && Copied(c, olds, p, s) && !olds[p].Live?
    ensures Copied(c, olds, p + 1, s)
  {
    assert olds[..p + 1] == olds[..p] + [olds[p]];
    ContentsSnoc(c, olds[..p], olds[p]);
    CountsSnoc(olds[..p], olds[p]);
  }

  lemma {:induction false} CopyStep<K, V>(c: Keyed<K, V>, olds: seq<Slot<V>>, p: nat, s: seq<Slot<V>>, q: nat, k: nat)
    requires Unique(c, olds) && p < |olds| && Copied(c, olds, p, s)
    requires olds[p].Live? && q < |s| && s[q].Empty?
    requires ReachableAt(s, c.hash(c.key(olds[p].value)), q, k)
    requires Used(olds) - Tombs(olds) < |s|
    ensures Copied(c, olds, p + 1, s[q := olds[p]])
  {
    hide Contents, AllReachable, ReachableAt, Used, Tombs;
    var x := olds[p];
    assert olds[..p + 1] == olds[..p] + [x];
    ContentsSnoc(c, olds[..p], x);
    CountsSnoc(olds[..p], x);
    LiveBelow(olds, p + 1);
    CountsUpdate(s, q, x);
    StoreKeepsWellFormed(c, s, x.value, q, k);
  }

  // ----- scanning the slots in order -----

  /** What the scanning loop of a traversal visits from slot i on. */
  function ScanFrom<V>(s: seq<Slot<V>>, i: nat, callback: V -> bool): seq<V>
    requires i <= |s|
    decreases |s| - i
  {
    if i == |s| then []
    else if !s[i].Live? then ScanFrom(s, i + 1, callback)
    else if callback(s[i].value) then [s[i].value] + ScanFrom(s, i + 1, callback)
    else [s[i].value]
  }

  lemma {:induction false} ScanVisitsLiveValues<V>(s: seq<Slot<V>>, i: nat, callback: V -> bool)
    requires i <= |s|
    ensures ScanFrom(s, i, callback) == Visits(LiveValues(s[i..]), callback)
    decreases |s| - i
  {
    if i < |s| {
      assert s[i..][1..] == s[i + 1..];
      var rest := LiveValues(s[i + 1..]);
      ScanVisitsLiveValues(s, i + 1, callback);
      if s[i].Live? {
        var v := s[i].value;
        assert LiveValues(s[i..]) == [v] + rest;
        assert ([v] + rest)[1..] == rest;
      } else {
        assert [] + rest == rest;
      }
    }
  }
}
