/** The client-level map of src/map.c, over the hash table, and whole runs of it. */
module StringMap {
  import opened Common
  import opened HtabMod
  import opened HtabPrimeTable
  import opened HtabSlots
  import opened HtabTable

  /** Keys are the bytes of a C string. */
  type Key = seq<bv8>

  const INIT_SIZE: nat := 16

  class StringMap<V(!new)> {
    const c: Keyed<Key, V>
    const tab: seq<PrimeEnt>
    var htab: Htab?<Key, V>

    ghost predicate Valid()
      reads this, htab, if htab == null then {} else {htab.entries}
    {
      GoodTable(tab) && (htab != null ==> htab.c == c && htab.tab == tab && htab.Valid())
    }

    ghost function Map(): map<Key, V>
      requires Valid()
      reads this, htab, if htab == null then {} else {htab.entries}
    {
      if htab == null then map[] else htab.Map()
    }

    /** What an operation may modify, besides objects it allocates. */
    ghost function Repr(): set<object?>
      reads this, htab
    {
      {this} + if htab == null then {} else {htab, htab.entries}
    }

    constructor (callbacks: Keyed<Key, V>, primes: seq<PrimeEnt>)
      requires GoodTable(primes)
      ensures Valid() && Map() == map[] && fresh(Repr()) && c == callbacks && tab == primes
    {
      c, tab, htab := callbacks, primes, null;
    }

    /** `string_map_get` */
    method Get(key: Key) returns (r: Option<V>)
      requires Valid()
      ensures r == if key in Map() then Some(Map()[key]) else None
    {
      if htab != null {
        r := htab.FindWithHash(key, c.hash(key));
      } else {
        r := None;
      }
    }

    /** The next put expands the table. */
    predicate Expands()
      reads this, htab
    {
      htab != null && htab.size * 3 <= htab.nElements * 4
    }

    /** It would expand it to the last size. */
    method Crowded() returns (r: bool)
      requires Valid()
      ensures r == (Expands() && |Map()| > MAX_SAFE / 2)
    {
      if htab == null { return false; }
      LiveCount(htab.c, htab.entries[..]);
      r := htab.size * 3 <= htab.nElements * 4 && htab.Elements() > MAX_SAFE / 2;
    }

    /** `string_map_put` over `string_map_put_to`: the value is stored under its own key. */
    method Put(key: Key, value: V)
      requires Valid() && c.key(value) == key
      requires Expands() ==> |Map()| <= MAX_SAFE / 2
      modifies Repr()
      ensures Valid() && Map() == old(Map())[key := value]
      ensures fresh(Repr() - old(Repr()))
    {
      hide Contents, AllReachable, Used, Tombs, Unique;
      if htab == null {
        htab := new Htab<Key, V>(tab, c, INIT_SIZE);
      }
      ghost var m := htab.Map();
      var slot := htab.FindSlotWithHash(key, c.hash(key), Insert);
      ghost var s := htab.entries[..];
      if key in m {
        ReplaceKeepsWellFormed(c, s, value, slot.value);
        CountsUpdate(s, slot.value, Live(value));
      }
      htab.entries[slot.value] := Live(value);
      assert htab.entries[..] == s[slot.value := Live(value)];
    }

    /** `string_map_remove` over `string_map_get_at` and `htab_clear_slot` */
    method Remove(key: Key) returns (value: Option<V>)
      requires Valid()
      modifies Repr()
      ensures Valid() && Map() == old(Map()) - {key}
      ensures value == if key in old(Map()) then Some(old(Map())[key]) else None
      ensures fresh(Repr() - old(Repr()))
    {
      value := None;
      if htab != null {
        var slot := htab.FindSlotWithHash(key, c.hash(key), NoInsert);
        if slot.Some? {
          HitMeansPresent(c, htab.entries[..], key, slot.value);
          value := Some(htab.entries[slot.value].value);
          htab.ClearSlot(slot.value);
        }
      }
    }

    /** `string_map_clear` */
    method Clear()
      requires Valid()
      modifies Repr()
      ensures Valid() && Map() == map[]
      ensures fresh(Repr() - old(Repr()))
    {
      if htab != null {
        htab.Clear();
      }
    }

    /** `string_map_foreach`: visits entries of the map, each at most once, and all of them
        unless the callback stops it. */
    method Foreach(callback: V -> bool) returns (visited: seq<V>)
      requires Valid()
      ensures exists all :: Enumerates(c, all, Map()) && visited == Visits(all, callback)
    {
      if htab != null {
        LiveValuesVisitMap(c, htab.entries[..]);
        visited := htab.TraverseNoResize(callback);
      } else {
        visited := [];
        assert Enumerates(c, [], map[]);
        assert visited == Visits([], callback);
      }
    }

    // ----- whole runs -----

    method Step(op: Op<V>) returns (answer: Answer<V>)
      requires Valid()
      requires op.Put? ==> c.key(op.value) == op.key && (Expands() ==> |Map()| <= MAX_SAFE / 2)
      modifies Repr()
      ensures Valid() && fresh(Repr() - old(Repr()))
      ensures Map() == Effect(old(Map()), op) && Answers(c, old(Map()), op, answer)
    {
      hide Contents, Consistent, GoodTable, Enumerates, Visits, Answers;
      ghost var m := Map();
      answer := Nothing;
      match op
      case Get(key) =>
        var r := Get(key);
        answer := Found(r);
        FoundAnswers(c, m, op, key, r);
      case Put(key, value) =>
        Put(key, value);
        NothingAnswers(c, m, op);
      case Remove(key) =>
        var r := Remove(key);
        answer := Found(r);
        FoundAnswers(c, m, op, key, r);
      case Clear =>
        Clear();
        NothingAnswers(c, m, op);
      case Foreach(callback) =>
        var visited := Foreach(callback);
        answer := Visited(visited);
        VisitedAnswers(c, m, op, visited);
    }

    /** One operation, unless it is a put that would expand the table to the last size. */
    method StepOrStop(op: Op<V>) returns (stopped: bool, answer: Answer<V>)
      requires Valid() && (op.Put? ==> c.key(op.value) == op.key)
      modifies Repr()
      ensures Valid() && fresh(Repr() - old(Repr()))
      ensures stopped ==> op.Put? && Expands() && |Map()| > MAX_SAFE / 2 && Map() == old(Map())
      ensures !stopped ==> Map() == Effect(old(Map()), op) && Answers(c, old(Map()), op, answer)
    {
      hide Valid, Map, Effect, Answers, Expands;
      answer := Nothing;
      stopped := Crowded();
      if op.Put? && stopped { return; }
      stopped := false;
      answer := Step(op);
    }

    /** Any sequence of operations answers as the finite map does, through every collision, tombstone,
        reuse and resize, up to the first put that would expand the table to the last size. */
    method Run(ops: seq<Op<V>>) returns (answers: seq<Answer<V>>)
      requires Valid() && OwnKeys(c, ops)
      modifies Repr()
      ensures Valid() && fresh(Repr() - old(Repr()))
      ensures |answers| <= |ops| && Map() == Effects(old(Map()), ops[..|answers|])
      ensures AllAnswer(c, old(Map()), ops[..|answers|], answers)
      ensures |answers| < |ops| ==> ops[|answers|].Put? && Expands() && |Map()| > MAX_SAFE / 2
      ensures Room(old(Map()), ops) ==> |answers| == |ops|
    {
      hide Valid, Map, Effects, Effect, Answers, Room, AllAnswer, Expands;
      ghost var m := Map();
      EffectsNone(m, ops);
      NoAnswers(c, m, ops);
      answers := [];
      var i := 0;
      while i < |ops|
        invariant i <= |ops| && Valid()
        invariant fresh(Repr() - old(Repr()))
        invariant |answers| == i && Map() == Effects(m, ops[..i]) && AllAnswer(c, m, ops[..i], answers)
      {
        EffectsStep(m, ops, i);
        var stopped, answer := StepOrStop(ops[i]);
        if stopped {
          RoomAt(m, ops, i);
          return;
        }
        OneMoreAnswer(c, m, ops, i, answers, answer);
        answers := answers + [answer];
        i := i + 1;
      }
    }
  }

  datatype Op<!V> = Get(key: Key) | Put(key: Key, value: V) | Remove(key: Key) | Clear | Foreach(callback: V -> bool)

  datatype Answer<V> = Nothing | Found(value: Option<V>) | Visited(values: seq<V>)

  /** What one operation makes of a finite map. */
  function Effect<V>(m: map<Key, V>, op: Op<V>): map<Key, V>
  {
    match op
    case Put(key, value) => m[key := value]
    case Remove(key) => m - {key}
    case Clear => map[]
    case _ => m
  }

  /** What one operation on a finite map may answer.  A traversal sees every entry once, in some order,
      up to the first one the callback refuses. */
  ghost predicate Answers<V(!new)>(c: Keyed<Key, V>, m: map<Key, V>, op: Op<V>, answer: Answer<V>)
  {
    match op
    case Get(key) => answer == Found(if key in m then Some(m[key]) else None)
    case Remove(key) => answer == Found(if key in m then Some(m[key]) else None)
    case Foreach(callback) =>
      answer.Visited? && exists all :: Enumerates(c, all, m) && answer.values == Visits(all, callback)
    case _ => answer == Nothing
  }

  function Effects<V>(m: map<Key, V>, ops: seq<Op<V>>): map<Key, V>
    decreases |ops|
  {
    if |ops| == 0 then m else Effect(Effects(m, ops[..|ops| - 1]), ops[|ops| - 1])
  }

  /** Every put stores a value under its own key. */
  ghost predicate OwnKeys<V>(c: Keyed<Key, V>, ops: seq<Op<V>>)
  {
    forall i :: 0 <= i < |ops| && ops[i].Put? ==> c.key(ops[i].value) == ops[i].key
  }

  /** Every put finds at most 1073741823 entries. */
  ghost predicate Room<V>(m: map<Key, V>, ops: seq<Op<V>>)
  {
    forall i :: 0 <= i < |ops| && ops[i].Put? ==> |Effects(m, ops[..i])| <= MAX_SAFE / 2
  }

  /** Every answer is one that the map of that moment may give. */
  ghost predicate AllAnswer<V(!new)>(c: Keyed<Key, V>, m: map<Key, V>, ops: seq<Op<V>>, answers: seq<Answer<V>>)
  {
    && |answers| == |ops|
    && forall i :: 0 <= i < |ops| ==> Answers(c, Effects(m, ops[..i]), ops[i], answers[i])
  }

  lemma RoomAt<V>(m: map<Key, V>, ops: seq<Op<V>>, i: nat)
    requires i < |ops| && ops[i].Put? && |Effects(m, ops[..i])| > MAX_SAFE / 2
    ensures !Room(m, ops)
  {
  }

  lemma NoAnswers<V(!new)>(c: Keyed<Key, V>, m: map<Key, V>, ops: seq<Op<V>>)
    ensures AllAnswer(c, m, ops[..0], [])
  {
  }

  lemma OneMoreAnswer<V(!new)>(c: Keyed<Key, V>, m: map<Key, V>, ops: seq<Op<V>>, i: nat, answers: seq<Answer<V>>,
      answer: Answer<V>)
    requires i < |ops| && AllAnswer(c, m, ops[..i], answers) && Answers(c, Effects(m, ops[..i]), ops[i], answer)
    ensures AllAnswer(c, m, ops[..i + 1], answers + [answer])
  {
    hide Answers, Effects;
    forall j | 0 <= j <= i
      ensures Answers(c, Effects(m, ops[..i + 1][..j]), ops[j], (answers + [answer])[j])
    {
      assert ops[..i + 1][..j] == ops[..j];
      if j < i { assert ops[..i][..j] == ops[..j]; }
    }
  }

  lemma FoundAnswers<V(!new)>(c: Keyed<Key, V>, m: map<Key, V>, op: Op<V>, key: Key, r: Option<V>)
    requires op == Op<V>.Get(key) || op == Op<V>.Remove(key)
    requires r == if key in m then Some(m[key]) else None
    ensures Answers(c, m, op, Found(r))
  {
  }

  lemma NothingAnswers<V(!new)>(c: Keyed<Key, V>, m: map<Key, V>, op: Op<V>)
    requires op.Put? || op.Clear?
    ensures Answers(c, m, op, Nothing)
  {
  }

  lemma VisitedAnswers<V(!new)>(c: Keyed<Key, V>, m: map<Key, V>, op: Op<V>, visited: seq<V>)
    requires op.Foreach? && exists all :: Enumerates(c, all, m) && visited == Visits(all, op.callback)
    ensures Answers(c, m, op, Visited(visited))
  {
    hide Enumerates, Visits;
  }

  lemma EffectsNone<V>(m: map<Key, V>, ops: seq<Op<V>>)
    ensures Effects(m, ops[..0]) == m
  {
  }

  lemma EffectsStep<V>(m: map<Key, V>, ops: seq<Op<V>>, i: nat)
    requires i < |ops|
    ensures Effects(m, ops[..i + 1]) == Effect(Effects(m, ops[..i]), ops[i])
  {
    assert ops[..i + 1][..i] == ops[..i];
  }

  lemma PutSize<V>(m: map<Key, V>, key: Key, value: V)
    ensures |m[key := value]| <= |m| + 1
  {
    assert m[key := value].Keys == m.Keys + {key};
  }

  lemma RemoveSize<V>(m: map<Key, V>, key: Key)
    ensures |m - {key}| <= |m|
  {
    if key in m {
      assert m.Keys == (m - {key}).Keys + {key};
    } else {
      assert m - {key} == m;
    }
  }

  lemma {:induction false} EffectsSize<V>(m: map<Key, V>, ops: seq<Op<V>>)
    ensures |Effects(m, ops)| <= |m| + |ops|
  {
    if |ops| > 0 {
      var n := |ops| - 1;
      EffectsSize(m, ops[..n]);
      var before := Effects(m, ops[..n]);
      match ops[n]
      case Put(key, value) => PutSize(before, key, value);
      case Remove(key) => RemoveSize(before, key);
      case _ =>
    }
  }

  /** A run that is short enough has room throughout. */
  lemma ShortRunFits<V>(m: map<Key, V>, ops: seq<Op<V>>)
    requires |m| + |ops| <= MAX_SAFE / 2
    ensures Room(m, ops)
  {
    forall i | 0 <= i <= |ops|
      ensures |Effects(m, ops[..i])| <= MAX_SAFE / 2
    {
      EffectsSize(m, ops[..i]);
    }
  }
}
