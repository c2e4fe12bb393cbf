/** The grapheme-break automaton of compat/utf8proc.c:261-343 against the look-behind rules of
    UAX #29, section 3.1.1.

    The automaton sees one pair of neighbouring characters at a time and keeps two bytes of
    history in an integer whose value 0 means "not started".  The rules look arbitrarily far
    back.  The two agree on every sequence. */
module Grapheme {

  const START: nat := 0
  const OTHER: nat := 1
  const CR: nat := 2
  const LF: nat := 3
  const CONTROL: nat := 4
  const EXTEND: nat := 5
  const L: nat := 6
  const V: nat := 7
  const T: nat := 8
  const LV: nat := 9
  const LVT: nat := 10
  const REGIONAL_INDICATOR: nat := 11
  const SPACINGMARK: nat := 12
  const PREPEND: nat := 13
  const ZWJ: nat := 14
  const EXTENDED_PICTOGRAPHIC: nat := 19
  const E_ZWG: nat := 20

  const ICB_NONE: nat := 0
  const ICB_LINKER: nat := 1
  const ICB_CONSONANT: nat := 2
  const ICB_EXTEND: nat := 3

  /** The two properties of a character that matter here. */
  datatype Class = Class(bound: nat, conjunct: nat)

  /** The values the property tables hold; START and E_ZWG occur in the state only. */
  predicate Real(c: Class)
  {
    (OTHER <= c.bound <= ZWJ || c.bound == EXTENDED_PICTOGRAPHIC) && c.conjunct <= ICB_EXTEND
  }

  predicate AllReal(cs: seq<Class>)
  {
    forall c :: c in cs ==> Real(c)
  }

  // ----- the code -----

  /** `grapheme_break_simple` */
  predicate BreakSimple(lbc: nat, tbc: nat)
  {
    if lbc == START then true
    else if lbc == CR && tbc == LF then false
    else if CR <= lbc <= CONTROL then true
    else if CR <= tbc <= CONTROL then true
    else if lbc == L && (tbc == L || tbc == V || tbc == LV || tbc == LVT) then false
    else if (lbc == LV || lbc == V) && (tbc == V || tbc == T) then false
    else if (lbc == LVT || lbc == T) && tbc == T then false
    else if tbc == EXTEND || tbc == ZWJ || tbc == SPACINGMARK || lbc == PREPEND then false
    else if lbc == E_ZWG && tbc == EXTENDED_PICTOGRAPHIC then false
    else if lbc == REGIONAL_INDICATOR && tbc == REGIONAL_INDICATOR then false
    else true
  }

  /** The state word: bound class in the low byte, conjunct state above it. */
  function Pack(bound: nat, conjunct: nat): nat
  {
    bound + conjunct * 256
  }

  /** What one call answers and leaves in the state word. */
  function Step(l: Class, t: Class, state: nat): (bool, nat)
  {
    var bc := if state == 0 then l.bound else state % 256;
    var icb := if state == 0 then (if l.conjunct == ICB_CONSONANT then l.conjunct else ICB_NONE) else state / 256;
    (BreakSimple(bc, t.bound) && !(icb == ICB_LINKER && t.conjunct == ICB_CONSONANT),
     Pack(NextBound(bc, t.bound), NextConjunct(icb, t.conjunct)))
  }

  function NextConjunct(icb: nat, ticb: nat): nat
  {
    if ticb == ICB_CONSONANT || icb == ICB_CONSONANT || icb == ICB_EXTEND then ticb
    else if icb == ICB_LINKER then (if ticb == ICB_EXTEND then ICB_LINKER else ticb)
    else icb
  }

  function NextBound(bc: nat, tbc: nat): nat
  {
    if bc == tbc && tbc == REGIONAL_INDICATOR then OTHER
    else if bc == EXTENDED_PICTOGRAPHIC then
      if tbc == EXTEND then EXTENDED_PICTOGRAPHIC else if tbc == ZWJ then E_ZWG else tbc
    else tbc
  }

  /** `*state`, and `grapheme_break_extended` called with a non-null pointer to it. */
  class BreakState {
    var state: nat

    constructor ()
      ensures state == 0
    {
      state := 0;
    }

    method BreakExtended(l: Class, t: Class) returns (breakPermitted: bool)
      modifies this
      ensures (breakPermitted, state) == Step(l, t, old(state))
    {
      var bc, icb;
      if state == 0 {
        bc := l.bound;
        icb := if l.conjunct == ICB_CONSONANT then l.conjunct else ICB_NONE;
      } else {
        bc := state % 256;
        icb := state / 256;
      }
      breakPermitted := BreakSimple(bc, t.bound) && !(icb == ICB_LINKER && t.conjunct == ICB_CONSONANT);
      if t.conjunct == ICB_CONSONANT || icb == ICB_CONSONANT || icb == ICB_EXTEND {
        icb := t.conjunct;
      } else if icb == ICB_LINKER {
        icb := if t.conjunct == ICB_EXTEND then ICB_LINKER else t.conjunct;
      }
      if bc == t.bound && t.bound == REGIONAL_INDICATOR {
        bc := OTHER;
      } else if bc == EXTENDED_PICTOGRAPHIC {
        if t.bound == EXTEND {
          bc := EXTENDED_PICTOGRAPHIC;
        } else if t.bound == ZWJ {
          bc := E_ZWG;
        } else {
          bc := t.bound;
        }
      } else {
        bc := t.bound;
      }
      state := bc + icb * 256;
    }
  }

  /** The state word after the pairs (0,1), .., (i-1,i). */
  function StateAfter(cs: seq<Class>, i: nat): nat
    requires i < |cs|
  {
    if i == 0 then 0 else Step(cs[i - 1], cs[i], StateAfter(cs, i - 1)).1
  }

  /** The automaton's answer for the position between cs[i-1] and cs[i]. */
  predicate Permits(cs: seq<Class>, i: nat)
    requires 0 < i < |cs|
  {
    Step(cs[i - 1], cs[i], StateAfter(cs, i - 1)).0
  }

  // ----- the rules -----

  predicate Ctl(c: Class)
  {
    c.bound == CR || c.bound == LF || c.bound == CONTROL
  }

  /** cs[..n] ends in Extended_Pictographic Extend*. */
  ghost predicate PictographBefore(cs: seq<Class>, n: nat)
    requires n <= |cs|
  {
    exists j :: 0 <= j < n && cs[j].bound == EXTENDED_PICTOGRAPHIC && forall k :: j < k < n ==> cs[k].bound == EXTEND
  }

  /** The number of regional indicators that end cs[..n]. */
  function RegionalRun(cs: seq<Class>, n: nat): nat
    requires n <= |cs|
  {
    if n == 0 || cs[n - 1].bound != REGIONAL_INDICATOR then 0 else RegionalRun(cs, n - 1) + 1
  }

  predicate Joins(c: Class)
  {
    c.conjunct == ICB_LINKER || c.conjunct == ICB_EXTEND
  }

  /** cs[..n] ends in a consonant and then linkers or extenders only. */
  ghost predicate ConsonantBefore(cs: seq<Class>, n: nat)
    requires n <= |cs|
  {
    exists j :: 0 <= j < n && cs[j].conjunct == ICB_CONSONANT && forall k :: j < k < n ==> Joins(cs[k])
  }

  /** .. with at least one linker among them. */
  ghost predicate LinkedConsonantBefore(cs: seq<Class>, n: nat)
    requires n <= |cs|
  {
    exists j, m :: 0 <= j < m < n && cs[j].conjunct == ICB_CONSONANT && cs[m].conjunct == ICB_LINKER
                   && forall k :: j < k < n ==> Joins(cs[k])
  }

  /** GB9c applies between cs[i-1] and cs[i]. */
  ghost predicate ConjunctRule(cs: seq<Class>, i: nat)
    requires 0 < i < |cs|
  {
    cs[i].conjunct == ICB_CONSONANT && LinkedConsonantBefore(cs, i)
  }

  /** UAX #29: is a break permitted between cs[i-1] and cs[i]?  Earlier rules win. */
  ghost predicate RulesPermit(cs: seq<Class>, i: nat)
    requires 0 < i < |cs|
  {
    var l, t := cs[i - 1].bound, cs[i].bound;
    if l == CR && t == LF then false                                                     // GB3
    else if Ctl(cs[i - 1]) || Ctl(cs[i]) then true                                       // GB4, GB5
    else if l == L && t in {L, V, LV, LVT} then false                                    // GB6
    else if l in {LV, V} && t in {V, T} then false                                       // GB7
    else if l in {LVT, T} && t == T then false                                           // GB8
    else if t in {EXTEND, ZWJ} then false                                                // GB9
    else if t == SPACINGMARK then false                                                  // GB9a
    else if l == PREPEND then false                                                      // GB9b
    else if ConjunctRule(cs, i) then false                                               // GB9c
    else if l == ZWJ && t == EXTENDED_PICTOGRAPHIC && PictographBefore(cs, i - 1) then false  // GB11
    else if t == REGIONAL_INDICATOR && RegionalRun(cs, i) % 2 == 1 then false            // GB12, GB13
    else true                                                                            // GB999
  }

  // ----- what the two bytes of history remember -----

  ghost function BoundMemory(cs: seq<Class>, i: nat): nat
    requires i < |cs|
  {
    var b := cs[i].bound;
    if b == REGIONAL_INDICATOR then (if RegionalRun(cs, i + 1) % 2 == 1 then REGIONAL_INDICATOR else OTHER)
    else if PictographBefore(cs, i + 1) then EXTENDED_PICTOGRAPHIC
    else if b == ZWJ && PictographBefore(cs, i) then E_ZWG
    else b
  }

  ghost function ConjunctMemory(cs: seq<Class>, i: nat): nat
    requires i < |cs|
  {
    if cs[i].conjunct == ICB_CONSONANT then ICB_CONSONANT
    else if LinkedConsonantBefore(cs, i + 1) then ICB_LINKER
    else if ConsonantBefore(cs, i + 1) then ICB_EXTEND
    else ICB_NONE
  }

  lemma PictographStep(cs: seq<Class>, n: nat)
    requires n < |cs|
    ensures PictographBefore(cs, n + 1) <==>
            cs[n].bound == EXTENDED_PICTOGRAPHIC || (cs[n].bound == EXTEND && PictographBefore(cs, n))
  {
    if PictographBefore(cs, n + 1) {
      var j :| 0 <= j < n + 1 && cs[j].bound == EXTENDED_PICTOGRAPHIC &&
        forall k :: j < k < n + 1 ==> cs[k].bound == EXTEND;
      if j < n { assert cs[n].bound == EXTEND; }
    }
    if cs[n].bound == EXTEND && PictographBefore(cs, n) {
      var j :| 0 <= j < n && cs[j].bound == EXTENDED_PICTOGRAPHIC && forall k :: j < k < n ==> cs[k].bound == EXTEND;
      assert PictographBefore(cs, n + 1);
    }
  }

  lemma ConsonantStep(cs: seq<Class>, n: nat)
    requires n < |cs|
    ensures ConsonantBefore(cs, n + 1) <==>
            cs[n].conjunct == ICB_CONSONANT || (Joins(cs[n]) && ConsonantBefore(cs, n))
  {
    if ConsonantBefore(cs, n + 1) {
      var j :| 0 <= j < n + 1 && cs[j].conjunct == ICB_CONSONANT && forall k :: j < k < n + 1 ==> Joins(cs[k]);
      if j < n { assert Joins(cs[n]); }
    }
    if Joins(cs[n]) && ConsonantBefore(cs, n) {
      var j :| 0 <= j < n && cs[j].conjunct == ICB_CONSONANT && forall k :: j < k < n ==> Joins(cs[k]);
      assert ConsonantBefore(cs, n + 1);
    }
  }

  lemma LinkedStepDown(cs: seq<Class>, n: nat)
    requires n < |cs| && LinkedConsonantBefore(cs, n + 1)
    ensures (cs[n].conjunct == ICB_LINKER && ConsonantBefore(cs, n)) || (Joins(cs[n]) && LinkedConsonantBefore(cs, n))
  {
    var j, m :| 0 <= j < m < n + 1 && cs[j].conjunct == ICB_CONSONANT && cs[m].conjunct == ICB_LINKER
                && forall k :: j < k < n + 1 ==> Joins(cs[k]);
    assert Joins(cs[n]);
  }

  lemma LinkedStepUp(cs: seq<Class>, n: nat)
    requires n < |cs|
    requires (cs[n].conjunct == ICB_LINKER && ConsonantBefore(cs, n)) || (Joins(cs[n]) && LinkedConsonantBefore(cs, n))
    ensures LinkedConsonantBefore(cs, n + 1)
  {
    if cs[n].conjunct == ICB_LINKER && ConsonantBefore(cs, n) {
      var j :| 0 <= j < n && cs[j].conjunct == ICB_CONSONANT && forall k :: j < k < n ==> Joins(cs[k]);
      assert 0 <= j < n < n + 1 && cs[n].conjunct == ICB_LINKER;
    } else {
      var j, m :| 0 <= j < m < n && cs[j].conjunct == ICB_CONSONANT && cs[m].conjunct == ICB_LINKER
                  && forall k :: j < k < n ==> Joins(cs[k]);
      assert 0 <= j < m < n + 1;
    }
  }

  lemma LinkedStep(cs: seq<Class>, n: nat)
    requires n < |cs|
    ensures LinkedConsonantBefore(cs, n + 1) <==>
            (cs[n].conjunct == ICB_LINKER && ConsonantBefore(cs, n)) || (Joins(cs[n]) && LinkedConsonantBefore(cs, n))
  {
    hide ConsonantBefore, LinkedConsonantBefore;
    if LinkedConsonantBefore(cs, n + 1) { LinkedStepDown(cs, n); }
    if (cs[n].conjunct == ICB_LINKER && ConsonantBefore(cs, n)) || (Joins(cs[n]) && LinkedConsonantBefore(cs, n)) {
      LinkedStepUp(cs, n);
    }
  }

  lemma NothingBefore(cs: seq<Class>)
    ensures !PictographBefore(cs, 0) && !ConsonantBefore(cs, 0) && !LinkedConsonantBefore(cs, 0)
  {
  }

  lemma {:induction false} LinkedImpliesConsonant(cs: seq<Class>, n: nat)
    requires n <= |cs| && LinkedConsonantBefore(cs, n)
    ensures ConsonantBefore(cs, n)
  {
  }

  /** The history remembered at i + 1 is a function of the history at i and the next class. */
  lemma MemoryStep(cs: seq<Class>, i: nat)
    requires i + 1 < |cs| && AllReal(cs)
    ensures BoundMemory(cs, i + 1) == NextBound(BoundMemory(cs, i), cs[i + 1].bound)
    ensures ConjunctMemory(cs, i + 1) == NextConjunct(ConjunctMemory(cs, i), cs[i + 1].conjunct)
  {
    hide PictographBefore, ConsonantBefore, LinkedConsonantBefore;
    assert Real(cs[i]) && Real(cs[i + 1]);
    assert RegionalRun(cs, i + 2) == if cs[i + 1].bound == REGIONAL_INDICATOR then RegionalRun(cs, i + 1) + 1 else 0;
    PictographStep(cs, i);
    PictographStep(cs, i + 1);
    ConsonantStep(cs, i);
    ConsonantStep(cs, i + 1);
    LinkedStep(cs, i);
    LinkedStep(cs, i + 1);
    if LinkedConsonantBefore(cs, i + 1) { LinkedImpliesConsonant(cs, i + 1); }
    if LinkedConsonantBefore(cs, i) { LinkedImpliesConsonant(cs, i); }
  }

  lemma Unpack(bound: nat, conjunct: nat)
    requires bound < 256
    ensures Pack(bound, conjunct) % 256 == bound && Pack(bound, conjunct) / 256 == conjunct
    ensures bound > 0 ==> Pack(bound, conjunct) != 0
  {
  }

  lemma MemoryRange(cs: seq<Class>, i: nat)
    requires i < |cs| && AllReal(cs)
    ensures 0 < BoundMemory(cs, i) < 256
  {
    assert Real(cs[i]);
  }

  /** One call started from a state word that holds the memory at i (or, for i == 0, from 0). */
  lemma StepFromMemory(cs: seq<Class>, i: nat, state: nat)
    requires i + 1 < |cs| && AllReal(cs)
    requires if i == 0 then state == 0 else state == Pack(BoundMemory(cs, i), ConjunctMemory(cs, i))
    ensures var bc, icb := BoundMemory(cs, i), ConjunctMemory(cs, i);
            Step(cs[i], cs[i + 1], state) ==
            (BreakSimple(bc, cs[i + 1].bound) && !(icb == ICB_LINKER && cs[i + 1].conjunct == ICB_CONSONANT),
             Pack(NextBound(bc, cs[i + 1].bound), NextConjunct(icb, cs[i + 1].conjunct)))
  {
    hide PictographBefore, ConsonantBefore, LinkedConsonantBefore;
    assert Real(cs[i]);
    if i == 0 {
      NothingBefore(cs);
      PictographStep(cs, 0);
      ConsonantStep(cs, 0);
      LinkedStep(cs, 0);
      assert RegionalRun(cs, 1) == if cs[0].bound == REGIONAL_INDICATOR then 1 else 0;
    } else {
      MemoryRange(cs, i);
      Unpack(BoundMemory(cs, i), ConjunctMemory(cs, i));
    }
  }

  lemma {:induction false} StateIsMemory(cs: seq<Class>, i: nat)
    requires 0 < i < |cs| && AllReal(cs)
    ensures StateAfter(cs, i) == Pack(BoundMemory(cs, i), ConjunctMemory(cs, i))
  {
    if i > 1 { StateIsMemory(cs, i - 1); }
    StepFromMemory(cs, i - 1, StateAfter(cs, i - 1));
    MemoryStep(cs, i - 1);
  }

  /** The one place where code and rules can differ: GB9c would join across a control
      character, but GB4 and GB5 come first.  No Unicode character is both. */
  ghost predicate Clash(cs: seq<Class>, i: nat)
    requires 0 < i < |cs|
  {
    ConjunctRule(cs, i) && (Ctl(cs[i - 1]) || Ctl(cs[i]))
  }

  /** The test on the remembered classes is the rules, with the clash resolved one way. */
  lemma MemoryDecides(cs: seq<Class>, i: nat)
    requires 0 < i < |cs| && Real(cs[i - 1]) && Real(cs[i])
    requires PictographBefore(cs, i) <==>
             cs[i - 1].bound == EXTENDED_PICTOGRAPHIC || (cs[i - 1].bound == EXTEND && PictographBefore(cs, i - 1))
    requires LinkedConsonantBefore(cs, i) ==> Joins(cs[i - 1])
    ensures BreakSimple(BoundMemory(cs, i - 1), cs[i].bound)
            && !(ConjunctMemory(cs, i - 1) == ICB_LINKER && cs[i].conjunct == ICB_CONSONANT)
            <==> RulesPermit(cs, i) && !Clash(cs, i)
  {
    hide PictographBefore, ConsonantBefore, LinkedConsonantBefore;
  }

  /** Exactly what the automaton computes, for every sequence of classes. */
  lemma {:induction false} AutomatonExactly(cs: seq<Class>, i: nat)
    requires 0 < i < |cs| && AllReal(cs)
    ensures Permits(cs, i) <==> RulesPermit(cs, i) && !Clash(cs, i)
  {
    hide PictographBefore, ConsonantBefore, LinkedConsonantBefore;
    assert Real(cs[i - 1]) && Real(cs[i]);
    if i > 1 { StateIsMemory(cs, i - 1); }
    StepFromMemory(cs, i - 1, StateAfter(cs, i - 1));
    PictographStep(cs, i - 1);
    LinkedStep(cs, i - 1);
    MemoryDecides(cs, i);
  }

  /** The stateful automaton breaks exactly where the rules of UAX #29 do. */
  lemma {:induction false} AutomatonIsRules(cs: seq<Class>, i: nat)
    requires 0 < i < |cs| && AllReal(cs)
    requires forall c :: c in cs && c.conjunct != ICB_NONE ==> !Ctl(c)
    ensures Permits(cs, i) <==> RulesPermit(cs, i)
  {
    AutomatonExactly(cs, i);
    if ConjunctRule(cs, i) {
      LinkedStep(cs, i - 1);
      assert cs[i - 1] in cs && cs[i] in cs;
    }
  }

  lemma ClashExample()
    ensures var cs := [Class(OTHER, ICB_CONSONANT), Class(CONTROL, ICB_LINKER), Class(OTHER, ICB_CONSONANT)];
            AllReal(cs) && !Permits(cs, 2) && RulesPermit(cs, 2)
  {
    var cs := [Class(OTHER, ICB_CONSONANT), Class(CONTROL, ICB_LINKER), Class(OTHER, ICB_CONSONANT)];
    assert StateAfter(cs, 0) == 0;
    assert StateAfter(cs, 1) == Pack(CONTROL, ICB_LINKER);
  }

  // ----- decomposition with CHARBOUND -----

  /** `utf8proc_decompose_char` calls the automaton with class START on the left and the state
      word as its only memory; a break is written before cs[i] when it answers yes. */
  function CharboundState(cs: seq<Class>, i: nat): nat
    requires i <= |cs|
  {
    if i == 0 then START else Step(Class(START, ICB_NONE), cs[i - 1], CharboundState(cs, i - 1)).1
  }

  predicate CharboundBreak(cs: seq<Class>, i: nat)
    requires i < |cs|
  {
    Step(Class(START, ICB_NONE), cs[i], CharboundState(cs, i)).0
  }

  lemma CharboundStart(cs: seq<Class>)
    requires cs != [] && AllReal(cs)
    ensures CharboundState(cs, 1) == Pack(BoundMemory(cs, 0), ConjunctMemory(cs, 0))
  {
    hide PictographBefore, ConsonantBefore, LinkedConsonantBefore;
    assert Real(cs[0]);
    NothingBefore(cs);
    PictographStep(cs, 0);
    ConsonantStep(cs, 0);
    LinkedStep(cs, 0);
    assert CharboundState(cs, 0) == 0;
    assert RegionalRun(cs, 1) == if cs[0].bound == REGIONAL_INDICATOR then 1 else 0;
  }

  lemma {:induction false} CharboundStateIsMemory(cs: seq<Class>, i: nat)
    requires i < |cs| && AllReal(cs)
    ensures CharboundState(cs, i + 1) == Pack(BoundMemory(cs, i), ConjunctMemory(cs, i))
  {
    if i == 0 {
      CharboundStart(cs);
    } else {
      hide BoundMemory, ConjunctMemory, AllReal, NextBound, NextConjunct, BreakSimple, Pack;
      CharboundStateIsMemory(cs, i - 1);
      MemoryRange(cs, i - 1);
      Unpack(BoundMemory(cs, i - 1), ConjunctMemory(cs, i - 1));
      MemoryStep(cs, i - 1);
    }
  }

  /** Decomposition marks the start of the text (GB1) and then every boundary of the rules. */
  lemma {:induction false} CharboundIsRules(cs: seq<Class>, i: nat)
    requires i < |cs| && AllReal(cs)
    requires forall c :: c in cs && c.conjunct != ICB_NONE ==> !Ctl(c)
    ensures CharboundBreak(cs, i) <==> i == 0 || RulesPermit(cs, i)
  {
    hide PictographBefore, ConsonantBefore, LinkedConsonantBefore, RulesPermit, BoundMemory, ConjunctMemory;
    if i > 0 {
      CharboundStateIsMemory(cs, i - 1);
      assert Real(cs[i - 1]);
      MemoryRange(cs, i - 1);
      Unpack(BoundMemory(cs, i - 1), ConjunctMemory(cs, i - 1));
      if i > 1 { StateIsMemory(cs, i - 1); }
      StepFromMemory(cs, i - 1, StateAfter(cs, i - 1));
      AutomatonIsRules(cs, i);
    }
  }
}
