/** What `utf8proc_decompose_custom` (compat/utf8proc.c:543-606) hands to its reordering loop: the fully
    decomposed characters, with a mark in front of each grapheme if marks are asked for. */
module Decompose {
  import opened CanonicalOrder
  import Grapheme

  /** The sentinel of `utf8proc_decompose_char` for a grapheme boundary. */
  const MARK: CodePoint := -1

  /** One character of the decomposition.  A Hangul syllable is written in parts, and returns before the
      automaton is asked (compat/utf8proc.c:455-469). */
  datatype Item = Char(code: CodePoint, property: Grapheme.Class) | Syllable(parts: seq<CodePoint>,
    property: Grapheme.Class)

  predicate Proper(item: Item)
  {
    && Grapheme.Real(item.property)
    && match item
       case Char(code, _) => InTable(code)
       case Syllable(parts, _) => 2 <= |parts| <= 3 && AllInTable(parts)
  }

  predicate AllProper(items: seq<Item>)
  {
    forall i :: 0 <= i < |items| ==> Proper(items[i])
  }

  /** The classes the automaton has been given. */
  function Asked(items: seq<Item>): (cs: seq<Grapheme.Class>)
    ensures |cs| <= |items|
  {
    if items == [] then []
    else
      var n := |items| - 1;
      Asked(items[..n]) + if items[n].Char? then [items[n].property] else []
  }

  /** Item n is written with a mark in front of it. */
  predicate Marked(items: seq<Item>, n: nat, charbound: bool)
    requires n < |items|
  {
    charbound && items[n].Char? && Grapheme.CharboundBreak(Asked(items[..n]) + [items[n].property], |Asked(items[..n])|)
  }

  function Written(items: seq<Item>, n: nat, charbound: bool): seq<CodePoint>
    requires n < |items|
  {
    match items[n]
    case Char(code, _) => if Marked(items, n, charbound) then [MARK, code] else [code]
    case Syllable(parts, _) => parts
  }

  /** The buffer after the first n items. */
  function Buffer(items: seq<Item>, n: nat, charbound: bool): seq<CodePoint>
    requires n <= |items|
  {
    if n == 0 then [] else Buffer(items, n - 1, charbound) + Written(items, n - 1, charbound)
  }

  // ----- the writing loop -----

  /** The state word after the first n items. */
  function StateAt(items: seq<Item>, n: nat): nat
    requires n <= |items|
  {
    Grapheme.CharboundState(Asked(items[..n]), |Asked(items[..n])|)
  }

  /** The buffer takes what fits; the length counts everything. */
  ghost predicate Fits(was: seq<CodePoint>, now: seq<CodePoint>, written: seq<CodePoint>)
  {
    && |now| == |was|
    && if |written| <= |now| then now == written + was[|written|..] else now == written[..|now|]
  }

  /** `dst[0]`, `dst[1]`, .. as far as `bufsize` allows. */
  method Write(buffer: array<CodePoint>, wpos: nat, codes: seq<CodePoint>, ghost was: seq<CodePoint>,
      ghost written: seq<CodePoint>)
    requires wpos == |written| && Fits(was, buffer[..], written)
    modifies buffer
    ensures Fits(was, buffer[..], written + codes)
  {
    forall i | 0 <= i < |codes| && wpos + i < buffer.Length { buffer[wpos + i] := codes[i]; }
  }

  /** The loop of `utf8proc_decompose_custom` over the characters of the decomposition: the length of the
      text, and as much of it as fits the buffer. */
  method WriteAll(items: seq<Item>, charbound: bool, buffer: array<CodePoint>) returns (wpos: nat)
    modifies buffer
    ensures wpos == |Buffer(items, |items|, charbound)|
    ensures Fits(old(buffer[..]), buffer[..], Buffer(items, |items|, charbound))
  {
    hide Fits, Asked;
    wpos := 0;
    ghost var was := buffer[..];
    NothingWritten(was);
    var state := new Grapheme.BreakState();
    StateStarts(items);
    for n := 0 to |items|
      invariant wpos == |Buffer(items, n, charbound)|
      invariant Fits(was, buffer[..], Buffer(items, n, charbound))
      invariant charbound ==> state.state == StateAt(items, n)
    {
      var codes;
      StateStep(items, n);
      match items[n] {
        case Syllable(parts, _) => codes := parts;
        case Char(code, property) =>
          codes := [code];
          if charbound {
            var boundary := state.BreakExtended(Grapheme.Class(Grapheme.START, Grapheme.ICB_NONE), property);
            if boundary { codes := [MARK, code]; }
          }
      }
      Write(buffer, wpos, codes, was, Buffer(items, n, charbound));
      wpos := wpos + |codes|;
    }
  }

  lemma NothingWritten(was: seq<CodePoint>)
    ensures Fits(was, was, [])
  {
  }

  lemma StateStarts(items: seq<Item>)
    ensures StateAt(items, 0) == 0
  {
  }

  lemma AskedNext(items: seq<Item>, n: nat)
    requires n < |items|
    ensures Asked(items[..n + 1]) == Asked(items[..n]) + if items[n].Char? then [items[n].property] else []
  {
    assert items[..n + 1][..n] == items[..n];
  }

  lemma {:induction false} StateOfPrefix(cs: seq<Grapheme.Class>, ds: seq<Grapheme.Class>, i: nat)
    requires i <= |cs| && cs <= ds
    ensures Grapheme.CharboundState(cs, i) == Grapheme.CharboundState(ds, i)
  {
    hide Grapheme.Step;
    if i > 0 { StateOfPrefix(cs, ds, i - 1); }
  }

  lemma StateStep(items: seq<Item>, n: nat)
    requires n < |items|
    ensures items[n].Syllable? ==> StateAt(items, n + 1) == StateAt(items, n)
    ensures items[n].Char? ==>
      var step := Grapheme.Step(Grapheme.Class(Grapheme.START, Grapheme.ICB_NONE), items[n].property,
        StateAt(items, n));
      Marked(items, n, true) == step.0 && StateAt(items, n + 1) == step.1
  {
    hide Grapheme.Step, Asked;
    AskedNext(items, n);
    var cs := Asked(items[..n]);
    if items[n].Char? {
      StateOfPrefix(cs, cs + [items[n].property], |cs|);
    } else {
      assert cs + [] == cs;
    }
  }

  // ----- what the reordering loop looks up -----

  lemma FirstMarked(c: Grapheme.Class)
    ensures Grapheme.CharboundBreak([c], 0)
  {
  }

  lemma {:induction false} NoneAsked(items: seq<Item>)
    requires forall i :: 0 <= i < |items| ==> items[i].Syllable?
    ensures Asked(items) == []
  {
    if items != [] { NoneAsked(items[..|items| - 1]); }
  }

  /** The first character that is no syllable is marked. */
  lemma FirstCharMarked(items: seq<Item>, n: nat)
    requires n < |items| && items[n].Char? && forall i :: 0 <= i < n ==> items[i].Syllable?
    ensures Marked(items, n, true) && Written(items, n, true)[0] == MARK
  {
    hide Grapheme.CharboundBreak, Asked;
    NoneAsked(items[..n]);
    FirstMarked(items[n].property);
    assert [] + [items[n].property] == [items[n].property];
  }

  lemma {:induction false} BufferGrows(items: seq<Item>, m: nat, n: nat, charbound: bool)
    requires m <= n <= |items|
    ensures Buffer(items, m, charbound) <= Buffer(items, n, charbound)
  {
    hide Written;
    if m < n { BufferGrows(items, m, n - 1, charbound); }
  }

  lemma {:induction false} WithoutMarks(items: seq<Item>, n: nat, charbound: bool)
    requires AllProper(items) && n <= |items|
    requires forall i :: 0 <= i < n ==> !Marked(items, i, charbound)
    ensures AllInTable(Buffer(items, n, charbound))
  {
    hide Marked;
    if n > 0 {
      WithoutMarks(items, n - 1, charbound);
      assert Proper(items[n - 1]);
    }
  }

  lemma FirstChar(items: seq<Item>) returns (n: nat)
    requires exists i :: 0 <= i < |items| && items[i].Char?
    ensures n < |items| && items[n].Char? && forall i :: 0 <= i < n ==> items[i].Syllable?
  {
    n := 0;
    while items[n].Syllable?
      invariant n < |items| && forall i :: 0 <= i < n ==> items[i].Syllable?
      decreases |items| - n
    {
      n := n + 1;
    }
  }

  predicate OnlySyllables(items: seq<Item>)
  {
    forall i :: 0 <= i < |items| ==> items[i].Syllable?
  }

  /** All values whose class the loop looks up are code points exactly if no marks are asked for or there is
      no character but Hangul syllables. */
  lemma LooksInsideExactly(items: seq<Item>, charbound: bool)
    requires AllProper(items)
    ensures var s := Buffer(items, |items|, charbound);
      |s| <= 1 || AllInTable(s) <==> !charbound || OnlySyllables(items)
  {
    hide Buffer, AllProper;
    if !charbound || OnlySyllables(items) {
      WithoutMarks(items, |items|, charbound);
    } else {
      var n := FirstChar(items);
      MarkInBuffer(items, n);
    }
  }

  lemma MarkInBuffer(items: seq<Item>, n: nat)
    requires n < |items| && items[n].Char? && forall i :: 0 <= i < n ==> items[i].Syllable?
    ensures var s := Buffer(items, |items|, true);
      |s| > 1 && !AllInTable(s)
  {
    hide Marked;
    FirstCharMarked(items, n);
    BufferGrows(items, n + 1, |items|, true);
    var s, k := Buffer(items, |items|, true), |Buffer(items, n, true)|;
    assert Buffer(items, n + 1, true)[k] == MARK;
    assert s[k] == MARK;
  }

  /** Decomposing, counting first as `utf8proc_map_custom` does, and reordering. */
  method Normalize(ccc: Classes, items: seq<Item>, charbound: bool) returns (buffer: array<CodePoint>, outside: bool)
    requires AllProper(items)
    ensures outside <==> charbound && !OnlySyllables(items)
    ensures !outside ==> buffer[..] == SortRuns(ccc, Buffer(items, |items|, charbound))
  {
    hide Buffer, AllProper, OnlySyllables, SortRuns, AllInTable, Equivalent, Ordered, StartersInPlace;
    var none := new CodePoint[0];
    var length := WriteAll(items, charbound, none);
    buffer := new CodePoint[length];
    var wpos := WriteAll(items, charbound, buffer);
    assert buffer[..] == Buffer(items, |items|, charbound);
    LooksInsideExactly(items, charbound);
    outside := Reorder(ccc, buffer);
  }

  // ----- where the marks stand -----

  function ClassesOf(items: seq<Item>): seq<Grapheme.Class>
  {
    seq(|items|, i requires 0 <= i < |items| => items[i].property)
  }

  lemma {:induction false} AllAsked(items: seq<Item>)
    requires forall i :: 0 <= i < |items| ==> items[i].Char?
    ensures Asked(items) == ClassesOf(items)
  {
    if items != [] {
      var n := |items| - 1;
      AllAsked(items[..n]);
      assert ClassesOf(items) == ClassesOf(items[..n]) + [items[n].property];
    }
  }

  /** Up to the first Hangul syllable the marks stand at the boundaries of the rules; the syllable has none,
      which is right only where the rules forbid a break. */
  lemma MarkedExactly(items: seq<Item>, n: nat)
    requires AllProper(items) && n < |items| && forall i :: 0 <= i < n ==> items[i].Char?
    requires forall i :: 0 <= i <= n && items[i].property.conjunct != Grapheme.ICB_NONE ==>
      !Grapheme.Ctl(items[i].property)
    ensures var cs := ClassesOf(items);
      Marked(items, n, true) <==> items[n].Char? && (n == 0 || Grapheme.RulesPermit(cs[..n + 1], n))
  {
    hide Grapheme.CharboundBreak, Grapheme.RulesPermit, Asked;
    var cs := ClassesOf(items)[..n + 1];
    AllAsked(items[..n]);
    assert cs == ClassesOf(items[..n]) + [items[n].property];
    forall c | c in cs ensures Grapheme.Real(c) && (c.conjunct != Grapheme.ICB_NONE ==> !Grapheme.Ctl(c)) {
      var i :| 0 <= i <= n && cs[i] == c;
      assert Proper(items[i]);
    }
    Grapheme.CharboundIsRules(cs, n);
  }

  /** A Hangul syllable behind a letter, for one, has no mark, though the rules put a boundary there. */
  lemma SyllableUnmarked()
    ensures var a := Char(0x61, Grapheme.Class(Grapheme.OTHER, Grapheme.ICB_NONE));
      var ga := Syllable([0x1100, 0x1161], Grapheme.Class(Grapheme.LV, Grapheme.ICB_NONE));
      !Marked([a, ga], 1, true) && Grapheme.RulesPermit(ClassesOf([a, ga]), 1)
  {
  }
}
