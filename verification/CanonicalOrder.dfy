/** The canonical ordering loop of compat/utf8proc.c:588-606 (Unicode Standard, section 3.11).

    The loop swaps neighbours and steps back after a swap.  It is proved to end, and to leave
    the one sequence that is in canonical order and keeps, for every combining class, the
    order of that class between starters. */
module CanonicalOrder {

  type CodePoint = int

  /** The combining class of a code point; the property tables are not part of this model. */
  type Classes = CodePoint -> nat

  /** The test of the loop: these two neighbours are the wrong way round. */
  predicate Inverted(ccc: Classes, x: CodePoint, y: CodePoint)
  {
    ccc(x) > ccc(y) > 0
  }

  ghost predicate OrderedUpTo(ccc: Classes, s: seq<CodePoint>, n: int)
  {
    forall i :: 0 <= i < n && i + 1 < |s| ==> !Inverted(ccc, s[i], s[i + 1])
  }

  ghost predicate Ordered(ccc: Classes, s: seq<CodePoint>)
  {
    OrderedUpTo(ccc, s, |s|)
  }

  // ----- the equivalence that reordering must respect -----

  /** The starters and the marks of one combining class, in order. */
  function Layer(ccc: Classes, s: seq<CodePoint>, k: nat): seq<CodePoint>
  {
    if |s| == 0 then []
    else (if ccc(s[0]) == 0 || ccc(s[0]) == k then [s[0]] else []) + Layer(ccc, s[1..], k)
  }

  /** Same text up to the order of marks of different classes within a run: canonical
      equivalence of fully decomposed sequences. */
  ghost predicate Equivalent(ccc: Classes, s: seq<CodePoint>, t: seq<CodePoint>)
  {
    |s| == |t| && forall k: nat :: Layer(ccc, s, k) == Layer(ccc, t, k)
  }

  lemma {:induction false} LayerAppend(ccc: Classes, s: seq<CodePoint>, t: seq<CodePoint>, k: nat)
    ensures Layer(ccc, s + t, k) == Layer(ccc, s, k) + Layer(ccc, t, k)
  {
    if |s| == 0 {
      assert s + t == t;
    } else {
      assert (s + t)[0] == s[0] && (s + t)[1..] == s[1..] + t;
      LayerAppend(ccc, s[1..], t, k);
      var first := if ccc(s[0]) == 0 || ccc(s[0]) == k then [s[0]] else [];
      assert first + Layer(ccc, s[1..], k) + Layer(ccc, t, k) == first + (Layer(ccc, s[1..], k) + Layer(ccc, t, k));
    }
  }

  function Swapped(s: seq<CodePoint>, i: nat): seq<CodePoint>
    requires i + 1 < |s|
  {
    s[i := s[i + 1]][i + 1 := s[i]]
  }

  lemma OneLayer(ccc: Classes, x: CodePoint, k: nat)
    ensures Layer(ccc, [x], k) == if ccc(x) == 0 || ccc(x) == k then [x] else []
  {
    var t := [x][1..];
    assert t == [] && Layer(ccc, t, k) == [];
  }

  lemma PairLayers(ccc: Classes, x: CodePoint, y: CodePoint, k: nat)
    requires Inverted(ccc, x, y)
    ensures Layer(ccc, [x, y], k) == Layer(ccc, [y, x], k)
  {
    hide Layer;
    LayerAppend(ccc, [x], [y], k);
    LayerAppend(ccc, [y], [x], k);
    OneLayer(ccc, x, k);
    OneLayer(ccc, y, k);
    assert [x] + [y] == [x, y] && [y] + [x] == [y, x];
  }

  lemma SwapLayers(ccc: Classes, s: seq<CodePoint>, i: nat, k: nat)
    requires i + 1 < |s| && Inverted(ccc, s[i], s[i + 1])
    ensures Layer(ccc, Swapped(s, i), k) == Layer(ccc, s, k)
  {
    hide Layer;
    var a, b := s[..i], s[i + 2..];
    var xy, yx := [s[i], s[i + 1]], [s[i + 1], s[i]];
    assert s == a + (xy + b);
    assert Swapped(s, i) == a + (yx + b);
    LayerAppend(ccc, a, xy + b, k);
    LayerAppend(ccc, a, yx + b, k);
    LayerAppend(ccc, xy, b, k);
    LayerAppend(ccc, yx, b, k);
    PairLayers(ccc, s[i], s[i + 1], k);
  }

  // ----- termination -----

  /** How many elements of t stand after x but belong before it. */
  function Behind(ccc: Classes, x: CodePoint, t: seq<CodePoint>): nat
  {
    if |t| == 0 then 0 else (if Inverted(ccc, x, t[0]) then 1 else 0) + Behind(ccc, x, t[1..])
  }

  function Inversions(ccc: Classes, s: seq<CodePoint>): nat
  {
    if |s| == 0 then 0 else Behind(ccc, s[0], s[1..]) + Inversions(ccc, s[1..])
  }

  lemma {:induction false} BehindSwapped(ccc: Classes, x: CodePoint, t: seq<CodePoint>, i: nat)
    requires i + 1 < |t|
    ensures Behind(ccc, x, Swapped(t, i)) == Behind(ccc, x, t)
  {
    if i == 0 {
      assert Swapped(t, 0)[1..][1..] == t[1..][1..];
    } else {
      assert Swapped(t, i)[1..] == Swapped(t[1..], i - 1);
      BehindSwapped(ccc, x, t[1..], i - 1);
    }
  }

  /** A swap removes exactly one inversion. */
  lemma {:induction false} SwapInversions(ccc: Classes, s: seq<CodePoint>, i: nat)
    requires i + 1 < |s| && Inverted(ccc, s[i], s[i + 1])
    ensures Inversions(ccc, Swapped(s, i)) == Inversions(ccc, s) - 1
  {
    var t := Swapped(s, i);
    if i == 0 {
      assert t[1..][1..] == s[1..][1..];
      assert Behind(ccc, s[0], s[1..]) == 1 + Behind(ccc, s[0], s[1..][1..]);
      assert Behind(ccc, t[0], t[1..]) == Behind(ccc, s[1], s[1..][1..]);
    } else {
      assert t[1..] == Swapped(s[1..], i - 1);
      BehindSwapped(ccc, s[0], s[1..], i - 1);
      SwapInversions(ccc, s[1..], i - 1);
    }
  }

  // ----- uniqueness -----

  /** In an ordered sequence nothing of class a > 0 follows a mark of a higher class before
      the next starter: the layer of class a then starts with a starter. */
  lemma {:induction false} LowerClassComesFirst(ccc: Classes, s: seq<CodePoint>, a: nat)
    requires Ordered(ccc, s) && |s| > 0 && 0 < a < ccc(s[0])
    ensures Layer(ccc, s, a) == [] || ccc(Layer(ccc, s, a)[0]) == 0
    decreases |s|
  {
    if |s| > 1 && ccc(s[1]) > 0 {
      assert !Inverted(ccc, s[0], s[0 + 1]);
      OrderedTail(ccc, s);
      LowerClassComesFirst(ccc, s[1..], a);
    }
  }

  lemma OrderedTail(ccc: Classes, s: seq<CodePoint>)
    requires Ordered(ccc, s) && |s| > 0
    ensures Ordered(ccc, s[1..])
  {
    forall i | 0 <= i && i + 1 < |s[1..]|
      ensures !Inverted(ccc, s[1..][i], s[1..][i + 1])
    {
      assert !Inverted(ccc, s[i + 1], s[i + 1 + 1]);
    }
  }

  lemma SameHead(ccc: Classes, s: seq<CodePoint>, t: seq<CodePoint>)
    requires |s| > 0 && |t| > 0 && Equivalent(ccc, s, t) && Ordered(ccc, s) && Ordered(ccc, t)
    ensures s[0] == t[0]
  {
    var a, b := ccc(s[0]), ccc(t[0]);
    assert Layer(ccc, s, a) == Layer(ccc, t, a) && Layer(ccc, s, b) == Layer(ccc, t, b);
    assert Layer(ccc, s, a)[0] == s[0] && Layer(ccc, t, b)[0] == t[0];
    assert a == 0 ==> Layer(ccc, s, b)[0] == s[0];
    assert b == 0 ==> Layer(ccc, t, a)[0] == t[0];
    if 0 < a < b { LowerClassComesFirst(ccc, t, a); }
    if 0 < b < a { LowerClassComesFirst(ccc, s, b); }
  }

  /** At most one canonically ordered sequence is equivalent to a given one. */
  lemma {:induction false} OrderedIsUnique(ccc: Classes, s: seq<CodePoint>, t: seq<CodePoint>)
    requires Equivalent(ccc, s, t) && Ordered(ccc, s) && Ordered(ccc, t)
    ensures s == t
  {
    if |s| > 0 {
      SameHead(ccc, s, t);
      OrderedTail(ccc, s);
      OrderedTail(ccc, t);
      forall k: nat
        ensures Layer(ccc, s[1..], k) == Layer(ccc, t[1..], k)
      {
        var h := if ccc(s[0]) == 0 || ccc(s[0]) == k then [s[0]] else [];
        assert Layer(ccc, s, k) == Layer(ccc, t, k);
        assert Layer(ccc, s, k) == h + Layer(ccc, s[1..], k) && Layer(ccc, t, k) == h + Layer(ccc, t[1..], k);
        assert Layer(ccc, s[1..], k) == (h + Layer(ccc, s[1..], k))[|h|..];
        assert Layer(ccc, t[1..], k) == (h + Layer(ccc, t[1..], k))[|h|..];
      }
      OrderedIsUnique(ccc, s[1..], t[1..]);
      assert s == [s[0]] + s[1..] && t == [t[0]] + t[1..];
    }
  }

  // ----- a reference: stable insertion sort of every run -----

  function Insert(ccc: Classes, x: CodePoint, s: seq<CodePoint>): (r: seq<CodePoint>)
    ensures |r| == |s| + 1
  {
    if |s| > 0 && Inverted(ccc, x, s[0]) then [s[0]] + Insert(ccc, x, s[1..]) else [x] + s
  }

  function SortRuns(ccc: Classes, s: seq<CodePoint>): (r: seq<CodePoint>)
    ensures |r| == |s|
  {
    if |s| == 0 then [] else Insert(ccc, s[0], SortRuns(ccc, s[1..]))
  }

  lemma {:induction false} InsertOrdered(ccc: Classes, x: CodePoint, s: seq<CodePoint>)
    requires Ordered(ccc, s)
    ensures Ordered(ccc, Insert(ccc, x, s))
  {
    var r := Insert(ccc, x, s);
    if |s| > 0 && Inverted(ccc, x, s[0]) {
      OrderedTail(ccc, s);
      InsertOrdered(ccc, x, s[1..]);
      var q := Insert(ccc, x, s[1..]);
      assert r == [s[0]] + q;
      assert q[0] == x || (|s| > 1 && q[0] == s[1]);
      if |s| > 1 { assert !Inverted(ccc, s[0], s[0 + 1]); }
      forall i | 0 <= i && i + 1 < |r|
        ensures !Inverted(ccc, r[i], r[i + 1])
      {
        if i > 0 { assert r[i] == q[i - 1] && r[i + 1] == q[i - 1 + 1]; }
      }
    } else {
      forall i | 0 <= i && i + 1 < |r|
        ensures !Inverted(ccc, r[i], r[i + 1])
      {
        if i > 0 { assert r[i] == s[i - 1] && r[i + 1] == s[i - 1 + 1]; }
      }
    }
  }

  lemma {:induction false} InsertLayers(ccc: Classes, x: CodePoint, s: seq<CodePoint>, k: nat)
    ensures Layer(ccc, Insert(ccc, x, s), k) == Layer(ccc, [x] + s, k)
  {
    assert ([x] + s)[1..] == s;
    if |s| > 0 && Inverted(ccc, x, s[0]) {
      InsertLayers(ccc, x, s[1..], k);
      assert ([s[0]] + Insert(ccc, x, s[1..]))[1..] == Insert(ccc, x, s[1..]);
      assert ([x] + s[1..])[1..] == s[1..];
    }
  }

  /** The reference is ordered and equivalent to its argument. */
  lemma {:induction false} SortRunsCorrect(ccc: Classes, s: seq<CodePoint>)
    ensures Ordered(ccc, SortRuns(ccc, s)) && Equivalent(ccc, s, SortRuns(ccc, s))
  {
    if |s| > 0 {
      var r := SortRuns(ccc, s[1..]);
      SortRunsCorrect(ccc, s[1..]);
      InsertOrdered(ccc, s[0], r);
      forall k: nat
        ensures Layer(ccc, s, k) == Layer(ccc, SortRuns(ccc, s), k)
      {
        InsertLayers(ccc, s[0], r, k);
        assert ([s[0]] + r)[1..] == r;
        assert Layer(ccc, s[1..], k) == Layer(ccc, r, k);
      }
    }
  }

  /** Canonically equivalent sequences have one and the same canonical order. */
  lemma {:induction false} EquivalentSortAlike(ccc: Classes, s: seq<CodePoint>, t: seq<CodePoint>)
    requires Equivalent(ccc, s, t)
    ensures SortRuns(ccc, s) == SortRuns(ccc, t)
  {
    SortRunsCorrect(ccc, s);
    SortRunsCorrect(ccc, t);
    OrderedIsUnique(ccc, SortRuns(ccc, s), SortRuns(ccc, t));
  }

  // ----- the loop -----

  /** Starters do not move: a position that holds one before or after holds the same one. */
  ghost predicate StartersInPlace(ccc: Classes, s: seq<CodePoint>, t: seq<CodePoint>)
  {
    |s| == |t| && forall i :: 0 <= i < |s| && (ccc(s[i]) == 0 || ccc(t[i]) == 0) ==> s[i] == t[i]
  }

  /** What the loop has established when it looks at position pos. */
  ghost predicate Progress(ccc: Classes, was: seq<CodePoint>, now: seq<CodePoint>, pos: int)
  {
    && OrderedUpTo(ccc, now, pos)
    && Equivalent(ccc, was, now)
    && StartersInPlace(ccc, was, now)
    && multiset(now) == multiset(was)
  }

  lemma StartProgress(ccc: Classes, s: seq<CodePoint>)
    ensures Progress(ccc, s, s, 0)
  {
  }

  lemma StepProgress(ccc: Classes, was: seq<CodePoint>, now: seq<CodePoint>, pos: nat)
    requires Progress(ccc, was, now, pos) && pos + 1 < |now| && !Inverted(ccc, now[pos], now[pos + 1])
    ensures Progress(ccc, was, now, pos + 1)
  {
  }

  lemma EndProgress(ccc: Classes, was: seq<CodePoint>, now: seq<CodePoint>, pos: nat)
    requires Progress(ccc, was, now, pos) && pos + 1 >= |now|
    ensures Ordered(ccc, now) && Equivalent(ccc, was, now) && now == SortRuns(ccc, was)
    ensures StartersInPlace(ccc, was, now) && multiset(now) == multiset(was)
  {
    SortRunsCorrect(ccc, was);
    OrderedIsUnique(ccc, now, SortRuns(ccc, was));
  }

  /** A swap keeps everything but the order at the position before it. */
  lemma SwapProgress(ccc: Classes, was: seq<CodePoint>, now: seq<CodePoint>, pos: nat)
    requires Progress(ccc, was, now, pos) && pos + 1 < |now| && Inverted(ccc, now[pos], now[pos + 1])
    ensures Progress(ccc, was, Swapped(now, pos), if pos > 0 then pos - 1 else 1)
  {
    forall k: nat ensures Layer(ccc, was, k) == Layer(ccc, Swapped(now, pos), k) {
      SwapLayers(ccc, now, pos, k);
    }
    var t := Swapped(now, pos);
    forall i | 0 <= i < pos - 1 ensures !Inverted(ccc, t[i], t[i + 1]) {
      assert !Inverted(ccc, now[i], now[i + 1]);
    }
  }

  /** What `unsafe_get_property` needs: other values lead outside its tables. */
  predicate InTable(uc: CodePoint)
  {
    0 <= uc < 0x11_0000
  }

  predicate AllInTable(s: seq<CodePoint>)
  {
    forall i :: 0 <= i < |s| ==> InTable(s[i])
  }

  /** The first n places have been looked up. */
  ghost predicate Looked(s: seq<CodePoint>, n: nat)
  {
    n <= |s| && AllInTable(s[..n])
  }

  lemma LooksOn(s: seq<CodePoint>, n: nat, pos: nat) returns (m: nat)
    requires Looked(s, n) && pos + 1 < |s| && InTable(s[pos]) && InTable(s[pos + 1]) && (pos == 0 || n > pos)
    ensures m >= pos + 2 && Looked(s, m)
  {
    m := if n >= pos + 2 then n else pos + 2;
  }

  lemma LooksAtSame(s: seq<CodePoint>, n: nat, pos: nat)
    requires Looked(s, n) && pos + 1 < n
    ensures Looked(Swapped(s, pos), n)
  {
    assert s[..n][pos] == s[pos] && s[..n][pos + 1] == s[pos + 1];
  }

  lemma {:induction false} SameMembers(s: seq<CodePoint>, t: seq<CodePoint>)
    requires multiset(s) == multiset(t) && AllInTable(s)
    ensures AllInTable(t)
  {
    forall i | 0 <= i < |t| ensures InTable(t[i]) {
      assert t[i] in multiset(t);
      assert t[i] in s;
    }
  }

  lemma LookedAll(ccc: Classes, was: seq<CodePoint>, now: seq<CodePoint>, n: nat, pos: nat)
    requires Progress(ccc, was, now, pos) && Looked(now, n) && n >= |now|
    ensures AllInTable(was)
  {
    assert now[..n] == now;
    SameMembers(now, was);
  }

  lemma LookedOutside(ccc: Classes, was: seq<CodePoint>, now: seq<CodePoint>, pos: nat)
    requires Progress(ccc, was, now, pos) && pos + 1 < |now| && !(InTable(now[pos]) && InTable(now[pos + 1]))
    ensures !AllInTable(was) && |was| > 1
    ensures Equivalent(ccc, was, now) && StartersInPlace(ccc, was, now) && multiset(now) == multiset(was)
  {
    if AllInTable(was) { SameMembers(was, now); }
  }

  method SwapAt(buffer: array<CodePoint>, pos: nat)
    requires pos + 1 < buffer.Length
    modifies buffer
    ensures buffer[..] == Swapped(old(buffer[..]), pos)
  {
    buffer[pos], buffer[pos + 1] := buffer[pos + 1], buffer[pos];
  }

  /** The reordering loop of `utf8proc_decompose_custom`, up to the first value whose class is looked up
      outside the property tables.  There is one exactly if there are two values or more and one of them is
      no code point. */
  method Reorder(ccc: Classes, buffer: array<CodePoint>) returns (outside: bool)
    modifies buffer
    ensures outside <==> buffer.Length > 1 && !AllInTable(old(buffer[..]))
    ensures !outside ==> buffer[..] == SortRuns(ccc, old(buffer[..])) && Ordered(ccc, buffer[..])
    ensures Equivalent(ccc, old(buffer[..]), buffer[..])
    ensures StartersInPlace(ccc, old(buffer[..]), buffer[..])
    ensures multiset(buffer[..]) == multiset(old(buffer[..]))
  {
    hide Progress, SortRuns, Inversions, Swapped, Ordered, Equivalent, StartersInPlace, Looked, AllInTable, InTable;
    ghost var was := buffer[..];
    var wpos := buffer.Length;
    var pos := 0;
    ghost var looked := 0;
    StartProgress(ccc, was);
    NothingLooked(was);
    while pos < wpos - 1
      invariant 0 <= pos && (pos <= wpos - 1 || pos == 0) && (pos == 0 || looked > pos)
      invariant Progress(ccc, was, buffer[..], pos) && Looked(buffer[..], looked)
      decreases Inversions(ccc, buffer[..]), wpos - pos
    {
      var uc1, uc2 := buffer[pos], buffer[pos + 1];
      ghost var before := buffer[..];
      if !(InTable(uc1) && InTable(uc2)) {
        LookedOutside(ccc, was, before, pos);
        return true;
      }
      looked := LooksOn(before, looked, pos);
      if ccc(uc1) > ccc(uc2) && ccc(uc2) > 0 {
        SwapInversions(ccc, before, pos);
        SwapProgress(ccc, was, before, pos);
        LooksAtSame(before, looked, pos);
        SwapAt(buffer, pos);
        if pos > 0 {
          pos := pos - 1;
        } else {
          pos := pos + 1;
        }
      } else {
        StepProgress(ccc, was, before, pos);
        pos := pos + 1;
      }
    }
    EndProgress(ccc, was, buffer[..], pos);
    if wpos > 1 { LookedAll(ccc, was, buffer[..], looked, pos); }
    return false;
  }

  lemma NothingLooked(s: seq<CodePoint>)
    ensures Looked(s, 0)
  {
  }
}
