/** Splitting a hunk into one hunk per run of changes: `stage_insert_chunk` and
    `stage_split_chunk` of src/stage.c:317-416. */
module StageSplit {
  import opened Common
  import opened ChunkHeader
  import opened StageApply

  /** `*box_text(line)` */
  function First(line: Line): char
  {
    CharAt(line.text, 0)
  }

  predicate IsContext(line: Line)
  {
    First(line) == ' '
  }

  predicate EndsBody(line: Line)
  {
    First(line) == '@' || First(line) == '\\'
  }

  /** Where the body that starts at i ends. */
  function BodyEnd(lines: seq<Line>, i: nat): (end: nat)
    requires i <= |lines|
    ensures i <= end <= |lines|
    ensures forall k :: i <= k < end ==> !EndsBody(lines[k])
    ensures end < |lines| ==> EndsBody(lines[end])
    decreases |lines| - i
  {
    if i < |lines| && !EndsBody(lines[i]) then BodyEnd(lines, i + 1) else i
  }

  function OldLines(lines: seq<Line>): nat
  {
    |OldSide(Texts(lines))|
  }

  function NewLines(lines: seq<Line>): nat
  {
    |NewSide(Texts(lines))|
  }

  // ----- the specification -----

  /** One new hunk: the lines from..to of the body. */
  datatype Cut = Cut(from: nat, to: nat)

  /** The one run of changes of a piece: context, changes, context. */
  ghost predicate OneRun(piece: seq<Line>)
  {
    exists a: nat, b: nat :: RunAt(piece, a, b)
  }

  ghost predicate RunAt(piece: seq<Line>, a: nat, b: nat)
  {
    && a < b <= |piece|
    && (forall k :: 0 <= k < |piece| ==> (IsContext(piece[k]) <==> (k < a || b <= k)))
  }

  /** The next piece starts with exactly the context between two runs, which also ends this piece. */
  ghost predicate Overlap(body: seq<Line>, cut: Cut, next: Cut)
  {
    && cut.from < next.from < cut.to < next.to <= |body|
    && (forall k :: next.from <= k < cut.to ==> IsContext(body[k]))
    && !IsContext(body[next.from - 1]) && !IsContext(body[cut.to])
  }

  /** The pieces cover the body, each starting with the context that ends the one before. */
  ghost predicate Covering(body: seq<Line>, cuts: seq<Cut>)
  {
    && cuts != []
    && cuts[0].from == 0
    && cuts[|cuts| - 1].to == |body|
    && InBody(body, cuts)
    && (forall j :: 0 <= j < |cuts| - 1 ==> Overlap(body, cuts[j], cuts[j + 1]))
  }

  /** And each has one run of changes; a single piece may have none. */
  ghost predicate GoodCuts(body: seq<Line>, cuts: seq<Cut>)
  {
    && Covering(body, cuts)
    && (forall j :: 0 <= j < |cuts| ==> |cuts| == 1 || OneRun(body[cuts[j].from..cuts[j].to]))
    && (|cuts| == 1 ==> OneRun(body) || forall k :: 0 <= k < |body| ==> IsContext(body[k]))
  }

  predicate InBody(body: seq<Line>, cuts: seq<Cut>)
  {
    forall j :: 0 <= j < |cuts| ==> cuts[j].from <= cuts[j].to <= |body|
  }

  /** The header of a piece: as far behind the positions of the first header as lines precede it. */
  function PieceHeader(h: Header, body: seq<Line>, cut: Cut): Header
    requires cut.from <= cut.to <= |body|
  {
    var before, piece := body[..cut.from], body[cut.from..cut.to];
    Header(Side(h.oldSide.position + OldLines(before), OldLines(piece)),
      Side(h.newSide.position + NewLines(before), NewLines(piece)))
  }

  function Hunk(h: Header, body: seq<Line>, cut: Cut): seq<Line>
    requires cut.from <= cut.to <= |body|
  {
    [Line(DiffChunk, Format(Wrapped(PieceHeader(h, body, cut))))] + body[cut.from..cut.to]
  }

  /** Positions are kept in an `unsigned long`. */
  function Wrapped(h: Header): Header
  {
    Header(Side(Wrap(h.oldSide.position), h.oldSide.lines), Side(Wrap(h.newSide.position), h.newSide.lines))
  }

  function Hunks(h: Header, body: seq<Line>, cuts: seq<Cut>): seq<Line>
    requires InBody(body, cuts)
  {
    if cuts == [] then [] else Hunks(h, body, cuts[..|cuts| - 1]) + Hunk(h, body, cuts[|cuts| - 1])
  }

  // ----- the number of pieces -----

  /** Line k starts a run of changes. */
  predicate StartsRun(body: seq<Line>, k: nat)
    requires k < |body|
  {
    !IsContext(body[k]) && (k == 0 || IsContext(body[k - 1]))
  }

  /** Runs of changes that start in the first n lines. */
  function RunsIn(body: seq<Line>, n: nat): nat
    requires n <= |body|
  {
    if n == 0 then 0
    else RunsIn(body, n - 1) + if StartsRun(body, n - 1) then 1 else 0
  }

  function Runs(body: seq<Line>): nat
  {
    RunsIn(body, |body|)
  }

  // ----- undoing the split -----

  /** Drops chunk headers and the context that follows them. */
  function Rejoin(lines: seq<Line>, skip: bool): seq<Line>
  {
    if lines == [] then []
    else if First(lines[0]) == '@' || (skip && IsContext(lines[0])) then Rejoin(lines[1..], true)
    else [lines[0]] + Rejoin(lines[1..], false)
  }

  // ----- the scan -----

  /** An ordinary hunk body. */
  predicate Plain(body: seq<Line>)
  {
    forall k :: 0 <= k < |body| ==> First(body[k]) == ' ' || First(body[k]) == '+' || First(body[k]) == '-'
  }

  /** How far the scan is: the cuts made, the start c of the current piece, the next line i, where the run
      of changes of the piece starts, and the places in the body that `last_changed_line` and
      `last_unchanged_line` stand for; -1 is NULL. */
  datatype Scan = Scan(cuts: seq<Cut>, c: nat, i: nat, a: nat, changed: int, same: int)

  const START := Scan([], 0, 0, 0, -1, -1)

  /** A change or a foreign line behind the context that follows a change ends the piece. */
  function SplitBefore(s: Scan): Scan
  {
    if -1 < s.changed < s.same then Scan(s.cuts + [Cut(s.c, s.i)], s.same, s.i, s.i, -1, -1) else s
  }

  function ScanLine(body: seq<Line>, s: Scan): (s': Scan)
    requires s.i < |body|
    ensures s'.i == s.i + 1
  {
    var k := First(body[s.i]);
    if k == ' ' then s.(i := s.i + 1, same := if s.same < s.changed then s.i else s.same)
    else
      var s' := SplitBefore(s);
      if k == '-' || k == '+' then s'.(i := s.i + 1, a := if s'.changed == -1 then s.i else s'.a, changed := s.i)
      else s'.(i := s.i + 1)
  }

  function ScanTo(body: seq<Line>, i: nat): (s: Scan)
    requires i <= |body|
    ensures s.i == i
  {
    if i == 0 then START else ScanLine(body, ScanTo(body, i - 1))
  }

  /** Where a body is cut. */
  function CutsOf(body: seq<Line>): seq<Cut>
  {
    var s := ScanTo(body, |body|);
    s.cuts + [Cut(s.c, s.i)]
  }

  /** The cuts made so far and the start c of the current piece. */
  ghost predicate Chain(body: seq<Line>, cuts: seq<Cut>, c: nat)
  {
    && c <= |body|
    && InBody(body, cuts)
    && (forall j :: 0 <= j < |cuts| - 1 ==> Overlap(body, cuts[j], cuts[j + 1]))
    && (if cuts == [] then c == 0 else
        cuts[0].from == 0 && Overlap(body, cuts[|cuts| - 1], Cut(c, cuts[|cuts| - 1].to + 1)))
  }

  /** The two pointers: only context between the line behind the last change and i. */
  ghost predicate Pointers(body: seq<Line>, s: Scan)
    requires s.i <= |body|
  {
    && s.c <= s.i
    && (s.cuts != [] ==> s.cuts[|s.cuts| - 1].to < s.i)
    && (if s.changed == -1 then s.same == -1 else s.c <= s.changed < s.i)
    && (s.same == -1 || s.changed < s.same < s.i)
    && (s.same == -1 ==> s.changed == -1 || !IsContext(body[s.i - 1]))
    && (s.same != -1 ==> !IsContext(body[s.same - 1]) && forall k :: s.same <= k < s.i ==> IsContext(body[k]))
  }

  lemma PointersMove(body: seq<Line>, s: Scan)
    requires s.i < |body| && Pointers(body, s)
    ensures Pointers(body, ScanLine(body, s))
  {
  }

  lemma {:induction false} ScanValid(body: seq<Line>, i: nat)
    requires i <= |body|
    ensures var s := ScanTo(body, i); Chain(body, s.cuts, s.c) && Pointers(body, s)
  {
    hide Overlap, Pointers, ScanLine;
    if i > 0 {
      var s := ScanTo(body, i - 1);
      ScanValid(body, i - 1);
      PointersMove(body, s);
      ChainMoves(body, s);
    } else {
      NoPointers(body);
    }
  }

  lemma NoPointers(body: seq<Line>)
    ensures Pointers(body, START)
  {
  }

  lemma ChainMoves(body: seq<Line>, s: Scan)
    requires s.i < |body| && Chain(body, s.cuts, s.c) && Pointers(body, s)
    ensures Chain(body, ScanLine(body, s).cuts, ScanLine(body, s).c)
  {
    hide Chain;
    if !IsContext(body[s.i]) && -1 < s.changed < s.same { ChainGrows(body, s); }
  }

  lemma ChainGrows(body: seq<Line>, s: Scan)
    requires s.i < |body| && Chain(body, s.cuts, s.c) && Pointers(body, s) && !IsContext(body[s.i])
    requires -1 < s.changed < s.same
    ensures Chain(body, s.cuts + [Cut(s.c, s.i)], s.same)
  {
    hide IsContext;
    var n := |s.cuts|;
    var cuts' := s.cuts + [Cut(s.c, s.i)];
    forall j | 0 <= j < |cuts'| - 1
      ensures Overlap(body, cuts'[j], cuts'[j + 1])
    {
      if j == n - 1 {
        assert Overlap(body, s.cuts[n - 1], Cut(s.c, s.cuts[n - 1].to + 1));
      }
    }
  }

  /** Whatever the lines are, the pieces cover the body and overlap in shared context. */
  lemma CutsCover(body: seq<Line>)
    ensures Covering(body, CutsOf(body))
  {
    hide IsContext;
    var s := ScanTo(body, |body|);
    ScanValid(body, |body|);
    var n := |s.cuts|;
    var cuts := CutsOf(body);
    forall j | 0 <= j < |cuts| - 1
      ensures Overlap(body, cuts[j], cuts[j + 1])
    {
      if j == n - 1 {
        assert Overlap(body, s.cuts[n - 1], Cut(s.c, s.cuts[n - 1].to + 1));
      }
    }
  }

  /** In an ordinary body: context up to a, changes up to the last one, context. */
  ghost predicate Scanned(body: seq<Line>, s: Scan)
    requires s.i <= |body|
  {
    && (s.cuts != [] ==> s.changed != -1)
    && if s.changed == -1 then forall k :: s.c <= k < s.i ==> IsContext(body[k])
       else
         && s.c <= s.a <= s.changed < s.i
         && forall k :: s.c <= k < s.i ==> (IsContext(body[k]) <==> (k < s.a || s.changed < k))
  }

  ghost predicate AllOneRun(body: seq<Line>, cuts: seq<Cut>)
    requires InBody(body, cuts)
  {
    forall j :: 0 <= j < |cuts| ==> OneRun(body[cuts[j].from..cuts[j].to])
  }

  lemma ScannedOn(body: seq<Line>, s: Scan)
    requires s.i < |body| && First(body[s.i]) in {' ', '+', '-'} && Pointers(body, s) && Scanned(body, s)
    ensures Scanned(body, ScanLine(body, s))
  {
  }

  lemma RunEnds(body: seq<Line>, s: Scan)
    requires s.i < |body| && Scanned(body, s) && InBody(body, s.cuts) && AllOneRun(body, s.cuts)
    ensures InBody(body, ScanLine(body, s).cuts) && AllOneRun(body, ScanLine(body, s).cuts)
  {
    if !IsContext(body[s.i]) && -1 < s.changed < s.same { RunFound(body, s.c, s.i, s.a, s.changed); }
    hide OneRun;
  }

  lemma {:induction false} ScanOneRun(body: seq<Line>, i: nat)
    requires Plain(body) && i <= |body|
    ensures var s := ScanTo(body, i); InBody(body, s.cuts) && AllOneRun(body, s.cuts) && Scanned(body, s)
  {
    hide AllOneRun, ScanLine, Pointers, Chain, Plain;
    if i > 0 {
      ScanOneRun(body, i - 1);
      ScanValid(body, i - 1);
      PlainLine(body, i - 1);
      ScannedOn(body, ScanTo(body, i - 1));
      RunEnds(body, ScanTo(body, i - 1));
    } else {
      NoneYet(body);
    }
  }

  lemma NoneYet(body: seq<Line>)
    ensures AllOneRun(body, START.cuts)
  {
  }

  lemma PlainLine(body: seq<Line>, k: nat)
    requires Plain(body) && k < |body|
    ensures First(body[k]) == ' ' || First(body[k]) == '+' || First(body[k]) == '-'
  {
  }

  /** An ordinary body is cut into one piece for each run of changes. */
  lemma CutsAreGood(body: seq<Line>)
    requires Plain(body)
    ensures GoodCuts(body, CutsOf(body))
  {
    hide OneRun, Plain, Overlap;
    var s := ScanTo(body, |body|);
    CutsCover(body);
    ScanValid(body, |body|);
    ScanOneRun(body, |body|);
    if s.changed != -1 { RunFound(body, s.c, |body|, s.a, s.changed); }
    assert s.cuts == [] ==> body[s.c..|body|] == body;
  }

  lemma RunFound(body: seq<Line>, c: nat, i: nat, a: nat, changed: int)
    requires c <= a <= changed < i <= |body|
    requires forall k :: c <= k < i ==> (IsContext(body[k]) <==> (k < a || changed < k))
    ensures OneRun(body[c..i])
  {
    assert RunAt(body[c..i], a - c, changed + 1 - c);
  }

  // ----- bodies with foreign lines -----

  lemma {:induction false} InSomePiece(body: seq<Line>, cuts: seq<Cut>, j: nat, k: nat) returns (p: nat)
    requires Covering(body, cuts) && j < |cuts| && k < cuts[j].to
    ensures p < |cuts| && cuts[p].from <= k < cuts[p].to
  {
    if cuts[j].from <= k {
      p := j;
    } else {
      assert Overlap(body, cuts[j - 1], cuts[j - 1 + 1]);
      p := InSomePiece(body, cuts, j - 1, k);
    }
  }

  /** All new hunks are diffs exactly if the body had only context, added and deleted lines. */
  lemma PiecesAreDiffs(body: seq<Line>, cuts: seq<Cut>)
    requires Covering(body, cuts)
    ensures (forall j :: 0 <= j < |cuts| ==> IsDiff(Texts(body[cuts[j].from..cuts[j].to]))) <==> Plain(body)
  {
    if Plain(body) {
      forall j | 0 <= j < |cuts| ensures IsDiff(Texts(body[cuts[j].from..cuts[j].to])) {
        PlainIsDiff(body, cuts[j].from, cuts[j].to);
      }
    } else {
      var k: nat :| k < |body| && !(First(body[k]) == ' ' || First(body[k]) == '+' || First(body[k]) == '-');
      var p := InSomePiece(body, cuts, |cuts| - 1, k);
      var piece := Texts(body[cuts[p].from..cuts[p].to]);
      assert piece[k - cuts[p].from] == body[k].text;
      assert !IsDiffLine(piece[k - cuts[p].from]);
    }
  }

  /** The last hunk of a file, followed by the next file's header. */
  const TWO_FILES: seq<Line> := [
    Line(DiffChunk, "@@ -1,2 +1 @@"), Line(DiffDel, "-a"), Line(Other, " b"),
    Line(DiffHeader, "diff --git a/y b/y"), Line(Other, "--- a/y"), Line(Other, "+++ b/y"),
    Line(DiffChunk, "@@ -1 +1 @@"), Line(DiffDel, "-c"), Line(DiffAdd, "+d")]

  /** The loop runs on into the header of the next file, which it takes for a second run of changes. */
  lemma NextFileIsSplitOff()
    ensures BodyOf(TWO_FILES, 0) == TWO_FILES[1..6]
    ensures CutsOf(BodyOf(TWO_FILES, 0)) == [Cut(0, 2), Cut(1, 5)]
  {
    var l := TWO_FILES;
    assert BodyEnd(l, 6) == 6 && BodyEnd(l, 5) == 6 && BodyEnd(l, 4) == 6 && BodyEnd(l, 3) == 6 && BodyEnd(l, 2) == 6;
    var body := l[1..6];
    assert First(body[0]) == '-' && First(body[1]) == ' ' && First(body[2]) == 'd' && First(body[3]) == '-' &&
      First(body[4]) == '+';
    hide First;
    assert ScanTo(body, 1) == Scan([], 0, 1, 0, 0, -1);
    assert ScanTo(body, 2) == Scan([], 0, 2, 0, 0, 1);
    assert ScanTo(body, 3) == Scan([Cut(0, 2)], 1, 3, 2, -1, -1);
    assert ScanTo(body, 4) == Scan([Cut(0, 2)], 1, 4, 3, 3, -1);
    assert ScanTo(body, 5) == Scan([Cut(0, 2)], 1, 5, 3, 4, -1);
  }

  // ----- the running header -----

  lemma {:induction false} LinesConcat(a: seq<Line>, b: seq<Line>)
    ensures OldLines(a + b) == OldLines(a) + OldLines(b)
    ensures NewLines(a + b) == NewLines(a) + NewLines(b)
  {
    hide OldSide, NewSide;
    assert Texts(a + b) == Texts(a) + Texts(b);
    SidesConcat(Texts(a), Texts(b));
  }

  lemma LinesOfOne(line: Line)
    ensures OldLines([line]) == if First(line) == ' ' || First(line) == '-' then 1 else 0
    ensures NewLines([line]) == if First(line) == ' ' || First(line) == '+' then 1 else 0
  {
    SidesOfLast([line]);
    assert Texts([line][..0]) == [];
  }

  lemma LinesGrow(body: seq<Line>, c: nat, i: nat)
    requires c <= i < |body|
    ensures OldLines(body[c..i + 1]) == OldLines(body[c..i]) + OldLines([body[i]])
    ensures NewLines(body[c..i + 1]) == NewLines(body[c..i]) + NewLines([body[i]])
  {
    assert body[c..i + 1] == body[c..i] + [body[i]];
    LinesConcat(body[c..i], [body[i]]);
  }

  lemma {:induction false} LinesOfContext(lines: seq<Line>)
    requires forall k :: 0 <= k < |lines| ==> IsContext(lines[k])
    ensures OldLines(lines) == NewLines(lines) == |lines|
  {
    if lines != [] {
      var n := |lines| - 1;
      assert lines == lines[..n] + [lines[n]];
      LinesOfContext(lines[..n]);
      LinesConcat(lines[..n], [lines[n]]);
      LinesOfOne(lines[n]);
    }
  }

  lemma LinesBound(lines: seq<Line>)
    ensures OldLines(lines) <= |lines| && NewLines(lines) <= |lines|
  {
    SideLength(Texts(lines));
  }

  /** The header after the step from one piece to the next. */
  function Advanced(h: Header, diff: nat): Header
  {
    Header(Side(Wrap(h.oldSide.position + h.oldSide.lines - diff), diff),
      Side(Wrap(h.newSide.position + h.newSide.lines - diff), diff))
  }

  /** No position overflows. */
  ghost predicate Room(h: Header, body: seq<Line>)
  {
    h.oldSide.position + |body| <= ULONG_MAX && h.newSide.position + |body| <= ULONG_MAX
  }

  lemma WrapAgain(a: nat, x: nat, y: nat)
    ensures Wrap(Wrap(a) + x - y) == Wrap(a + x - y)
  {
  }

  lemma AdvancedIsNext(h: Header, body: seq<Line>, c: nat, same: nat, i: nat)
    requires c <= same <= i <= |body|
    requires forall k :: same <= k < i ==> IsContext(body[k])
    ensures Advanced(Wrapped(PieceHeader(h, body, Cut(c, i))), i - same) == Wrapped(PieceHeader(h, body, Cut(same, i)))
  {
    hide OldLines, NewLines, IsContext, Wrap;
    assert body[..i] == body[..c] + body[c..i] == body[..same] + body[same..i];
    LinesConcat(body[..c], body[c..i]);
    LinesConcat(body[..same], body[same..i]);
    LinesOfContext(body[same..i]);
    WrapAgain(h.oldSide.position + OldLines(body[..c]), OldLines(body[c..i]), i - same);
    WrapAgain(h.newSide.position + NewLines(body[..c]), NewLines(body[c..i]), i - same);
  }

  // ----- the state of the scan -----

  /** The view while the chunk is being split: finished hunks, the header line of the current one,
      the rest of the body and what follows it. */
  function Layout(before: seq<Line>, hunks: seq<Line>, header: Line, rest: seq<Line>, after: seq<Line>): seq<Line>
  {
    before + hunks + [header] + rest + after
  }

  /** What `stage_insert_chunk` makes of the lines. */
  function Inserted(lines: seq<Line>, header: Header, from: nat, to: nat, lastUnchanged: nat): seq<Line>
    requires from < lastUnchanged <= to <= |lines|
  {
    lines[..from] + [Line(DiffChunk, Format(header))] + lines[from + 1..to] +
    [Line(DiffChunk, "")] + lines[lastUnchanged..to] + lines[to..]
  }

  lemma LayoutSplit(before: seq<Line>, hunks: seq<Line>, header: Line, body: seq<Line>, after: seq<Line>,
      h: Header, c: nat, same: nat, i: nat)
    requires c < same <= i <= |body| || c == same <= i <= |body|
    ensures var from := |before| + |hunks|;
      Inserted(Layout(before, hunks, header, body[c..], after), h, from, from + 1 + (i - c), from + 1 + (same - c)) ==
        Layout(before, hunks + ([Line(DiffChunk, Format(h))] + body[c..i]), Line(DiffChunk, ""), body[same..], after)
  {
    hide Format, Layout;
    LayoutParts(before, hunks, header, body, after, c, i);
    LayoutMiddle(before, hunks, header, body, after, c, same, i);
    LayoutRest(before + hunks, [Line(DiffChunk, Format(h))], body[c..i], [Line(DiffChunk, "")], body[same..i],
      body[i..], after);
    assert body[same..] == body[same..i] + body[i..];
    LayoutIs(before, hunks + ([Line(DiffChunk, Format(h))] + body[c..i]), Line(DiffChunk, ""), body[same..], after);
    Associates(before, hunks, [Line(DiffChunk, Format(h))] + body[c..i]);
  }

  lemma LayoutIs(before: seq<Line>, hunks: seq<Line>, header: Line, rest: seq<Line>, after: seq<Line>)
    ensures Layout(before, hunks, header, rest, after) == before + hunks + [header] + rest + after
  {
  }

  lemma LayoutParts(before: seq<Line>, hunks: seq<Line>, header: Line, body: seq<Line>, after: seq<Line>, c: nat,
    i: nat)
    requires c <= i <= |body|
    ensures var from, lines := |before| + |hunks|, Layout(before, hunks, header, body[c..], after);
      var to := from + 1 + (i - c);
      to <= |lines| && lines[..from] == before + hunks && lines[from + 1..to] == body[c..i] &&
        lines[to..] == body[i..] + after
  {
    var lead := before + hunks;
    assert body[c..] == body[c..i] + body[i..];
    assert Layout(before, hunks, header, body[c..], after) == lead + [header] + body[c..i] + (body[i..] + after);
  }

  lemma LayoutMiddle(before: seq<Line>, hunks: seq<Line>, header: Line, body: seq<Line>, after: seq<Line>,
      c: nat, same: nat, i: nat)
    requires c <= same <= i <= |body|
    ensures var from, lines := |before| + |hunks|, Layout(before, hunks, header, body[c..], after);
      var to := from + 1 + (i - c);
      to <= |lines| && lines[from + 1 + (same - c)..to] == body[same..i]
  {
    hide Layout;
    LayoutParts(before, hunks, header, body, after, c, i);
    var from, lines := |before| + |hunks|, Layout(before, hunks, header, body[c..], after);
    var to := from + 1 + (i - c);
    assert lines[from + 1 + (same - c)..to] == lines[from + 1..to][same - c..];
  }

  lemma LayoutRest(lead: seq<Line>, h: seq<Line>, piece: seq<Line>, next: seq<Line>, shared: seq<Line>, rest: seq<Line>,
      after: seq<Line>)
    ensures lead + h + piece + next + shared + (rest + after) == lead + (h + piece) + next + (shared + rest) + after
  {
    Associates(lead, h, piece);
    var a := lead + (h + piece) + next;
    Associates(a, shared, rest);
    Associates(a + shared, rest, after);
  }

  /** The hunk that is being split. */
  datatype Target = Target(before: seq<Line>, header: Line, h: Header, body: seq<Line>, after: seq<Line>)
  {
    function Lines(): seq<Line>
    {
      before + [header] + body + after
    }

    /** The body is the part that the loop goes through. */
    ghost predicate Ends()
    {
      (after != [] ==> EndsBody(after[0])) && forall k :: 0 <= k < |body| ==> !EndsBody(body[k])
    }
  }

  function Place(from: nat, c: nat, k: int): int
  {
    if k == -1 then -1 else from + 1 + (k - c)
  }

  ghost predicate Valid(t: Target, s: Scan)
  {
    s.i <= |t.body| && s == ScanTo(t.body, s.i) && Chain(t.body, s.cuts, s.c) && Pointers(t.body, s)
  }

  function Current(t: Target, s: Scan): Line
  {
    if s.cuts == [] then t.header else Line(DiffChunk, "")
  }

  /** The variables of `stage_split_chunk` and the view, at scan state s. */
  ghost predicate At(t: Target, s: Scan, lines: seq<Line>, from: nat, pos: nat, header: Header,
      lastChanged: int, lastUnchanged: int)
  {
    && Valid(t, s)
    && lines == Layout(t.before, Hunks(t.h, t.body, s.cuts), Current(t, s), t.body[s.c..], t.after)
    && from == |t.before| + |Hunks(t.h, t.body, s.cuts)|
    && pos == from + 1 + (s.i - s.c)
    && header == Wrapped(PieceHeader(t.h, t.body, Cut(s.c, s.i)))
    && lastChanged == Place(from, s.c, s.changed) && lastUnchanged == Place(from, s.c, s.same)
  }

  lemma PlacesOrdered(t: Target, s: Scan)
    requires Valid(t, s)
    ensures s.c <= s.i <= |t.body| && InBody(t.body, s.cuts)
    ensures s.changed == -1 || s.c <= s.changed < s.i
    ensures s.same == -1 || s.c < s.same < s.i
    ensures -1 < s.changed < s.same || s.same == -1
  {
    hide ScanTo;
  }

  lemma LineAt(t: Target, s: Scan, lines: seq<Line>, from: nat, pos: nat, header: Header, lastChanged: int,
      lastUnchanged: int)
    requires At(t, s, lines, from, pos, header, lastChanged, lastUnchanged) && t.Ends()
    ensures pos < |lines| && !EndsBody(lines[pos]) <==> s.i < |t.body|
    ensures s.i < |t.body| ==> pos < |lines| && lines[pos] == t.body[s.i]
  {
    hide Hunks, PieceHeader, Chain, Pointers, ScanTo, EndsBody;
    PlacesOrdered(t, s);
    var lead := t.before + Hunks(t.h, t.body, s.cuts) + [Current(t, s)];
    var rest := t.body[s.c..];
    assert lines == lead + rest + t.after && pos == |lead| + (s.i - s.c);
    if s.i < |t.body| {
      assert lines[pos] == rest[s.i - s.c];
    } else if pos < |lines| {
      assert lines[pos] == t.after[0];
    }
  }

  function CountLine(header: Header, c: char): Header
  {
    var o := if c == ' ' || c == '-' then 1 else 0;
    var n := if c == ' ' || c == '+' then 1 else 0;
    header.(oldSide := header.oldSide.(lines := header.oldSide.lines + o),
      newSide := header.newSide.(lines := header.newSide.lines + n))
  }

  lemma HeaderGrows(h: Header, body: seq<Line>, c: nat, i: nat)
    requires c <= i < |body|
    ensures CountLine(Wrapped(PieceHeader(h, body, Cut(c, i))), First(body[i])) ==
      Wrapped(PieceHeader(h, body, Cut(c, i + 1)))
  {
    hide OldLines, NewLines, First, Wrap;
    LinesGrow(body, c, i);
    LinesOfOne(body[i]);
  }

  lemma NextValid(t: Target, s: Scan)
    requires Valid(t, s) && s.i < |t.body|
    ensures Valid(t, ScanLine(t.body, s))
  {
    hide Chain, Pointers;
    ScanValid(t.body, s.i + 1);
  }

  /** Context, a change or a foreign line that does not end the piece. */
  lemma StepOn(t: Target, s: Scan, lines: seq<Line>, from: nat, pos: nat, header: Header,
      lastChanged: int, lastUnchanged: int)
    requires At(t, s, lines, from, pos, header, lastChanged, lastUnchanged)
    requires s.i < |t.body| && (IsContext(t.body[s.i]) || !(-1 < lastChanged < lastUnchanged))
    ensures var c := First(t.body[s.i]);
      At(t, ScanLine(t.body, s), lines, from, pos + 1, CountLine(header, c),
        if c == '-' || c == '+' then pos else lastChanged,
        if c == ' ' && lastUnchanged < lastChanged then pos else lastUnchanged)
    ensures |ScanLine(t.body, s).cuts| == |s.cuts|
  {
    hide Hunks, PieceHeader, Wrapped, Chain, Pointers, ScanTo, EndsBody, Layout, CountLine;
    PlacesOrdered(t, s);
    NextValid(t, s);
    HeaderGrows(t.h, t.body, s.c, s.i);
  }

  /** A split, and the line that causes it. */
  lemma StepSplit(t: Target, s: Scan, lines: seq<Line>, from: nat, pos: nat, header: Header,
      lastChanged: int, lastUnchanged: int)
    requires At(t, s, lines, from, pos, header, lastChanged, lastUnchanged) && t.Ends()
    requires s.i < |t.body| && !IsContext(t.body[s.i]) && -1 < lastChanged < lastUnchanged
    ensures from < lastUnchanged <= pos <= |lines| && 0 <= s.same
    ensures var c, next := First(t.body[s.i]), pos + 1 + (pos - lastUnchanged);
      At(t, ScanLine(t.body, s), Inserted(lines, header, from, pos, lastUnchanged), pos, next + 1,
        CountLine(Advanced(header, pos - lastUnchanged), c), if c == '-' || c == '+' then next else -1, -1)
    ensures |ScanLine(t.body, s).cuts| == |s.cuts| + 1
  {
    hide PieceHeader, Wrapped, Hunks, Layout, Inserted, EndsBody, Advanced, CountLine, ScanTo;
    PlacesOrdered(t, s);
    LineAt(t, s, lines, from, pos, header, lastChanged, lastUnchanged);
    LayoutSplit(t.before, Hunks(t.h, t.body, s.cuts), Current(t, s), t.body, t.after, header, s.c, s.same, s.i);
    HunksPush(t.h, t.body, s.cuts, Cut(s.c, s.i));
    AdvancedIsNext(t.h, t.body, s.c, s.same, s.i);
    HeaderGrows(t.h, t.body, s.same, s.i);
    NextValid(t, s);
    hide Chain, Pointers;
  }

  lemma HunksPush(h: Header, body: seq<Line>, cuts: seq<Cut>, cut: Cut)
    requires InBody(body, cuts) && cut.from <= cut.to <= |body|
    ensures InBody(body, cuts + [cut])
    ensures Hunks(h, body, cuts + [cut]) ==
      Hunks(h, body, cuts) + ([Line(DiffChunk, Format(Wrapped(PieceHeader(h, body, cut))))] + body[cut.from..cut.to])
    ensures |Hunks(h, body, cuts + [cut])| == |Hunks(h, body, cuts)| + 1 + (cut.to - cut.from)
  {
    hide PieceHeader, Wrapped, Format;
    assert (cuts + [cut])[..|cuts|] == cuts;
  }

  // ----- start and end -----

  function BodyOf(lines: seq<Line>, start: nat): seq<Line>
    requires start < |lines|
  {
    lines[start + 1..BodyEnd(lines, start + 1)]
  }

  /** The hunk that starts at line `start`, with what stands around it. */
  function TargetAt(lines: seq<Line>, start: nat): Target
    requires start < |lines| && Parse(lines[start].text).Some?
  {
    Target(lines[..start], lines[start], Parse(lines[start].text).value, BodyOf(lines, start),
      lines[BodyEnd(lines, start + 1)..])
  }

  /** The view after the split: nothing changes for one piece. */
  function SplitLines(t: Target, cuts: seq<Cut>): seq<Line>
    requires InBody(t.body, cuts)
  {
    if |cuts| <= 1 then t.Lines() else t.before + Hunks(t.h, t.body, cuts) + t.after
  }

  lemma StartAt(lines: seq<Line>, start: nat)
    requires start < |lines| && Parse(lines[start].text).Some?
    ensures var t := TargetAt(lines, start);
      && t.Ends() && lines == t.Lines() && t.h == Parse(lines[start].text).value
      && At(t, START, lines, start, start + 1,
           Header(Side(t.h.oldSide.position, 0), Side(t.h.newSide.position, 0)), -1, -1)
  {
    hide Parse;
    var t := TargetAt(lines, start);
    ParsedFits(lines[start].text);
    assert t.body[..0] == [] && t.body[0..0] == [] && Texts([]) == [];
    assert t.before + [] == t.before && t.body[0..] == t.body;
  }

  /** At the end of the body; the last header is still to be rewritten. */
  lemma FinishAt(t: Target, s: Scan, lines: seq<Line>, from: nat, pos: nat, header: Header, lastChanged: int,
      lastUnchanged: int)
    requires At(t, s, lines, from, pos, header, lastChanged, lastUnchanged) && t.Ends()
    requires !(pos < |lines| && !EndsBody(lines[pos]))
    ensures InBody(t.body, CutsOf(t.body)) && |CutsOf(t.body)| == |s.cuts| + 1
    ensures s.cuts == [] ==> lines == SplitLines(t, CutsOf(t.body))
    ensures s.cuts != [] ==>
      from < |lines| && lines[from := Line(DiffChunk, Format(header))] == SplitLines(t, CutsOf(t.body))
  {
    hide PieceHeader, Wrapped, Hunks, Format, EndsBody, IsContext, Pointers, ScanTo;
    PlacesOrdered(t, s);
    LineAt(t, s, lines, from, pos, header, lastChanged, lastUnchanged);
    HunksPush(t.h, t.body, s.cuts, Cut(s.c, s.i));
    var lead := t.before + Hunks(t.h, t.body, s.cuts);
    if s.cuts != [] {
      assert lines[from := Line(DiffChunk, Format(header))] == lead + [Line(DiffChunk, Format(header))] +
        t.body[s.c..] + t.after;
    } else {
      assert Hunks(t.h, t.body, []) == [] by { NoHunks(t.h, t.body); }
      assert t.body[s.c..] == t.body;
    }
  }

  lemma CutWell(body: seq<Line>)
    ensures Covering(body, CutsOf(body)) && InBody(body, CutsOf(body))
    ensures Plain(body) ==> GoodCuts(body, CutsOf(body))
  {
    hide CutsOf, Plain;
    CutsCover(body);
    if Plain(body) { CutsAreGood(body); }
  }

  lemma NoHunks(h: Header, body: seq<Line>)
    ensures Hunks(h, body, []) == []
  {
  }

  class View {
    var line: seq<Line>

    constructor (line: seq<Line>)
      ensures this.line == line
    {
      this.line := line;
    }

    method AddLineAt(pos: nat, text: string, kind: Kind)
      requires pos <= |line|
      modifies this
      ensures line == old(line[..pos] + [Line(kind, text)] + line[pos..])
    {
      line := line[..pos] + [Line(kind, text)] + line[pos..];
    }

    /** `stage_insert_chunk` with no next chunk: only the header line is rewritten. */
    method RewriteHeader(header: Header, from: nat)
      requires from < |line| && line[from].kind.DiffChunk?
      modifies this
      ensures line == old(line)[from := Line(DiffChunk, Format(header))]
    {
      line := line[from := line[from].(text := Format(header))];
    }

    /** `stage_insert_chunk`: rewrites the header line, then inserts an empty header line for the
        next chunk and copies the context from `lastUnchanged` on behind it. */
    method InsertChunk(header: Header, from: nat, to: nat, lastUnchanged: nat) returns (next: nat)
      requires from < lastUnchanged <= to <= |line| && line[from].kind.DiffChunk?
      modifies this
      ensures next == to + 1 + (to - lastUnchanged)
      ensures line == Inserted(old(line), header, from, to, lastUnchanged)
      ensures |line| == |old(line)| + 1 + (to - lastUnchanged) && line[to].kind.DiffChunk?
    {
      hide Format;
      var fromLine, afterLine := lastUnchanged, to;
      RewriteHeader(header, from);
      ghost var was := line;
      AddLineAt(afterLine, "", DiffChunk);
      afterLine := afterLine + 1;
      while fromLine < to
        invariant lastUnchanged <= fromLine <= to && afterLine == to + 1 + (fromLine - lastUnchanged)
        invariant line == was[..to] + [Line(DiffChunk, "")] + was[lastUnchanged..fromLine] + was[to..]
      {
        assert line[fromLine] == was[fromLine];
        AddLineAt(afterLine, line[fromLine].text, line[fromLine].kind);
        assert was[lastUnchanged..fromLine + 1] == was[lastUnchanged..fromLine] + [was[fromLine]];
        fromLine := fromLine + 1;
        afterLine := afterLine + 1;
      }
      next := afterLine;
    }

    /** `stage_split_chunk`: the number of splits made, or none if the header cannot be read. */
    method SplitChunk(start: nat) returns (chunks: nat)
      requires start < |line| && line[start].kind.DiffChunk? && HasDash(line[start].text)
      modifies this
      ensures Parse(old(line)[start].text).None? ==> chunks == 0 && line == old(line)
      ensures Parse(old(line)[start].text).Some? ==>
        var t := TargetAt(old(line), start);
        var cuts := CutsOf(t.body);
        && Covering(t.body, cuts) && (Plain(t.body) ==> GoodCuts(t.body, cuts))
        && chunks + 1 == |cuts| && line == SplitLines(t, cuts)
    {
      hide Parse, HasDash, CountLine, Wrap, Format, EndsBody, At, Inserted, Advanced, TargetAt, SplitLines;
      hide Covering, GoodCuts, Plain, InBody, CutsOf, ScanLine, Target.Ends;
      chunks := 0;
      var parsed, header := ParseChunkHeader(line[start].text);
      if !parsed { return; }
      ghost var t, s := TargetAt(line, start), START;
      StartAt(line, start);

      header := Header(Side(header.oldSide.position, 0), Side(header.newSide.position, 0));
      var chunkStart: nat := start;
      var pos: nat := start + 1;
      var lastChanged, lastUnchanged := -1, -1;
      while pos < |line| && !EndsBody(line[pos])
        invariant chunkStart < pos <= |line| && line[chunkStart].kind.DiffChunk?
        invariant lastChanged == -1 || chunkStart < lastChanged < pos
        invariant lastUnchanged == -1 || chunkStart < lastUnchanged < pos
        invariant At(t, s, line, chunkStart, pos, header, lastChanged, lastUnchanged) && chunks == |s.cuts|
        decreases |line| - pos
      {
        LineAt(t, s, line, chunkStart, pos, header, lastChanged, lastUnchanged);
        var c := First(line[pos]);
        if c == ' ' {
          StepOn(t, s, line, chunkStart, pos, header, lastChanged, lastUnchanged);
          header := CountLine(header, ' ');
          if lastUnchanged < lastChanged { lastUnchanged := pos; }
        } else {
          if lastChanged != -1 && lastChanged < lastUnchanged {
            StepSplit(t, s, line, chunkStart, pos, header, lastChanged, lastUnchanged);
            var nextStart, diff := pos, pos - lastUnchanged;
            pos := InsertChunk(header, chunkStart, pos, lastUnchanged);
            header := Advanced(header, diff);
            chunkStart := nextStart;
            lastChanged, lastUnchanged := -1, -1;
            chunks := chunks + 1;
          } else {
            StepOn(t, s, line, chunkStart, pos, header, lastChanged, lastUnchanged);
          }
          header := CountLine(header, c);
          if c == '-' || c == '+' { lastChanged := pos; }
        }
        pos := pos + 1;
        s := ScanLine(t.body, s);
      }
      FinishAt(t, s, line, chunkStart, pos, header, lastChanged, lastUnchanged);
      CutWell(t.body);
      if chunks > 0 {
        RewriteHeader(header, chunkStart);
      }
    }
  }

  // ----- one piece per run -----

  /** Between n and m only line k starts a run. */
  lemma {:induction false} OneMoreRun(body: seq<Line>, n: nat, k: nat, m: nat)
    requires n <= k < m <= |body| && StartsRun(body, k)
    requires forall i :: n <= i < m && StartsRun(body, i) ==> i == k
    ensures RunsIn(body, m) == RunsIn(body, n) + 1
  {
    if m - 1 > k {
      OneMoreRun(body, n, k, m - 1);
    } else {
      NoMoreRuns(body, n, k);
    }
  }

  lemma {:induction false} NoMoreRuns(body: seq<Line>, n: nat, m: nat)
    requires n <= m <= |body| && forall i :: n <= i < m ==> !StartsRun(body, i)
    ensures RunsIn(body, m) == RunsIn(body, n)
  {
    if m > n { NoMoreRuns(body, n, m - 1); }
  }

  /** The lines of a piece behind the shared context hold one run start. */
  lemma PieceStartsOneRun(body: seq<Line>, from: nat, n: nat, to: nat)
    requires from <= n <= to <= |body| && OneRun(body[from..to])
    requires forall k :: from <= k < n ==> IsContext(body[k])
    requires n == from ==> from == 0
    requires n > from ==> n < to && !IsContext(body[n])
    ensures RunsIn(body, to) == RunsIn(body, n) + 1
  {
    var piece := body[from..to];
    var a: nat, b: nat :| RunAt(piece, a, b);
    assert |piece| == to - from;
    assert forall k :: from <= k < to ==> body[k] == piece[k - from];
    assert !IsContext(piece[a]);
    assert StartsRun(body, from + a);
    OneMoreRun(body, n, from + a, to);
  }

  lemma {:induction false} RunsUpTo(body: seq<Line>, cuts: seq<Cut>, j: nat)
    requires GoodCuts(body, cuts) && j < |cuts|
    requires forall i :: 0 <= i < |cuts| ==> OneRun(body[cuts[i].from..cuts[i].to])
    ensures RunsIn(body, cuts[j].to) == j + 1
  {
    if j == 0 {
      PieceStartsOneRun(body, 0, 0, cuts[0].to);
    } else {
      RunsUpTo(body, cuts, j - 1);
      assert Overlap(body, cuts[j - 1], cuts[j - 1 + 1]);
      PieceStartsOneRun(body, cuts[j].from, cuts[j - 1].to, cuts[j].to);
    }
  }

  /** One hunk for every maximal run of changes. */
  lemma OnePiecePerRun(body: seq<Line>, cuts: seq<Cut>)
    requires GoodCuts(body, cuts)
    ensures |cuts| == if Runs(body) == 0 then 1 else Runs(body)
  {
    if |cuts| == 1 && !OneRun(body) {
      NoMoreRuns(body, 0, |body|);
    } else {
      if |cuts| == 1 { assert body[cuts[0].from..cuts[0].to] == body; }
      RunsUpTo(body, cuts, |cuts| - 1);
    }
  }

  // ----- the headers -----

  lemma PiecesFit(h: Header, body: seq<Line>, cut: Cut)
    requires Room(h, body) && cut.from <= cut.to <= |body|
    ensures Fits(PieceHeader(h, body, cut)) && Wrapped(PieceHeader(h, body, cut)) == PieceHeader(h, body, cut)
  {
    hide OldLines, NewLines;
    LinesBound(body[..cut.from]);
    LinesBound(body[cut.from..cut.to]);
  }

  /** Every header of the split is read back as positions and counts that are exact: the counts are
      those of its piece, and the positions lie as far behind those of the whole hunk as lines of
      that side precede the piece. */
  lemma HeaderExact(h: Header, body: seq<Line>, cut: Cut)
    requires Room(h, body) && cut.from <= cut.to <= |body|
    ensures var hunk := Hunk(h, body, cut);
      var piece := hunk[1..];
      && Parse(hunk[0].text).Some?
      && var read := Parse(hunk[0].text).value;
         && read.oldSide.lines == |OldSide(Texts(piece))| && read.newSide.lines == |NewSide(Texts(piece))|
         && read.oldSide.position - h.oldSide.position == |OldSide(Texts(body[..cut.from]))|
         && read.newSide.position - h.newSide.position == |NewSide(Texts(body[..cut.from]))|
  {
    hide Parse, Format, OldSide, NewSide, Texts, Wrapped, Fits;
    PiecesFit(h, body, cut);
    var text := Format(PieceHeader(h, body, cut));
    HeaderRoundTrip(PieceHeader(h, body, cut), "");
    assert text + "" == text;
    assert Hunk(h, body, cut)[1..] == body[cut.from..cut.to];
  }

  /** Each of the new hunks applies on its own to the file the whole hunk was made for. */
  lemma PieceApplies(h: Header, body: seq<Line>, cut: Cut, before: seq<string>, after: seq<string>)
    requires Plain(body) && cut.from <= cut.to <= |body|
    requires |before| + 1 == h.oldSide.position && OldLines(body[cut.from..cut.to]) > 0
    ensures var piece := body[cut.from..cut.to];
      var kept := before + OldSide(Texts(body[..cut.from]));
      var rest := OldSide(Texts(body[cut.to..])) + after;
      && before + OldSide(Texts(body)) + after == kept + OldSide(Texts(piece)) + rest
      && Apply(PieceHeader(h, body, cut), Texts(piece), kept + OldSide(Texts(piece)) + rest) ==
        Some(kept + NewSide(Texts(piece)) + rest)
  {
    hide Apply, OldSide, NewSide, Texts, Plain, IsDiff, First;
    var piece := body[cut.from..cut.to];
    PlainIsDiff(body, cut.from, cut.to);
    OldSideConcat(body[..cut.from], piece, body[cut.to..]);
    assert body == body[..cut.from] + piece + body[cut.to..];
    var kept := before + OldSide(Texts(body[..cut.from]));
    var rest := OldSide(Texts(body[cut.to..])) + after;
    AppliesInPlace(PieceHeader(h, body, cut), Texts(piece), kept, rest);
  }

  /** And in a staged view each of them is undone on its own in the file that has the whole hunk. */
  lemma PieceUnapplies(h: Header, body: seq<Line>, cut: Cut, before: seq<string>, after: seq<string>)
    requires Plain(body) && cut.from <= cut.to <= |body|
    requires |before| + 1 == h.newSide.position && NewLines(body[cut.from..cut.to]) > 0
    ensures var piece := body[cut.from..cut.to];
      var kept := before + NewSide(Texts(body[..cut.from]));
      var rest := NewSide(Texts(body[cut.to..])) + after;
      && before + NewSide(Texts(body)) + after == kept + NewSide(Texts(piece)) + rest
      && ApplyReversed(PieceHeader(h, body, cut), Texts(piece), kept + NewSide(Texts(piece)) + rest) ==
           Some(kept + OldSide(Texts(piece)) + rest)
  {
    hide Apply, ApplyReversed, OldSide, NewSide, Texts, Plain, IsDiff, First;
    var piece := body[cut.from..cut.to];
    PlainIsDiff(body, cut.from, cut.to);
    NewSideConcat(body[..cut.from], piece, body[cut.to..]);
    assert body == body[..cut.from] + piece + body[cut.to..];
    var kept := before + NewSide(Texts(body[..cut.from]));
    var rest := NewSide(Texts(body[cut.to..])) + after;
    AppliesReversedInPlace(PieceHeader(h, body, cut), Texts(piece), kept, rest);
  }

  lemma PlainIsDiff(body: seq<Line>, from: nat, to: nat)
    requires Plain(body) && from <= to <= |body|
    ensures IsDiff(Texts(body[from..to]))
  {
    assert forall k :: from <= k < to ==> |body[k].text| > 0;
  }

  lemma OldSideConcat(a: seq<Line>, b: seq<Line>, c: seq<Line>)
    ensures OldSide(Texts(a + b + c)) == OldSide(Texts(a)) + OldSide(Texts(b)) + OldSide(Texts(c))
  {
    assert Texts(a + b + c) == Texts(a) + Texts(b) + Texts(c);
    SidesConcat(Texts(a) + Texts(b), Texts(c));
    SidesConcat(Texts(a), Texts(b));
  }

  lemma NewSideConcat(a: seq<Line>, b: seq<Line>, c: seq<Line>)
    ensures NewSide(Texts(a + b + c)) == NewSide(Texts(a)) + NewSide(Texts(b)) + NewSide(Texts(c))
  {
    assert Texts(a + b + c) == Texts(a) + Texts(b) + Texts(c);
    SidesConcat(Texts(a) + Texts(b), Texts(c));
    SidesConcat(Texts(a), Texts(b));
  }

  // ----- undoing the split -----

  lemma {:induction false} RejoinContext(context: seq<Line>, rest: seq<Line>)
    requires forall k :: 0 <= k < |context| ==> IsContext(context[k])
    ensures Rejoin(context + rest, true) == Rejoin(rest, true)
  {
    if context == [] {
      assert context + rest == rest;
    } else {
      assert (context + rest)[0] == context[0] && (context + rest)[1..] == context[1..] + rest;
      RejoinContext(context[1..], rest);
    }
  }

  lemma {:induction false} RejoinBody(body: seq<Line>, rest: seq<Line>)
    requires forall k :: 0 <= k < |body| ==> !EndsBody(body[k])
    ensures Rejoin(body + rest, false) == body + Rejoin(rest, false)
  {
    if body == [] {
      assert body + rest == rest;
    } else {
      assert (body + rest)[0] == body[0] && (body + rest)[1..] == body[1..] + rest;
      RejoinBody(body[1..], rest);
    }
  }

  /** A hunk behind others: its header and the shared context go, the rest stays. */
  lemma RejoinHunk(h: Header, body: seq<Line>, cut: Cut, n: nat, rest: seq<Line>)
    requires cut.from < n < cut.to <= |body| && !IsContext(body[n])
    requires forall k :: cut.from <= k < n ==> IsContext(body[k])
    requires forall k :: 0 <= k < |body| ==> !EndsBody(body[k])
    ensures Rejoin(Hunk(h, body, cut) + rest, false) == body[n..cut.to] + Rejoin(rest, false)
  {
    hide PieceHeader, Rejoin;
    var context, tail := body[cut.from..n], body[n..cut.to];
    var all := Hunk(h, body, cut) + rest;
    assert body[cut.from..cut.to] == context + tail;
    assert all[1..] == context + (tail + rest);
    RejoinHeader(all);
    RejoinContext(context, tail + rest);
    RejoinChange(tail + rest);
    RejoinBody(tail, rest);
  }

  lemma RejoinHeader(lines: seq<Line>)
    requires lines != [] && First(lines[0]) == '@'
    ensures Rejoin(lines, false) == Rejoin(lines[1..], true)
  {
  }

  lemma RejoinChange(lines: seq<Line>)
    requires lines != [] && !IsContext(lines[0])
    ensures Rejoin(lines, true) == Rejoin(lines, false)
  {
  }

  lemma HunksSnoc(h: Header, body: seq<Line>, cuts: seq<Cut>, n: nat)
    requires InBody(body, cuts) && 0 < n <= |cuts|
    ensures Hunks(h, body, cuts[..n]) == Hunks(h, body, cuts[..n - 1]) + Hunk(h, body, cuts[n - 1])
  {
    hide Hunk;
    assert cuts[..n][..n - 1] == cuts[..n - 1];
  }

  lemma FirstPiece(h: Header, body: seq<Line>, cut: Cut)
    requires cut.from == 0 <= cut.to <= |body|
    ensures Hunk(h, body, cut) != [] && Hunk(h, body, cut)[1..] == body[..cut.to]
  {
    hide Format, PieceHeader;
  }

  lemma BehindHeader(front: seq<Line>, last: seq<Line>, rest: seq<Line>)
    requires front != []
    ensures (front + last)[1..] + rest == front[1..] + (last + rest)
  {
  }

  lemma {:induction false} RejoinUpTo(h: Header, body: seq<Line>, cuts: seq<Cut>, n: nat, rest: seq<Line>)
    requires Covering(body, cuts) && 0 < n <= |cuts|
    requires forall k :: 0 <= k < |body| ==> !EndsBody(body[k])
    ensures Hunks(h, body, cuts[..n]) != []
    ensures Rejoin(Hunks(h, body, cuts[..n])[1..] + rest, false) == body[..cuts[n - 1].to] + Rejoin(rest, false)
    decreases n
  {
    hide Hunks, Hunk, Rejoin, EndsBody, IsContext;
    HunksSnoc(h, body, cuts, n);
    var last, to := Hunk(h, body, cuts[n - 1]), cuts[n - 1].to;
    if n == 1 {
      assert cuts[..0] == [];
      NoHunks(h, body);
      FirstPiece(h, body, cuts[0]);
      assert [] + last == last;
      RejoinBody(body[..to], rest);
    } else {
      var from := cuts[n - 2].to;
      assert Overlap(body, cuts[n - 2], cuts[n - 2 + 1]);
      RejoinUpTo(h, body, cuts, n - 1, last + rest);
      BehindHeader(Hunks(h, body, cuts[..n - 1]), last, rest);
      RejoinHunk(h, body, cuts[n - 1], from, rest);
      Associates(body[..from], body[from..to], Rejoin(rest, false));
      assert body[..to] == body[..from] + body[from..to];
    }
  }

  /** Taking out the inner headers and the repeated context gives the original body back. */
  lemma RejoinRestores(h: Header, body: seq<Line>, cuts: seq<Cut>)
    requires Covering(body, cuts) && forall k :: 0 <= k < |body| ==> !EndsBody(body[k])
    ensures Hunks(h, body, cuts) != []
    ensures Rejoin(Hunks(h, body, cuts)[1..], false) == body
  {
    hide Hunks, OneRun, Overlap, EndsBody, IsContext, InBody;
    RejoinUpTo(h, body, cuts, |cuts|, []);
    assert cuts[..|cuts|] == cuts;
    assert Hunks(h, body, cuts)[1..] + [] == Hunks(h, body, cuts)[1..];
    assert body[..cuts[|cuts| - 1].to] + [] == body;
  }
}
