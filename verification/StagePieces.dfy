/** Applying all the hunks that `stage_split_chunk` (src/stage.c:357-416) has made, one after another. */
module StagePieces {
  import opened Common
  import opened ChunkHeader
  import opened StageApply
  import opened StageSplit

  /** The side a patch starts from: the old one, or the new one when it is undone. */
  function From(undo: bool, lines: seq<Line>): seq<string>
  {
    if undo then NewSide(Texts(lines)) else OldSide(Texts(lines))
  }

  function To(undo: bool, lines: seq<Line>): seq<string>
  {
    From(!undo, lines)
  }

  function FromSide(undo: bool, h: Header): Side
  {
    if undo then h.newSide else h.oldSide
  }

  function Patch(undo: bool, h: Header, lines: seq<Line>, file: seq<string>): Option<seq<string>>
  {
    if undo then ApplyReversed(h, Texts(lines), file) else Apply(h, Texts(lines), file)
  }

  lemma FromConcat(undo: bool, a: seq<Line>, b: seq<Line>)
    ensures From(undo, a + b) == From(undo, a) + From(undo, b)
  {
    hide OldSide, NewSide;
    assert Texts(a + b) == Texts(a) + Texts(b);
    SidesConcat(Texts(a), Texts(b));
  }

  lemma FromContext(line: Line)
    requires IsContext(line)
    ensures From(true, [line]) == From(false, [line]) == [line.text[1..]]
  {
    var d := line.text;
    assert Texts([line]) == [d];
    assert OldSide([d]) == OldOf(d) + OldSide([d][1..]) && NewSide([d]) == NewOf(d) + NewSide([d][1..]);
  }

  lemma {:induction false} ContextSame(lines: seq<Line>)
    requires forall k :: 0 <= k < |lines| ==> IsContext(lines[k])
    ensures From(true, lines) == From(false, lines)
  {
    hide From, IsContext;
    if lines == [] {
      NothingFrom();
    } else {
      var n := |lines| - 1;
      assert lines == lines[..n] + [lines[n]];
      ContextSame(lines[..n]);
      FromConcat(true, lines[..n], [lines[n]]);
      FromConcat(false, lines[..n], [lines[n]]);
      FromContext(lines[n]);
    }
  }

  lemma NothingFrom()
    ensures From(true, []) == From(false, []) == []
  {
  }

  /** Through shared context it makes no difference where a changed part begins. */
  lemma ThroughContext(undo: bool, body: seq<Line>, p: nat, q: nat)
    requires p <= q <= |body| && forall k :: p <= k < q ==> IsContext(body[k])
    ensures From(undo, body[..q]) + To(undo, body[q..]) == From(undo, body[..p]) + To(undo, body[p..])
  {
    hide From, IsContext;
    var context := body[p..q];
    assert body[..q] == body[..p] + context && body[p..] == context + body[q..];
    assert forall k :: 0 <= k < |context| ==> context[k] == body[p + k];
    FromConcat(undo, body[..p], context);
    FromConcat(!undo, context, body[q..]);
    ContextSame(context);
    Associates(From(undo, body[..p]), From(undo, context), To(undo, body[q..]));
  }

  lemma PatchInPlace(undo: bool, h: Header, lines: seq<Line>, kept: seq<string>, rest: seq<string>)
    requires IsDiff(Texts(lines)) && OldLines(lines) == h.oldSide.lines && NewLines(lines) == h.newSide.lines
    requires From(undo, lines) != [] && |kept| + 1 == FromSide(undo, h).position
    ensures Patch(undo, h, lines, kept + From(undo, lines) + rest) == Some(kept + To(undo, lines) + rest)
  {
    hide Apply, ApplyReversed, OldSide, NewSide, Texts, IsDiff;
    if undo {
      AppliesReversedInPlace(h, Texts(lines), kept, rest);
    } else {
      AppliesInPlace(h, Texts(lines), kept, rest);
    }
  }

  /** Of several pieces each holds a context line. */
  lemma PieceHasContext(body: seq<Line>, cuts: seq<Cut>, j: nat) returns (k: nat)
    requires Covering(body, cuts) && |cuts| > 1 && j < |cuts|
    ensures cuts[j].from <= k < cuts[j].to <= |body| && IsContext(body[k])
  {
    hide IsContext;
    if j + 1 < |cuts| {
      assert Overlap(body, cuts[j], cuts[j + 1]);
      k := cuts[j + 1].from;
    } else {
      assert Overlap(body, cuts[j - 1], cuts[j - 1 + 1]);
      k := cuts[j].from;
    }
  }

  lemma PieceNonempty(undo: bool, body: seq<Line>, cuts: seq<Cut>, j: nat)
    requires Covering(body, cuts) && |cuts| > 1 && j < |cuts|
    ensures cuts[j].from <= cuts[j].to <= |body| && From(undo, body[cuts[j].from..cuts[j].to]) != []
  {
    hide From, IsContext, Covering;
    var k := PieceHasContext(body, cuts, j);
    var piece := body[cuts[j].from..cuts[j].to];
    var i := k - cuts[j].from;
    assert piece[i] == body[k];
    assert piece == piece[..i] + [piece[i]] + piece[i + 1..];
    FromConcat(undo, piece[..i] + [piece[i]], piece[i + 1..]);
    FromConcat(undo, piece[..i], [piece[i]]);
    FromContext(piece[i]);
  }

  /** The pieces n - 1 down to 0, with the headers they have. */
  function Backward(undo: bool, h: Header, body: seq<Line>, cuts: seq<Cut>, n: nat,
    file: seq<string>): Option<seq<string>>
    requires InBody(body, cuts) && n <= |cuts|
  {
    if n == 0 then Some(file)
    else
      var cut := cuts[n - 1];
      var r := Patch(undo, PieceHeader(h, body, cut), body[cut.from..cut.to], file);
      if r.None? then None else Backward(undo, h, body, cuts, n - 1, r.value)
  }

  /** The pieces 0 up to n - 1, each at the place that the pieces in front of it have moved it to. */
  function Forward(undo: bool, h: Header, body: seq<Line>, cuts: seq<Cut>, n: nat,
    file: seq<string>): Option<seq<string>>
    requires InBody(body, cuts) && n <= |cuts|
  {
    if n == 0 then Some(file)
    else
      var cut := cuts[n - 1];
      var r := Forward(undo, h, body, cuts, n - 1, file);
      if r.None? then None else Patch(undo, Moved(undo, h, body, cut), body[cut.from..cut.to], r.value)
  }

  function Moved(undo: bool, h: Header, body: seq<Line>, cut: Cut): Header
    requires cut.from <= cut.to <= |body|
  {
    var p := PieceHeader(h, body, cut);
    var position := FromSide(undo, h).position + |To(undo, body[..cut.from])|;
    if undo then p.(newSide := p.newSide.(position := position)) else p.(oldSide := p.oldSide.(position := position))
  }

  /** Where piece n starts to be new: behind piece n - 1. */
  function EndOf(cuts: seq<Cut>, n: nat): nat
    requires n <= |cuts|
  {
    if n == 0 then 0 else cuts[n - 1].to
  }

  /** The context shared by piece n and the one in front of it. */
  lemma SharedContext(undo: bool, body: seq<Line>, cuts: seq<Cut>, n: nat)
    requires Covering(body, cuts) && n < |cuts|
    ensures cuts[n].from <= EndOf(cuts, n) <= cuts[n].to <= |body|
    ensures var e, from := EndOf(cuts, n), cuts[n].from;
      From(undo, body[..e]) + To(undo, body[e..]) == From(undo, body[..from]) + To(undo, body[from..])
  {
    hide From;
    if n > 0 {
      assert Overlap(body, cuts[n - 1], cuts[n - 1 + 1]);
      ThroughContext(undo, body, cuts[n].from, cuts[n - 1].to);
    }
  }

  /** One piece, with the other side of the body behind it or in front of it. */
  lemma PieceInPlace(undo: bool, h: Header, body: seq<Line>, cuts: seq<Cut>, j: nat, kept: seq<string>,
    rest: seq<string>)
    requires Plain(body) && Covering(body, cuts) && |cuts| > 1 && j < |cuts|
    requires var cut := cuts[j];
      && cut.from <= cut.to <= |body|
      && h.oldSide.lines == OldLines(body[cut.from..cut.to]) && h.newSide.lines == NewLines(body[cut.from..cut.to])
      && |kept| + 1 == FromSide(undo, h).position
    ensures var piece := body[cuts[j].from..cuts[j].to];
      Patch(undo, h, piece, kept + From(undo, piece) + rest) == Some(kept + To(undo, piece) + rest)
  {
    hide From, Patch, Covering, Plain, IsDiff, OldLines, NewLines, FromSide;
    PlainIsDiff(body, cuts[j].from, cuts[j].to);
    PieceNonempty(undo, body, cuts, j);
    PatchInPlace(undo, h, body[cuts[j].from..cuts[j].to], kept, rest);
  }

  lemma Regroup(before: seq<string>, a: seq<string>, p: seq<string>, c: seq<string>, after: seq<string>)
    ensures before + (a + (p + c)) + after == before + a + p + (c + after)
  {
    Associates(a, p, c);
    Associates(before, a, p);
    Associates(before, a + p, c);
    Associates(before + a + p, c, after);
  }

  /** The file with the body on one side up to the cut, and on the other from there on. */
  lemma AroundPiece(undo: bool, body: seq<Line>, cut: Cut, before: seq<string>, after: seq<string>)
    requires cut.from <= cut.to <= |body|
    ensures var piece := body[cut.from..cut.to];
      var kept, rest := before + From(undo, body[..cut.from]), To(undo, body[cut.to..]) + after;
      && before + (From(undo, body[..cut.to]) + To(undo, body[cut.to..])) + after == kept + From(undo, piece) + rest
      && before + (From(undo, body[..cut.from]) + To(undo, body[cut.from..])) + after == kept + To(undo, piece) + rest
  {
    hide From;
    var piece, a, c := body[cut.from..cut.to], From(undo, body[..cut.from]), To(undo, body[cut.to..]);
    assert body[..cut.to] == body[..cut.from] + piece && body[cut.from..] == piece + body[cut.to..];
    FromConcat(undo, body[..cut.from], piece);
    FromConcat(!undo, piece, body[cut.to..]);
    Regroup(before, a, From(undo, piece), c, after);
    Regroup(before, a, To(undo, piece), c, after);
    Associates(a, From(undo, piece), c);
  }

  lemma FromPosition(undo: bool, h: Header, body: seq<Line>, cut: Cut)
    requires cut.from <= cut.to <= |body|
    ensures FromSide(undo, PieceHeader(h, body, cut)).position == FromSide(undo, h).position +
      |From(undo, body[..cut.from])|
    ensures FromSide(undo, Moved(undo, h, body, cut)).position == FromSide(undo, h).position +
      |To(undo, body[..cut.from])|
    ensures Moved(undo, h, body, cut).oldSide.lines == PieceHeader(h, body, cut).oldSide.lines ==
      OldLines(body[cut.from..cut.to])
    ensures Moved(undo, h, body, cut).newSide.lines == PieceHeader(h, body, cut).newSide.lines ==
      NewLines(body[cut.from..cut.to])
  {
    hide OldSide, NewSide;
  }

  lemma NothingBefore(undo: bool, body: seq<Line>)
    ensures From(undo, body[..0]) + To(undo, body[0..]) == To(undo, body)
  {
    hide From;
    assert body[0..] == body && body[..0] == [];
    NothingFrom();
  }

  lemma {:induction false} BackwardTo(undo: bool, h: Header, body: seq<Line>, cuts: seq<Cut>, n: nat,
    before: seq<string>,
      after: seq<string>)
    requires Plain(body) && Covering(body, cuts) && |cuts| > 1 && n <= |cuts| &&
      |before| + 1 == FromSide(undo, h).position
    ensures var e := EndOf(cuts, n);
      && e <= |body|
      && Backward(undo, h, body, cuts, n, before + (From(undo, body[..e]) + To(undo, body[e..])) + after) ==
           Some(before + To(undo, body) + after)
    decreases n
  {
    hide From, Patch, Covering, Plain, Moved, PieceHeader, OldLines, NewLines, FromSide;
    if n == 0 {
      NothingBefore(undo, body);
    } else {
      var cut := cuts[n - 1];
      SharedContext(undo, body, cuts, n - 1);
      AroundPiece(undo, body, cut, before, after);
      FromPosition(undo, h, body, cut);
      PieceInPlace(undo, PieceHeader(h, body, cut), body, cuts, n - 1, before + From(undo, body[..cut.from]),
        To(undo, body[cut.to..]) + after);
      BackwardTo(undo, h, body, cuts, n - 1, before, after);
    }
  }

  lemma {:induction false} ForwardTo(undo: bool, h: Header, body: seq<Line>, cuts: seq<Cut>, n: nat,
    before: seq<string>,
      after: seq<string>)
    requires Plain(body) && Covering(body, cuts) && |cuts| > 1 && n <= |cuts| &&
      |before| + 1 == FromSide(undo, h).position
    ensures var e := EndOf(cuts, n);
      && e <= |body|
      && Forward(undo, h, body, cuts, n, before + From(undo, body) + after) ==
           Some(before + (To(undo, body[..e]) + From(undo, body[e..])) + after)
    decreases n
  {
    hide From, Patch, Covering, Plain, Moved, PieceHeader, OldLines, NewLines, FromSide;
    if n == 0 {
      NothingBefore(!undo, body);
    } else {
      var cut := cuts[n - 1];
      SharedContext(!undo, body, cuts, n - 1);
      AroundPiece(!undo, body, cut, before, after);
      FromPosition(undo, h, body, cut);
      PieceInPlace(undo, Moved(undo, h, body, cut), body, cuts, n - 1, before + To(undo, body[..cut.from]),
        From(undo, body[cut.to..]) + after);
      ForwardTo(undo, h, body, cuts, n - 1, before, after);
    }
  }

  lemma WholeCut(undo: bool, body: seq<Line>)
    ensures From(undo, body[..|body|]) + To(undo, body[|body|..]) == From(undo, body)
  {
    hide From;
    assert body[..|body|] == body && body[|body|..] == [];
    NothingFrom();
  }

  /** If a split makes several hunks, each of them applies to the file the whole hunk was made for and
      changes its part only. */
  lemma EachApplies(undo: bool, h: Header, body: seq<Line>, j: nat, before: seq<string>, after: seq<string>)
    requires Plain(body) && 1 < |CutsOf(body)| && j < |CutsOf(body)| && |before| + 1 == FromSide(undo, h).position
    ensures Covering(body, CutsOf(body))
    ensures var cut := CutsOf(body)[j];
      Patch(undo, PieceHeader(h, body, cut), body[cut.from..cut.to], before + From(undo, body) + after) ==
        Some(before + From(undo, body[..cut.from]) + To(undo, body[cut.from..cut.to]) +
          (From(undo, body[cut.to..]) + after))
  {
    hide From, Patch, Plain, CutsOf, Covering, PieceHeader, OldLines, NewLines, FromSide;
    var cuts := CutsOf(body);
    CutsCover(body);
    SharedContext(undo, body, cuts, j);
    var cut := cuts[j];
    var piece := body[cut.from..cut.to];
    assert body == body[..cut.from] + (piece + body[cut.to..]);
    FromConcat(undo, body[..cut.from], piece + body[cut.to..]);
    FromConcat(undo, piece, body[cut.to..]);
    Regroup(before, From(undo, body[..cut.from]), From(undo, piece), From(undo, body[cut.to..]), after);
    FromPosition(undo, h, body, cut);
    PieceInPlace(undo, PieceHeader(h, body, cut), body, cuts, j, before + From(undo, body[..cut.from]),
      From(undo, body[cut.to..]) + after);
  }

  /** Applied one after another, all of them together make the whole change: from the last to the first at
      the positions in their headers, and from the first to the last where the ones in front have moved them. */
  lemma AllApply(undo: bool, h: Header, body: seq<Line>, before: seq<string>, after: seq<string>)
    requires Plain(body) && |CutsOf(body)| > 1 && |before| + 1 == FromSide(undo, h).position
    ensures Covering(body, CutsOf(body))
    ensures var cuts, file := CutsOf(body), before + From(undo, body) + after;
      && Backward(undo, h, body, cuts, |cuts|, file) == Some(before + To(undo, body) + after)
      && Forward(undo, h, body, cuts, |cuts|, file) == Some(before + To(undo, body) + after)
  {
    hide From, Backward, Forward, Plain, CutsOf;
    var cuts := CutsOf(body);
    CutsCover(body);
    BackwardTo(undo, h, body, cuts, |cuts|, before, after);
    ForwardTo(undo, h, body, cuts, |cuts|, before, after);
    WholeCut(undo, body);
    WholeCut(!undo, body);
  }

  /** Going forward, a piece stands where its header says exactly if the lines in front of it are as many on
      both sides. */
  lemma MovedExactly(undo: bool, h: Header, body: seq<Line>, cut: Cut)
    requires cut.from <= cut.to <= |body|
    ensures Moved(undo, h, body, cut) == PieceHeader(h, body, cut) <==>
      OldLines(body[..cut.from]) == NewLines(body[..cut.from])
  {
    hide OldSide, NewSide;
  }
}
