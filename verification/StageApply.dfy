/** Staging or unstaging part of a hunk: `stage_diff_write`, `stage_diff_range_write`,
    `stage_apply_line` and `stage_apply_part` of src/stage.c:58-191. */
module StageApply {
  import opened Common
  import opened ChunkHeader
  import opened PatchReader

  /** `SIZEOF_STR`: `io_printf` formats into a buffer of this size. */
  const SIZEOF_STR := 1024

  /** `line->type`, as far as these functions tell types apart. */
  datatype Kind = DiffHeader | DiffChunk | DiffAdd | DiffDel | DiffNoNewline | Other

  datatype Line = Line(kind: Kind, text: string)

  // ----- unified diffs -----

  predicate IsDiffLine(d: string)
  {
    |d| > 0 && (d[0] == ' ' || d[0] == '+' || d[0] == '-')
  }

  predicate IsDiff(ds: seq<string>)
  {
    forall i :: 0 <= i < |ds| ==> IsDiffLine(ds[i])
  }

  /** The lines of the old file that one diff line stands for: one or none. */
  function OldOf(d: string): seq<string>
  {
    if |d| > 0 && (d[0] == ' ' || d[0] == '-') then [d[1..]] else []
  }

  function NewOf(d: string): seq<string>
  {
    if |d| > 0 && (d[0] == ' ' || d[0] == '+') then [d[1..]] else []
  }

  function OldSide(ds: seq<string>): seq<string>
  {
    if ds == [] then [] else OldOf(ds[0]) + OldSide(ds[1..])
  }

  function NewSide(ds: seq<string>): seq<string>
  {
    if ds == [] then [] else NewOf(ds[0]) + NewSide(ds[1..])
  }

  lemma SidesPush(d: string, ds: seq<string>)
    ensures OldSide([d] + ds) == OldOf(d) + OldSide(ds)
    ensures NewSide([d] + ds) == NewOf(d) + NewSide(ds)
  {
    hide OldOf, NewOf;
    assert ([d] + ds)[1..] == ds;
  }

  lemma SidesOfNone()
    ensures OldSide([]) == [] && NewSide([]) == []
  {
  }

  lemma {:induction false} SidesConcat(a: seq<string>, b: seq<string>)
    ensures OldSide(a + b) == OldSide(a) + OldSide(b)
    ensures NewSide(a + b) == NewSide(a) + NewSide(b)
  {
    hide OldOf, NewOf, OldSide, NewSide;
    if a == [] {
      assert a + b == b;
      SidesOfNone();
    } else {
      assert a == [a[0]] + a[1..] && a + b == [a[0]] + (a[1..] + b);
      SidesConcat(a[1..], b);
      SidesPush(a[0], a[1..]);
      SidesPush(a[0], a[1..] + b);
    }
  }

  /** What a patch tool makes of `text` when it follows the diff lines from its first line on. */
  function Follow(ds: seq<string>, text: seq<string>): Option<seq<string>>
    requires IsDiff(ds)
  {
    if ds == [] then Some(text)
    else if ds[0][0] == '+' then
      var r := Follow(ds[1..], text);
      if r == None then None else Some([ds[0][1..]] + r.value)
    else if text == [] || text[0] != ds[0][1..] then None
    else
      var r := Follow(ds[1..], text[1..]);
      if r == None || ds[0][0] == '-' then r else Some([text[0]] + r.value)
  }

  /** Following a diff succeeds exactly on texts that begin with its old side, and replaces that
      by its new side. */
  lemma {:induction false} FollowReplaces(ds: seq<string>, text: seq<string>)
    requires IsDiff(ds)
    ensures Follow(ds, text).Some? <==> OldSide(ds) <= text
    ensures Follow(ds, text).Some? ==> Follow(ds, text).value == NewSide(ds) + text[|OldSide(ds)|..]
  {
    hide OldSide, NewSide, Follow;
    SidesStep(ds);
    FollowStep(ds, text);
    if ds == [] {
    } else if ds[0][0] == '+' {
      FollowReplaces(ds[1..], text);
    } else if text != [] && text[0] == ds[0][1..] {
      FollowReplaces(ds[1..], text[1..]);
      PrefixOfTail(OldSide(ds[1..]), text);
    }
  }

  lemma SidesStep(ds: seq<string>)
    requires IsDiff(ds)
    ensures ds == [] ==> OldSide(ds) == [] && NewSide(ds) == []
    ensures ds != [] ==>
      && IsDiff(ds[1..])
      && OldSide(ds) == (if ds[0][0] == '+' then [] else [ds[0][1..]]) + OldSide(ds[1..])
      && NewSide(ds) == (if ds[0][0] == '-' then [] else [ds[0][1..]]) + NewSide(ds[1..])
  {
  }

  lemma FollowStep(ds: seq<string>, text: seq<string>)
    requires IsDiff(ds)
    ensures ds == [] ==> Follow(ds, text) == Some(text)
    ensures ds != [] && ds[0][0] == '+' ==>
      var r := Follow(ds[1..], text);
      Follow(ds, text) == if r == None then None else Some([ds[0][1..]] + r.value)
    ensures ds != [] && ds[0][0] != '+' && (text == [] || text[0] != ds[0][1..]) ==> Follow(ds, text) == None
    ensures ds != [] && ds[0][0] != '+' && text != [] && text[0] == ds[0][1..] ==>
      var r := Follow(ds[1..], text[1..]);
      Follow(ds, text) == if r == None || ds[0][0] == '-' then r else Some([text[0]] + r.value)
  {
  }

  lemma PrefixOfTail(a: seq<string>, text: seq<string>)
    requires text != []
    ensures [text[0]] + a <= text <==> a <= text[1..]
    ensures a <= text[1..] ==> text[1 + |a|..] == text[1..][|a|..]
  {
    assert text == [text[0]] + text[1..];
    if [text[0]] + a <= text {
      assert a == ([text[0]] + a)[1..] == text[..1 + |a|][1..] == text[1..][..|a|];
    }
  }

  function Flip(d: string): string
  {
    if |d| > 0 && d[0] == '+' then "-" + d[1..] else if |d| > 0 && d[0] == '-' then "+" + d[1..] else d
  }

  /** The diff read backwards, as `git apply -R` does. */
  function Reversed(ds: seq<string>): seq<string>
  {
    if ds == [] then [] else [Flip(ds[0])] + Reversed(ds[1..])
  }

  lemma {:induction false} ReversedSides(ds: seq<string>)
    requires IsDiff(ds)
    ensures OldSide(Reversed(ds)) == NewSide(ds) && NewSide(Reversed(ds)) == OldSide(ds)
    ensures IsDiff(Reversed(ds))
  {
    if ds != [] {
      ReversedSides(ds[1..]);
      assert Flip(ds[0])[1..] == ds[0][1..];
      assert Reversed(ds)[0] == Flip(ds[0]) && Reversed(ds)[1..] == Reversed(ds[1..]);
    }
  }

  /** Lines in front of a hunk side.  A side without lines gives the line it stands behind. */
  function Before(side: Side): int
  {
    if side.lines == 0 then side.position else side.position - 1
  }

  /** `git apply` of a one-hunk patch: the counts must be those of the lines that follow the
      header, and the old side must stand at its position. */
  function Apply(h: Header, ds: seq<string>, file: seq<string>): Option<seq<string>>
  {
    if !IsDiff(ds) || |OldSide(ds)| != h.oldSide.lines || |NewSide(ds)| != h.newSide.lines then None
    else
      var at := Before(h.oldSide);
      if at < 0 || at > |file| then None
      else
        var r := Follow(ds, file[at..]);
        if r == None then None else Some(file[..at] + r.value)
  }

  function ApplyReversed(h: Header, ds: seq<string>, file: seq<string>): Option<seq<string>>
  {
    Apply(Header(h.newSide, h.oldSide), Reversed(ds), file)
  }

  lemma AppliesInPlace(h: Header, ds: seq<string>, before: seq<string>, after: seq<string>)
    requires IsDiff(ds)
    requires |OldSide(ds)| == h.oldSide.lines && |NewSide(ds)| == h.newSide.lines && |before| == Before(h.oldSide)
    ensures Apply(h, ds, before + OldSide(ds) + after) == Some(before + NewSide(ds) + after)
  {
    hide OldSide, NewSide, Follow, IsDiff;
    var file := before + OldSide(ds) + after;
    var text := file[|before|..];
    assert text == OldSide(ds) + after && file[..|before|] == before;
    FollowReplaces(ds, text);
    assert text[|OldSide(ds)|..] == after;
    assert before + (NewSide(ds) + after) == before + NewSide(ds) + after;
  }

  lemma AppliesReversedInPlace(h: Header, ds: seq<string>, before: seq<string>, after: seq<string>)
    requires IsDiff(ds)
    requires |OldSide(ds)| == h.oldSide.lines && |NewSide(ds)| == h.newSide.lines && |before| == Before(h.newSide)
    ensures ApplyReversed(h, ds, before + NewSide(ds) + after) == Some(before + OldSide(ds) + after)
  {
    hide OldSide, NewSide, Apply, Reversed;
    ReversedSides(ds);
    AppliesInPlace(Header(h.newSide, h.oldSide), Reversed(ds), before, after);
  }

  // ----- hunks -----

  predicate IsChange(line: Line)
  {
    line.kind.DiffAdd? || line.kind.DiffDel?
  }

  /** A line of an ordinary hunk: its type is told by its first character. */
  predicate IsHunkLine(line: Line)
  {
    && |line.text| > 0
    && match line.kind
       case DiffAdd => line.text[0] == '+'
       case DiffDel => line.text[0] == '-'
       case Other => line.text[0] == ' '
       case _ => false
  }

  predicate IsHunk(body: seq<Line>)
  {
    forall i :: 0 <= i < |body| ==> IsHunkLine(body[i])
  }

  function Texts(lines: seq<Line>): seq<string>
  {
    seq(|lines|, i requires 0 <= i < |lines| => lines[i].text)
  }

  /** Added minus deleted lines. */
  function Net(lines: seq<Line>): int
  {
    if lines == [] then 0 else Net(lines[..|lines| - 1]) + Weight(lines[|lines| - 1])
  }

  function Weight(line: Line): int
  {
    match line.kind
    case DiffAdd => 1
    case DiffDel => -1
    case _ => 0
  }

  /** What a line leaves in the text: an added line only once its change is made, a deleted one
      only until then. */
  function Kept(line: Line, chosen: bool): seq<string>
    requires IsHunkLine(line)
  {
    if (line.kind.DiffAdd? && !chosen) || (line.kind.DiffDel? && chosen) then [] else [line.text[1..]]
  }

  /** The text in which, of all changes in the body, those that `chosen` says are made. */
  function Choice(body: seq<Line>, chosen: seq<bool>): seq<string>
    requires |chosen| == |body| && IsHunk(body)
  {
    if body == [] then []
    else
      var n := |body| - 1;
      Choice(body[..n], chosen[..n]) + Kept(body[n], chosen[n])
  }

  /** The lines first..last of n. */
  function Between(n: nat, first: int, last: int): (chosen: seq<bool>)
    ensures |chosen| == n
  {
    seq(n, i => first <= i <= last)
  }

  /** All lines of n but first..last. */
  function Beyond(n: nat, first: int, last: int): (chosen: seq<bool>)
    ensures |chosen| == n
  {
    seq(n, i => !(first <= i <= last))
  }

  /** No change made is the old side, every change made is the new side. */
  lemma {:induction false} ChoiceEnds(body: seq<Line>)
    requires IsHunk(body)
    ensures Choice(body, seq(|body|, i => false)) == OldSide(Texts(body))
    ensures Choice(body, seq(|body|, i => true)) == NewSide(Texts(body))
  {
    if body != [] {
      var n := |body| - 1;
      ChoiceEnds(body[..n]);
      SidesOfLast(body);
      assert seq(|body|, i => false)[..n] == seq(n, i => false);
      assert seq(|body|, i => true)[..n] == seq(n, i => true);
    }
  }

  lemma SidesOfLast(body: seq<Line>)
    requires body != []
    ensures OldSide(Texts(body)) == OldSide(Texts(body[..|body| - 1])) + OldOf(body[|body| - 1].text)
    ensures NewSide(Texts(body)) == NewSide(Texts(body[..|body| - 1])) + NewOf(body[|body| - 1].text)
  {
    var n := |body| - 1;
    var t := body[n].text;
    assert Texts(body) == Texts(body[..n]) + [t];
    SidesConcat(Texts(body[..n]), [t]);
    assert OldSide([t]) == OldOf(t) + OldSide([]) && NewSide([t]) == NewOf(t) + NewSide([]);
  }

  // ----- what is written -----

  /** What `stage_diff_range_write` prints for one line: one line or none. */
  function Rewrite(staged: bool, chosen: bool, line: Line): seq<string>
    requires IsChange(line) ==> line.text != ""
  {
    if chosen then [line.text]
    else if line.kind == (if staged then DiffAdd else DiffDel) then [" " + line.text[1..]]
    else if line.kind == (if staged then DiffDel else DiffAdd) then []
    else [line.text]
  }

  predicate Printable(lines: seq<Line>)
  {
    forall i :: 0 <= i < |lines| && IsChange(lines[i]) ==> lines[i].text != ""
  }

  function Rewritten(staged: bool, body: seq<Line>, first: int, last: int): seq<string>
    requires Printable(body)
  {
    if body == [] then []
    else
      var n := |body| - 1;
      Rewritten(staged, body[..n], first, last) + Rewrite(staged, first <= n <= last, body[n])
  }

  lemma RewriteSides(staged: bool, chosen: bool, line: Line)
    requires IsHunkLine(line)
    ensures IsDiff(Rewrite(staged, chosen, line))
    ensures OldSide(Rewrite(staged, chosen, line)) == Kept(line, staged && !chosen)
    ensures NewSide(Rewrite(staged, chosen, line)) == Kept(line, staged || chosen)
  {
    var r := Rewrite(staged, chosen, line);
    if r != [] {
      assert r[1..] == [] && r[0][1..] == line.text[1..];
    }
  }

  lemma {:induction false} RewrittenIsDiff(staged: bool, body: seq<Line>, first: int, last: int)
    requires IsHunk(body)
    ensures IsDiff(Rewritten(staged, body, first, last))
  {
    hide Rewrite, IsHunkLine, IsDiffLine;
    if body != [] {
      RewrittenIsDiff(staged, body[..|body| - 1], first, last);
      RewriteSides(staged, first <= |body| - 1 <= last, body[|body| - 1]);
    }
  }

  /** The written lines keep one side of the hunk; the other side has, of the selected lines only,
      the changes made (staging) or undone (unstaging). */
  lemma {:induction false} RewrittenSides(staged: bool, body: seq<Line>, first: int, last: int)
    requires IsHunk(body)
    ensures OldSide(Rewritten(staged, body, first, last)) ==
      if staged then Choice(body, Beyond(|body|, first, last)) else OldSide(Texts(body))
    ensures NewSide(Rewritten(staged, body, first, last)) ==
      if staged then NewSide(Texts(body)) else Choice(body, Between(|body|, first, last))
  {
    if body == [] {
    } else {
      hide *;
      var n := |body| - 1;
      RewrittenOfLast(staged, body, first, last);
      RewrittenSides(staged, body[..n], first, last);
      SidesOfLast(body);
      KeptSides(body[n]);
      ChoiceOfLast(body, first, last);
    }
  }

  lemma RewrittenOfLast(staged: bool, body: seq<Line>, first: int, last: int)
    requires body != [] && IsHunk(body)
    ensures var n := |body| - 1;
      && IsHunk(body[..n]) && IsHunkLine(body[n]) && |body[..n]| == n
      && OldSide(Rewritten(staged, body, first, last)) ==
           OldSide(Rewritten(staged, body[..n], first, last)) + Kept(body[n], staged && !(first <= n <= last))
      && NewSide(Rewritten(staged, body, first, last)) ==
           NewSide(Rewritten(staged, body[..n], first, last)) + Kept(body[n], staged || first <= n <= last)
  {
    var n := |body| - 1;
    SidesConcat(Rewritten(staged, body[..n], first, last), Rewrite(staged, first <= n <= last, body[n]));
    RewriteSides(staged, first <= n <= last, body[n]);
    hide OldSide, NewSide, Rewrite, Kept;
  }

  lemma KeptSides(line: Line)
    requires IsHunkLine(line)
    ensures OldOf(line.text) == Kept(line, false) && NewOf(line.text) == Kept(line, true)
  {
  }

  lemma ChoiceOfLast(body: seq<Line>, first: int, last: int)
    requires body != [] && IsHunk(body)
    ensures var n := |body| - 1;
      && Choice(body, Between(|body|, first, last)) == Choice(body[..n], Between(n, first, last)) +
        Kept(body[n], first <= n <= last)
      && Choice(body, Beyond(|body|, first, last)) == Choice(body[..n], Beyond(n, first, last)) +
        Kept(body[n], !(first <= n <= last))
  {
    hide Kept, IsHunkLine;
    var n := |body| - 1;
    assert Between(|body|, first, last)[..n] == Between(n, first, last);
    assert Beyond(|body|, first, last)[..n] == Beyond(n, first, last);
  }

  lemma KeptBalance(staged: bool, chosen: bool, line: Line)
    requires IsHunkLine(line)
    ensures |Kept(line, staged || chosen)| - |Kept(line, staged && !chosen)| == if chosen then Weight(line) else 0
  {
  }

  /** The lines first..last, as far as there are any. */
  function Selected(lines: seq<Line>, first: nat, last: nat): seq<Line>
    requires first <= last + 1
  {
    lines[Least(first, |lines|)..Least(last + 1, |lines|)]
  }

  lemma NetOfLast(body: seq<Line>, first: nat, last: nat)
    requires body != [] && first <= last + 1
    ensures Net(Selected(body, first, last)) ==
      Net(Selected(body[..|body| - 1], first, last)) + if first <= |body| - 1 <= last then Weight(body[|body| - 1])
        else 0
  {
    var n := |body| - 1;
    var now, was := Selected(body, first, last), Selected(body[..n], first, last);
    if first <= n <= last {
      assert now == body[first..n + 1] && was == body[..n][first..n] == body[first..n];
      assert now == was + [body[n]];
      assert now[..|now| - 1] == was;
    } else {
      assert now == was;
    }
  }

  /** The sizes of the two written sides differ by what the selection adds and deletes. */
  lemma {:induction false} RewrittenBalance(staged: bool, body: seq<Line>, first: nat, last: nat)
    requires IsHunk(body) && first <= last + 1
    ensures |NewSide(Rewritten(staged, body, first, last))| - |OldSide(Rewritten(staged, body, first, last))| ==
      Net(Selected(body, first, last))
  {
    if body != [] {
      var n := |body| - 1;
      RewrittenBalance(staged, body[..n], first, last);
      var was, r := Rewritten(staged, body[..n], first, last), Rewrite(staged, first <= n <= last, body[n]);
      SidesConcat(was, r);
      RewriteSides(staged, first <= n <= last, body[n]);
      assert Rewritten(staged, body, first, last) == was + r;
      NetOfLast(body, first, last);
      KeptBalance(staged, first <= n <= last, body[n]);
      hide OldSide, NewSide, Rewrite, Rewritten, Kept, Net, Selected, Weight, IsHunk, IsHunkLine;
    }
  }

  // ----- the patch and what it does -----

  /** `unsigned long` arithmetic */
  function Wrap(x: int): nat
  {
    x % (ULONG_MAX + 1)
  }

  /** The header with the line count of the side that is not kept recomputed. */
  function Resized(h: Header, staged: bool, diff: int): Header
  {
    if staged then h.(oldSide := h.oldSide.(lines := Wrap(h.newSide.lines - diff)))
    else h.(newSide := h.newSide.(lines := Wrap(h.oldSide.lines + diff)))
  }

  /** The counts of the header are those of the body. */
  ghost predicate Counted(h: Header, body: seq<Line>)
  {
    && IsHunk(body) && 2 * |body| <= ULONG_MAX
    && |OldSide(Texts(body))| == h.oldSide.lines && |NewSide(Texts(body))| == h.newSide.lines
  }

  ghost predicate Exact(h: Header, ds: seq<string>)
  {
    |OldSide(ds)| == h.oldSide.lines && |NewSide(ds)| == h.newSide.lines
  }

  lemma {:induction false} RewrittenLength(staged: bool, body: seq<Line>, first: int, last: int)
    requires Printable(body)
    ensures |Rewritten(staged, body, first, last)| <= |body|
  {
    if body != [] { RewrittenLength(staged, body[..|body| - 1], first, last); }
  }

  lemma {:induction false} SideLength(ds: seq<string>)
    ensures |OldSide(ds)| <= |ds| && |NewSide(ds)| <= |ds|
  {
    if ds != [] { SideLength(ds[1..]); }
  }

  /** One side of the patch keeps its size; the sizes differ by the net size of the selection. */
  lemma CountsKnown(staged: bool, h: Header, body: seq<Line>, first: nat, last: nat)
    requires Counted(h, body) && first <= last + 1
    ensures var ds := Rewritten(staged, body, first, last);
      && (if staged then |NewSide(ds)| == h.newSide.lines else |OldSide(ds)| == h.oldSide.lines)
      && |NewSide(ds)| - |OldSide(ds)| == Net(Selected(body, first, last))
      && |OldSide(ds)| <= |body| && |NewSide(ds)| <= |body|
  {
    var ds := Rewritten(staged, body, first, last);
    RewrittenLength(staged, body, first, last);
    RewrittenSides(staged, body, first, last);
    RewrittenBalance(staged, body, first, last);
    SideLength(ds);
    hide *;
  }

  /** The counts of the patch are exact if and only if `diff` is the net size of the selection. */
  lemma CountsExact(staged: bool, h: Header, body: seq<Line>, first: nat, last: nat, diff: int)
    requires Counted(h, body) && first <= last + 1 && -|body| <= diff <= |body|
    ensures Exact(Resized(h, staged, diff), Rewritten(staged, body, first, last)) <==>
      diff == Net(Selected(body, first, last))
  {
    hide OldSide, NewSide, Rewritten, Net, Selected, Wrap;
    var ds := Rewritten(staged, body, first, last);
    CountsKnown(staged, h, body, first, last);
    SideLength(Texts(body));
    if staged {
      WrapExact(h.newSide.lines - diff, |OldSide(ds)|);
    } else {
      WrapExact(h.oldSide.lines + diff, |NewSide(ds)|);
    }
  }

  lemma WrapExact(x: int, n: nat)
    requires n < x + ULONG_MAX + 1 && x <= ULONG_MAX && n <= ULONG_MAX
    ensures Wrap(x) == n <==> x == n
  {
    if x < 0 { assert Wrap(x) == x + ULONG_MAX + 1; }
  }

  /** Applying the patch for a selection.  Staging (`git apply --cached`) turns the hunk's old
      lines into those lines with only the selected changes made.  Unstaging (`-R`) turns the
      hunk's new lines into those lines with only the selected changes undone. */
  lemma SelectionApplies(staged: bool, h: Header, body: seq<Line>, first: nat, last: nat,
      before: seq<string>, after: seq<string>)
    requires Counted(h, body) && first <= last + 1
    requires |before| == Before(if staged then h.newSide else h.oldSide)
    ensures var h' := Resized(h, staged, Net(Selected(body, first, last)));
      var ds := Rewritten(staged, body, first, last);
      if staged then
        ApplyReversed(h', ds, before + NewSide(Texts(body)) + after) ==
          Some(before + Choice(body, Beyond(|body|, first, last)) + after)
      else
        Apply(h', ds, before + OldSide(Texts(body)) + after) ==
          Some(before + Choice(body, Between(|body|, first, last)) + after)
  {
    var ds := Rewritten(staged, body, first, last);
    var net := Net(Selected(body, first, last));
    NetSize(Selected(body, first, last));
    CountsExact(staged, h, body, first, last, net);
    RewrittenSides(staged, body, first, last);
    RewrittenIsDiff(staged, body, first, last);
    hide OldSide, NewSide, Rewritten, Net, IsHunk, Selected, Wrap, Choice, Between, Beyond, Texts, Apply, ApplyReversed;
    if staged {
      AppliesReversedInPlace(Resized(h, staged, net), ds, before, after);
    } else {
      AppliesInPlace(Resized(h, staged, net), ds, before, after);
    }
  }

  lemma {:induction false} NetSize(lines: seq<Line>)
    ensures -|lines| <= Net(lines) <= |lines|
  {
    if lines != [] { NetSize(lines[..|lines| - 1]); }
  }

  /** `stage_apply_line` counts -1 for a deleted line and +1 for any other: exact if and only if
      the line is a change, as its callers see to. */
  function LineDiff(line: Line): int
  {
    if line.kind.DiffDel? then -1 else 1
  }

  lemma LineCountsExact(staged: bool, h: Header, body: seq<Line>, k: nat)
    requires Counted(h, body) && k < |body|
    ensures Exact(Resized(h, staged, LineDiff(body[k])), Rewritten(staged, body, k, k)) <==> IsChange(body[k])
  {
    assert Selected(body, k, k) == [body[k]];
    assert Net([body[k]]) == Net([]) + Weight(body[k]) by { assert [body[k]][..0] == []; }
    CountsExact(staged, h, body, k, k, LineDiff(body[k]));
  }

  // ----- runs of changes -----

  /** First line of the changes that end right before `current`. */
  function RunStart(lines: seq<Line>, from: nat, current: nat): (first: nat)
    requires from <= current <= |lines|
    ensures from <= first <= current
    ensures forall k :: first <= k < current ==> IsChange(lines[k])
    ensures first > from ==> !IsChange(lines[first - 1])
  {
    if current > from && IsChange(lines[current - 1]) then RunStart(lines, from, current - 1) else current
  }

  predicate InRun(line: Line)
  {
    IsChange(line) || line.kind.DiffNoNewline?
  }

  /** End of the changes and "no newline" markers that begin at i. */
  function RunEnd(lines: seq<Line>, i: nat, end: nat): (stop: nat)
    requires i <= end <= |lines|
    ensures i <= stop <= end
    ensures forall k :: i <= k < stop ==> InRun(lines[k])
    ensures stop < end ==> !InRun(lines[stop])
    decreases end - i
  {
    if i < end && InRun(lines[i]) then RunEnd(lines, i + 1, end) else i
  }

  // ----- the writers -----

  /** A chunk, a header or the end of the view ends what is written. */
  predicate Done(lines: seq<Line>, i: nat, end: nat)
    requires end <= |lines|
  {
    i >= end || lines[i].kind.DiffChunk? || lines[i].kind.DiffHeader?
  }

  /** Where a writer that starts at i stops; the line at i itself is always written. */
  function Stop(lines: seq<Line>, i: nat, end: nat): (stop: nat)
    requires i <= end <= |lines|
    ensures i <= stop <= end
    ensures i < end ==> i < stop && Done(lines, stop, end) && forall k :: i < k < stop ==> !Done(lines, k, end)
    decreases end - i
  {
    if i == end then i
    else if Done(lines, i + 1, end) then i + 1
    else Stop(lines, i + 1, end)
  }

  /** The text of the lines, each with its newline. */
  function Joined(strs: seq<string>): string
  {
    if strs == [] then "" else Joined(strs[..|strs| - 1]) + strs[|strs| - 1] + "\n"
  }

  lemma {:induction false} JoinedConcat(a: seq<string>, b: seq<string>)
    ensures Joined(a + b) == Joined(a) + Joined(b)
  {
    if b == [] {
      assert a + b == a;
    } else {
      var n := |b| - 1;
      assert (a + b)[..|a + b| - 1] == a + b[..n] && (a + b)[|a + b| - 1] == b[n];
      JoinedConcat(a, b[..n]);
    }
  }

  lemma {:induction false} RewrittenPrefix(staged: bool, body: seq<Line>, first: int, last: int, k: nat)
    requires Printable(body) && k <= |body|
    ensures Rewritten(staged, body[..k], first, last) <= Rewritten(staged, body, first, last)
  {
    if k < |body| {
      RewrittenPrefix(staged, body[..|body| - 1], first, last, k);
      assert body[..|body| - 1][..k] == body[..k];
    } else {
      assert body[..k] == body;
    }
  }

  /** Every line fits the buffer of `io_printf`. */
  predicate AllShort(ds: seq<string>)
  {
    forall i :: 0 <= i < |ds| ==> |ds[i]| + 1 < SIZEOF_STR
  }

  /** A line of the body that is not written. */
  predicate Dropped(staged: bool, chosen: bool, line: Line)
  {
    !chosen && line.kind == (if staged then DiffDel else DiffAdd)
  }

  /** The rewritten body fits exactly if each line that is written has at most 1022 bytes in the view. */
  lemma {:induction false} FitsExactly(staged: bool, body: seq<Line>, first: int, last: int)
    requires Printable(body)
    ensures AllShort(Rewritten(staged, body, first, last)) <==>
      forall k :: 0 <= k < |body| && !Dropped(staged, first <= k <= last, body[k]) ==> |body[k].text| <= 1022
  {
    hide Rewritten, AllShort, Dropped;
    if body == [] {
      NothingRewritten(staged, first, last);
    } else {
      var n := |body| - 1;
      assert body[..n] + [body[n]] == body;
      FitsExactly(staged, body[..n], first, last);
      RewrittenPush(staged, body, n, first, last);
      assert body[..n + 1] == body;
      ShortConcat(Rewritten(staged, body[..n], first, last), Rewrite(staged, first <= n <= last, body[n]));
      OneFits(staged, first <= n <= last, body[n]);
    }
  }

  lemma NothingRewritten(staged: bool, first: int, last: int)
    ensures Rewritten(staged, [], first, last) == [] && AllShort([])
  {
  }

  lemma OneFits(staged: bool, chosen: bool, line: Line)
    requires IsChange(line) ==> line.text != ""
    ensures AllShort(Rewrite(staged, chosen, line)) <==> Dropped(staged, chosen, line) || |line.text| <= 1022
  {
    var r := Rewrite(staged, chosen, line);
    if r != [] { assert |r[0]| == |line.text|; }
  }

  /** A context line of 1023 bytes, for one, is refused. */
  lemma LongLineRefused()
    ensures var body := [Line(Other, seq(1023, _ => ' '))];
      Printable(body) && !AllShort(Rewritten(false, body, 0, -1))
  {
    var body := [Line(Other, seq(1023, _ => ' '))];
    FitsExactly(false, body, 0, -1);
    assert !Dropped(false, false, body[0]);
  }

  /** The pipe to `git apply`; only what has been written to it matters here. */
  class Io {
    var out: string

    constructor ()
      ensures out == ""
    {
      out := "";
    }

    method Write(text: string)
      modifies this
      ensures out == old(out) + text
    {
      out := out + text;
    }

    /** `io_printf`: text that does not fit the buffer is refused as a whole. */
    method Printf(text: string) returns (ok: bool)
      modifies this
      ensures ok == (|text| < SIZEOF_STR)
      ensures out == if ok then old(out) + text else old(out)
    {
      if |text| >= SIZEOF_STR { return false; }
      Write(text);
      return true;
    }
  }

  lemma JoinedPush(strs: seq<string>, d: string)
    ensures Joined(strs + [d]) == Joined(strs) + (d + "\n")
  {
    assert (strs + [d])[..|strs|] == strs;
  }

  lemma JoinedOne(d: string)
    ensures Joined([d]) == d + "\n"
  {
    assert [] + [d] == [d];
    JoinedPush([], d);
  }

  lemma TextsPush(body: seq<Line>, n: nat)
    requires n < |body|
    ensures Joined(Texts(body[..n + 1])) == Joined(Texts(body[..n])) + (body[n].text + "\n")
  {
    assert Texts(body[..n + 1]) == Texts(body[..n]) + [body[n].text];
    JoinedPush(Texts(body[..n]), body[n].text);
  }

  lemma NoTexts(body: seq<Line>)
    ensures Joined(Texts(body[..0])) == ""
  {
  }

  method DiffWrite(io: Io, lines: seq<Line>, start: nat, end: nat)
    requires start <= end <= |lines|
    modifies io
    ensures io.out == old(io.out) + Joined(Texts(lines[start..Stop(lines, start, end)]))
  {
    hide Joined, Texts;
    var line := start;
    ghost var stop := Stop(lines, start, end);
    ghost var body := lines[start..stop];
    NoTexts(body);
    var more := line < end;
    while more
      invariant start <= line <= stop && more == (line < stop)
      invariant io.out == old(io.out) + Joined(Texts(body[..line - start]))
      decreases stop - line
    {
      io.Write(lines[line].text);
      io.Write("\n");
      TextsPush(body, line - start);
      line := line + 1;
      more := !Done(lines, line, end);
    }
    assert body[..line - start] == body;
  }

  lemma RewrittenPush(staged: bool, body: seq<Line>, n: nat, first: int, last: int)
    requires n < |body| && Printable(body)
    ensures Rewritten(staged, body[..n + 1], first, last) ==
      Rewritten(staged, body[..n], first, last) + Rewrite(staged, first <= n <= last, body[n])
  {
    assert body[..n + 1][..n] == body[..n];
  }

  /** Printing ds after `before` succeeds exactly if every line is short enough; if not, only a part
      of the text goes out. */
  ghost predicate Printed(out: string, before: string, ds: seq<string>, ok: bool)
  {
    && ok == AllShort(ds)
    && before <= out <= before + Joined(ds)
    && (ok ==> out == before + Joined(ds))
  }

  /** The first n lines have been printed. */
  ghost predicate Progress(out: string, before: string, staged: bool, body: seq<Line>, n: nat, first: int, last: int)
    requires Printable(body) && n <= |body|
  {
    var ds := Rewritten(staged, body[..n], first, last);
    out == before + Joined(ds) && AllShort(ds)
  }

  lemma ProgressMade(out: string, before: string, staged: bool, body: seq<Line>, n: nat, first: int, last: int)
    requires Printable(body) && n < |body|
    requires Progress(out, before, staged, body, n, first, last)
    requires AllShort(Rewrite(staged, first <= n <= last, body[n]))
    ensures Progress(out + Joined(Rewrite(staged, first <= n <= last, body[n])), before, staged, body, n + 1,
      first, last)
  {
    hide Rewritten, Rewrite, Joined, AllShort;
    RewrittenPush(staged, body, n, first, last);
    var ds := Rewritten(staged, body[..n], first, last);
    var r := Rewrite(staged, first <= n <= last, body[n]);
    JoinedConcat(ds, r);
    Associates(before, Joined(ds), Joined(r));
    ShortConcat(ds, r);
  }

  lemma ProgressStuck(out: string, before: string, staged: bool, body: seq<Line>, n: nat, first: int, last: int)
    requires Printable(body) && n < |body|
    requires Progress(out, before, staged, body, n, first, last)
    requires !AllShort(Rewrite(staged, first <= n <= last, body[n]))
    ensures Printed(out, before, Rewritten(staged, body, first, last), false)
  {
    hide Rewritten, Rewrite, Joined, AllShort;
    RewrittenPush(staged, body, n, first, last);
    RewrittenPrefix(staged, body, first, last, n + 1);
    var ds := Rewritten(staged, body[..n], first, last);
    var all := Rewritten(staged, body, first, last);
    var r := Rewrite(staged, first <= n <= last, body[n]);
    ShortPrefix(ds, ds + r, all);
    ShortConcat(ds, r);
    PrefixJoined(ds, all);
    PrefixConcat(before, Joined(ds), Joined(all));
  }

  lemma PrefixConcat(a: string, b: string, c: string)
    requires b <= c
    ensures a <= a + b <= a + c
  {
  }

  lemma ShortConcat(a: seq<string>, b: seq<string>)
    ensures AllShort(a + b) <==> AllShort(a) && AllShort(b)
  {
    if AllShort(a + b) {
      assert forall i :: 0 <= i < |a| ==> a[i] == (a + b)[i];
      assert forall i :: 0 <= i < |b| ==> b[i] == (a + b)[|a| + i];
    }
  }

  lemma ShortPrefix(a: seq<string>, b: seq<string>, c: seq<string>)
    requires a <= b <= c
    ensures a <= c && (AllShort(c) ==> AllShort(b))
  {
  }

  lemma PrefixJoined(a: seq<string>, b: seq<string>)
    requires a <= b
    ensures Joined(a) <= Joined(b)
  {
    assert b == a + b[|a|..];
    JoinedConcat(a, b[|a|..]);
  }

  lemma PrintableAt(body: seq<Line>, k: nat)
    requires Printable(body) && k < |body|
    ensures IsChange(body[k]) ==> body[k].text != ""
  {
  }

  lemma ProgressStart(out: string, staged: bool, body: seq<Line>, first: int, last: int)
    requires Printable(body)
    ensures Progress(out, out, staged, body, 0, first, last)
  {
  }

  lemma ProgressDone(out: string, before: string, staged: bool, body: seq<Line>, first: int, last: int)
    requires Printable(body) && Progress(out, before, staged, body, |body|, first, last)
    ensures Printed(out, before, Rewritten(staged, body, first, last), true)
  {
    assert body[..|body|] == body;
  }

  /** `stage_diff_range_write`, one line. */
  method PrintLine(io: Io, staged: bool, chosen: bool, line: Line) returns (ok: bool)
    requires IsChange(line) ==> line.text != ""
    modifies io
    ensures ok == AllShort(Rewrite(staged, chosen, line))
    ensures io.out == if ok then old(io.out) + Joined(Rewrite(staged, chosen, line)) else old(io.out)
  {
    var writeAsNormal := if staged then DiffAdd else DiffDel;
    var ignore := if staged then DiffDel else DiffAdd;
    var prefix := "";
    var data := Some(line.text);
    if chosen {
    } else if line.kind == writeAsNormal {
      prefix := " ";
      data := Some(line.text[1..]);
    } else if line.kind == ignore {
      data := None;
    }
    ok := true;
    if data.Some? {
      assert "" + line.text == line.text;
      assert Rewrite(staged, chosen, line) == [prefix + data.value];
      JoinedOne(prefix + data.value);
      ok := io.Printf(prefix + data.value + "\n");
    }
  }

  /** `stage_diff_range_write`.  It fails exactly if a line to write is too long for `io_printf`. */
  method DiffRangeWrite(io: Io, staged: bool, lines: seq<Line>, start: nat, first: int, last: int, end: nat)
    returns (ok: bool)
    requires start <= end <= |lines|
    requires Printable(lines[start..Stop(lines, start, end)])
    modifies io
    ensures Printed(io.out, old(io.out),
      Rewritten(staged, lines[start..Stop(lines, start, end)], first - start, last - start), ok)
  {
    hide *;
    var line := start;
    ghost var stop := Stop(lines, start, end);
    ghost var body := lines[start..stop];
    ProgressStart(io.out, staged, body, first - start, last - start);
    var more := line < end;
    while more
      invariant start <= line <= stop && more == (line < stop)
      invariant Progress(io.out, old(io.out), staged, body, line - start, first - start, last - start)
      decreases stop - line
    {
      ghost var out := io.out;
      PrintableAt(body, line - start);
      ok := PrintLine(io, staged, first <= line <= last, lines[line]);
      if !ok {
        ProgressStuck(out, old(io.out), staged, body, line - start, first - start, last - start);
        return;
      }
      ProgressMade(out, old(io.out), staged, body, line - start, first - start, last - start);
      line := line + 1;
      more := !Done(lines, line, end);
    }
    ProgressDone(io.out, old(io.out), staged, body, first - start, last - start);
    ok := true;
  }

  // ----- the two operations -----

  /** The file header and the rewritten chunk header. */
  function Head(lines: seq<Line>, diffHdr: nat, chunk: nat, h: Header): string
    requires diffHdr <= chunk <= |lines|
  {
    Joined(Texts(lines[diffHdr..Stop(lines, diffHdr, chunk)])) + (Format(h) + "\n")
  }

  // ----- what a reader finds in the text -----

  /** Lines as the view holds them: no newlines, and a line that looks like a chunk header is one. */
  ghost predicate ViewLines(lines: seq<Line>)
  {
    forall i :: 0 <= i < |lines| ==> OneLine(lines[i].text) && (IsChunk(lines[i].text) ==> lines[i].kind.DiffChunk?)
  }

  lemma {:induction false} SplitJoined(ds: seq<string>, rest: string)
    requires OneLineEach(ds)
    ensures SplitLines(Joined(ds) + rest) == ds + SplitLines(rest)
    decreases |ds|
  {
    hide SplitLines, Joined, OneLine;
    if ds == [] {
      NothingJoined();
      assert "" + rest == rest;
    } else {
      var n := |ds| - 1;
      var more := ds[n] + "\n" + rest;
      SplitJoined(ds[..n], more);
      FirstLine(ds[n], rest);
      assert ds == ds[..n] + [ds[n]];
      JoinedPush(ds[..n], ds[n]);
      Associates(Joined(ds[..n]), ds[n] + "\n", rest);
    }
  }

  lemma NothingJoined()
    ensures Joined([]) == ""
  {
  }

  lemma {:induction false} RewrittenOneLine(staged: bool, body: seq<Line>, first: int, last: int)
    requires Printable(body) && forall i :: 0 <= i < |body| ==> OneLine(body[i].text)
    ensures OneLineEach(Rewritten(staged, body, first, last))
  {
    if body != [] {
      var n := |body| - 1;
      RewrittenOneLine(staged, body[..n], first, last);
      assert OneLine(body[n].text);
    }
  }

  function FileHeader(lines: seq<Line>, diffHdr: nat, chunk: nat): seq<string>
    requires diffHdr <= chunk <= |lines|
  {
    Texts(lines[diffHdr..Stop(lines, diffHdr, chunk)])
  }

  lemma FileHeaderClean(lines: seq<Line>, diffHdr: nat, chunk: nat)
    requires diffHdr < chunk <= |lines| && ViewLines(lines) && !lines[diffHdr].kind.DiffChunk?
    ensures var file := FileHeader(lines, diffHdr, chunk);
      OneLineEach(file) && forall i :: 0 <= i < |file| ==> !IsChunk(file[i])
  {
    hide OneLine, IsChunk;
    forall k | diffHdr <= k < Stop(lines, diffHdr, chunk) ensures OneLine(lines[k].text) && !IsChunk(lines[k].text) {
      if k > diffHdr { assert !Done(lines, k, chunk); }
    }
  }

  /** What has been written behind `before` reads as a patch: the lines of the view from the file header up to
      the first chunk, the chunk header h, and the lines ds. */
  ghost predicate PatchIs(out: string, before: string, file: seq<string>, h: Header, ds: seq<string>)
  {
    before <= out && ReadPatch(out[|before|..]) == Some(Patch(file, h, ds))
  }

  lemma WroteIs(out: string, before: string, staged: bool, lines: seq<Line>, diffHdr: nat, chunk: nat, end: nat,
      h: Header, first: int, last: int)
    requires diffHdr < chunk < end <= |lines| && Printable(Body(lines, chunk, end))
    requires Wrote(out, before, true, staged, lines, diffHdr, chunk, end, h, first, last)
    ensures out == before + Head(lines, diffHdr, chunk, h) +
      Joined(Rewritten(staged, Body(lines, chunk, end), first - (chunk + 1), last - (chunk + 1)))
  {
    hide Head, Joined, Rewritten, Body, Printable;
  }

  lemma HeadIs(lines: seq<Line>, diffHdr: nat, chunk: nat, h: Header)
    requires diffHdr <= chunk <= |lines|
    ensures Head(lines, diffHdr, chunk, h) == Joined(FileHeader(lines, diffHdr, chunk)) + (Format(h) + "\n")
  {
  }

  lemma OneLineBody(lines: seq<Line>, chunk: nat, end: nat)
    requires chunk < end <= |lines| && ViewLines(lines)
    ensures forall i :: 0 <= i < |Body(lines, chunk, end)| ==> OneLine(Body(lines, chunk, end)[i].text)
  {
    hide OneLine, IsChunk;
  }

  lemma WroteReads(out: string, before: string, staged: bool, lines: seq<Line>, diffHdr: nat, chunk: nat, end: nat,
      h: Header, first: int, last: int)
    requires diffHdr < chunk < end <= |lines| && Printable(Body(lines, chunk, end))
    requires Wrote(out, before, true, staged, lines, diffHdr, chunk, end, h, first, last)
    requires ViewLines(lines) && !lines[diffHdr].kind.DiffChunk? && Fits(h)
    ensures PatchIs(out, before, FileHeader(lines, diffHdr, chunk), h,
      Rewritten(staged, Body(lines, chunk, end), first - (chunk + 1), last - (chunk + 1)))
  {
    hide Rewritten, ReadPatch, Fits, Format, Joined, Stop, OneLine, OneLineEach, IsChunk, Printable, Texts,
      ViewLines, Body, Wrote, Head, FileHeader;
    var file, ds := FileHeader(lines, diffHdr, chunk), Rewritten(staged, Body(lines, chunk, end), first - (chunk + 1),
      last - (chunk + 1));
    var text := Head(lines, diffHdr, chunk, h) + Joined(ds);
    WroteIs(out, before, staged, lines, diffHdr, chunk, end, h, first, last);
    HeadIs(lines, diffHdr, chunk, h);
    Associates(before, Head(lines, diffHdr, chunk, h), Joined(ds));
    FileHeaderClean(lines, diffHdr, chunk);
    OneLineBody(lines, chunk, end);
    RewrittenOneLine(staged, Body(lines, chunk, end), first - (chunk + 1), last - (chunk + 1));
    TextReads(text, file, h, ds);
    assert (before + text)[|before|..] == text;
  }

  lemma TextReads(text: string, file: seq<string>, h: Header, ds: seq<string>)
    requires text == Joined(file) + (Format(h) + "\n") + Joined(ds) && Fits(h)
    requires OneLineEach(file) && OneLineEach(ds) && forall i :: 0 <= i < |file| ==> !IsChunk(file[i])
    ensures ReadPatch(text) == Some(Patch(file, h, ds))
  {
    hide SplitLines, ReadPatch, Fits, Format, Joined, OneLine, IsChunk;
    FormatIsOneLine(h);
    Associates(Joined(file), Format(h) + "\n", Joined(ds));
    SplitJoined(file, Format(h) + "\n" + Joined(ds));
    FirstLine(Format(h), Joined(ds));
    assert Joined(ds) + "" == Joined(ds);
    SplitJoined(ds, "");
    NothingSplit();
    assert ds + [] == ds;
    Associates(file, [Format(h)], ds);
    ReadsLines(text, file, h, ds);
  }

  lemma NothingSplit()
    ensures SplitLines("") == []
  {
  }

  lemma ResizedFits(text: string, staged: bool, diff: int)
    requires Parse(text).Some?
    ensures Fits(Resized(Parse(text).value, staged, diff))
  {
    hide Parse;
    ParsedFits(text);
  }

  lemma ResizedPrints(text: string, staged: bool, diff: int)
    requires Parse(text).Some?
    ensures |Format(Resized(Parse(text).value, staged, diff)) + "\n"| < SIZEOF_STR
  {
    ParsedFits(text);
    FormatIsShort(Resized(Parse(text).value, staged, diff));
    hide Parse, Format;
  }

  function Body(lines: seq<Line>, chunk: nat, end: nat): seq<Line>
    requires chunk < end <= |lines|
  {
    lines[chunk + 1..Stop(lines, chunk + 1, end)]
  }

  /** The patch: file header, chunk header, and the body rewritten for the lines first..last. */
  ghost predicate Wrote(out: string, before: string, ok: bool, staged: bool, lines: seq<Line>, diffHdr: nat,
      chunk: nat, end: nat,
      h: Header, first: int, last: int)
    requires diffHdr <= chunk < end <= |lines| && Printable(Body(lines, chunk, end))
  {
    Printed(out, before + Head(lines, diffHdr, chunk, h),
      Rewritten(staged, Body(lines, chunk, end), first - (chunk + 1), last - (chunk + 1)), ok)
  }

  /** The last statement of both operations. */
  method WritePatch(io: Io, staged: bool, lines: seq<Line>, diffHdr: nat, chunk: nat, end: nat, h: Header,
      first: int, last: int)
    returns (ok: bool)
    requires diffHdr <= chunk < end <= |lines| && Printable(Body(lines, chunk, end))
    requires |Format(h) + "\n"| < SIZEOF_STR
    modifies io
    ensures Wrote(io.out, old(io.out), ok, staged, lines, diffHdr, chunk, end, h, first, last)
  {
    hide Printed, Rewritten, Format, Joined, Texts, Stop, Printable;
    DiffWrite(io, lines, diffHdr, chunk);
    ok := io.Printf(Format(h) + "\n");
    Associates(old(io.out), Joined(Texts(lines[diffHdr..Stop(lines, diffHdr, chunk)])), Format(h) + "\n");
    ok := DiffRangeWrite(io, staged, lines, chunk + 1, first, last, end);
  }

  /** What an operation has written, as bytes and as a reader finds it. */
  ghost predicate WrotePatch(out: string, before: string, ok: bool, staged: bool, lines: seq<Line>, diffHdr: nat,
      chunk: nat, end: nat, h: Header, first: int, last: int)
    requires diffHdr <= chunk < end <= |lines| && Printable(Body(lines, chunk, end))
  {
    && Wrote(out, before, ok, staged, lines, diffHdr, chunk, end, h, first, last)
    && (ok && ViewLines(lines) && diffHdr < chunk && !lines[diffHdr].kind.DiffChunk? ==>
          PatchIs(out, before, FileHeader(lines, diffHdr, chunk), h,
            Rewritten(staged, Body(lines, chunk, end), first - (chunk + 1), last - (chunk + 1))))
  }

  lemma WrotePatchReads(out: string, before: string, ok: bool, staged: bool, lines: seq<Line>, diffHdr: nat,
      chunk: nat, end: nat, h: Header, first: int, last: int)
    requires diffHdr <= chunk < end <= |lines| && Printable(Body(lines, chunk, end)) && Fits(h)
    requires Wrote(out, before, ok, staged, lines, diffHdr, chunk, end, h, first, last)
    ensures WrotePatch(out, before, ok, staged, lines, diffHdr, chunk, end, h, first, last)
  {
    hide Wrote, PatchIs, Rewritten, Fits, FileHeader, Body, Printable, ViewLines;
    if ok && ViewLines(lines) && diffHdr < chunk && !lines[diffHdr].kind.DiffChunk? {
      WroteReads(out, before, staged, lines, diffHdr, chunk, end, h, first, last);
    }
  }

  /** `stage_apply_line` */
  method ApplyLine(io: Io, staged: bool, lines: seq<Line>, diffHdr: nat, chunk: nat, single: nat, end: nat)
    returns (ok: bool)
    requires diffHdr <= chunk < end <= |lines| && single < |lines| && Printable(Body(lines, chunk, end))
    requires HasDash(lines[chunk].text)
    modifies io
    ensures match Parse(lines[chunk].text)
      case None => !ok && io.out == old(io.out)
      case Some(h) => WrotePatch(io.out, old(io.out), ok, staged, lines, diffHdr, chunk, end,
        Resized(h, staged, LineDiff(lines[single])), single, single)
  {
    hide Printable, Body, Parse, HasDash, Wrote, WrotePatch, Format, Fits;
    var diff := if lines[single].kind.DiffDel? then -1 else 1;
    var parsed, header := ParseChunkHeader(lines[chunk].text);
    if !parsed { return false; }
    if staged {
      header := header.(oldSide := header.oldSide.(lines := Wrap(header.newSide.lines - diff)));
    } else {
      header := header.(newSide := header.newSide.(lines := Wrap(header.oldSide.lines + diff)));
    }
    ResizedPrints(lines[chunk].text, staged, diff);
    ResizedFits(lines[chunk].text, staged, diff);
    ok := WritePatch(io, staged, lines, diffHdr, chunk, end, header, single, single);
    WrotePatchReads(io.out, old(io.out), ok, staged, lines, diffHdr, chunk, end, header, single, single);
  }

  /** First line of the run of changes around `current`, as `stage_apply_part` finds it: scanning
      forward from the chunk header and forgetting the start at every other line. */
  method FindFirst(lines: seq<Line>, chunk: nat, current: nat) returns (first: nat)
    requires chunk <= current < |lines|
    ensures first == RunStart(lines, chunk, current)
  {
    var found := None;
    var line := chunk;
    while line < current
      invariant chunk <= line <= current
      invariant RunStart(lines, chunk, line) == if found.Some? then found.value else line
      invariant found.Some? ==> found.value < line
    {
      var change := IsChange(lines[line]);
      if found.None? && change {
        found := Some(line);
      } else if found.Some? && !change {
        found := None;
      }
      line := line + 1;
    }
    first := if found.None? then current else found.value;
  }

  lemma NoNet(lines: seq<Line>, first: nat)
    requires first <= |lines|
    ensures Net(lines[first..first]) == 0
  {
  }

  lemma NetStep(lines: seq<Line>, first: nat, i: nat)
    requires first <= i < |lines|
    ensures Net(lines[first..i + 1]) == Net(lines[first..i]) + Weight(lines[i])
  {
    assert lines[first..i + 1][..i - first] == lines[first..i];
  }

  lemma RunEndStep(lines: seq<Line>, i: nat, end: nat)
    requires i <= end <= |lines|
    ensures RunEnd(lines, i, end) == if i < end && InRun(lines[i]) then RunEnd(lines, i + 1, end) else i
  {
  }

  lemma InRunExactly(line: Line)
    ensures InRun(line) <==> line.kind.DiffDel? || line.kind.DiffAdd? || line.kind.DiffNoNewline?
  {
  }

  /** Last line of the run that starts at `first`, and what the run adds and deletes. */
  method FindLast(lines: seq<Line>, first: nat, end: nat) returns (last: nat, diff: int)
    requires first <= end <= |lines|
    ensures last == if RunEnd(lines, first, end) > first then RunEnd(lines, first, end) - 1 else first
    ensures diff == Net(lines[first..RunEnd(lines, first, end)])
  {
    hide Net, RunEnd, InRun;
    NoNet(lines, first);
    RunEndStep(lines, first, end);
    last, diff := first, 0;
    var line := first;
    while line < end
      invariant first <= line <= end && RunEnd(lines, line, end) == RunEnd(lines, first, end)
      invariant last == if line > first then line - 1 else first
      invariant diff == Net(lines[first..line])
    {
      NetStep(lines, first, line);
      RunEndStep(lines, line, end);
      InRunExactly(lines[line]);
      if lines[line].kind.DiffDel? {
        last := line;
        diff := diff - 1;
      } else if lines[line].kind.DiffAdd? {
        last := line;
        diff := diff + 1;
      } else if lines[line].kind.DiffNoNewline? {
        last := line;
      } else {
        break;
      }
      line := line + 1;
    }
  }

  function PartLast(lines: seq<Line>, first: nat, end: nat): nat
    requires first <= end <= |lines|
  {
    if RunEnd(lines, first, end) > first then RunEnd(lines, first, end) - 1 else first
  }

  /** `stage_apply_part` */
  method ApplyPart(io: Io, staged: bool, lines: seq<Line>, diffHdr: nat, chunk: nat, current: nat, end: nat)
    returns (ok: bool)
    requires diffHdr <= chunk <= current < end <= |lines| && Printable(Body(lines, chunk, end))
    requires HasDash(lines[chunk].text)
    modifies io
    ensures match Parse(lines[chunk].text)
      case None => !ok && io.out == old(io.out)
      case Some(h) =>
        var first := RunStart(lines, chunk, current);
        var diff := Net(lines[first..RunEnd(lines, first, end)]);
        WrotePatch(io.out, old(io.out), ok, staged, lines, diffHdr, chunk, end, Resized(h, staged, diff), first,
          PartLast(lines, first, end))
  {
    hide Printable, Body, Parse, HasDash, Wrote, WrotePatch, Format, Fits, RunStart, RunEnd, Net;
    var parsed, header := ParseChunkHeader(lines[chunk].text);
    if !parsed { return false; }
    var first := FindFirst(lines, chunk, current);
    var last, diff := FindLast(lines, first, end);
    if staged {
      header := header.(oldSide := header.oldSide.(lines := Wrap(header.newSide.lines - diff)));
    } else {
      header := header.(newSide := header.newSide.(lines := Wrap(header.oldSide.lines + diff)));
    }
    ResizedPrints(lines[chunk].text, staged, diff);
    ResizedFits(lines[chunk].text, staged, diff);
    ok := WritePatch(io, staged, lines, diffHdr, chunk, end, header, first, last);
    WrotePatchReads(io.out, old(io.out), ok, staged, lines, diffHdr, chunk, end, header, first, last);
  }

  // ----- what the operations achieve -----

  /** Applying the patch makes (or undoes) the changes first..last of the body and no others,
      wherever the hunk stands in the file. */
  ghost predicate ChangesOnly(staged: bool, h: Header, h': Header, ds: seq<string>, body: seq<Line>,
      first: int, last: int)
    requires IsHunk(body)
  {
    forall before: seq<string>, after: seq<string> | |before| == Before(if staged then h.newSide else h.oldSide) ::
      if staged then
        ApplyReversed(h', ds, before + NewSide(Texts(body)) + after) ==
          Some(before + Choice(body, Beyond(|body|, first, last)) + after)
      else
        Apply(h', ds, before + OldSide(Texts(body)) + after) ==
          Some(before + Choice(body, Between(|body|, first, last)) + after)
  }

  lemma SelectionChangesOnly(staged: bool, h: Header, body: seq<Line>, first: nat, last: nat)
    requires Counted(h, body) && first <= last + 1
    ensures ChangesOnly(staged, h, Resized(h, staged, Net(Selected(body, first, last))),
      Rewritten(staged, body, first, last), body, first, last)
  {
    hide Apply, ApplyReversed, Choice, Net, Rewritten, Selected, Resized, Between, Beyond, OldSide, NewSide, Texts;
    forall before: seq<string>, after: seq<string> | |before| == Before(if staged then h.newSide else h.oldSide)
      ensures if staged then
          ApplyReversed(Resized(h, staged, Net(Selected(body, first, last))), Rewritten(staged, body, first, last),
            before + NewSide(Texts(body)) + after) ==
            Some(before + Choice(body, Beyond(|body|, first, last)) + after)
        else
          Apply(Resized(h, staged, Net(Selected(body, first, last))), Rewritten(staged, body, first, last),
            before + OldSide(Texts(body)) + after) ==
            Some(before + Choice(body, Between(|body|, first, last)) + after)
    {
      SelectionApplies(staged, h, body, first, last, before, after);
    }
  }

  /** The patch of `ApplyLine` for a change line changes that line only. */
  lemma LineChangesOnly(staged: bool, lines: seq<Line>, chunk: nat, single: nat, end: nat, h: Header)
    requires chunk < end <= |lines| && chunk < single < Stop(lines, chunk + 1, end)
    requires Counted(h, Body(lines, chunk, end)) && IsChange(lines[single])
    ensures var k := single - (chunk + 1);
      var body := Body(lines, chunk, end);
      ChangesOnly(staged, h, Resized(h, staged, LineDiff(lines[single])), Rewritten(staged, body, k, k), body, k, k)
  {
    hide ChangesOnly, Counted, Stop, Net, Resized, Rewritten;
    var k := single - (chunk + 1);
    var body := Body(lines, chunk, end);
    assert Selected(body, k, k) == [lines[single]];
    NetOfOne(lines[single]);
    WeightOfChange(lines[single]);
    SelectionChangesOnly(staged, h, body, k, k);
  }

  /** Following the patch that a reader finds in the text changes the lines first..last only. */
  ghost predicate TextChangesOnly(out: string, before: string, staged: bool, h: Header, body: seq<Line>, first: int,
      last: int)
    requires IsHunk(body)
  {
    && before <= out
    && var p := ReadPatch(out[|before|..]);
       p.Some? && ChangesOnly(staged, h, p.value.h, p.value.lines, body, first, last)
  }

  /** The view around a hunk whose patch is written: lines without newlines, behind a file header. */
  ghost predicate InView(lines: seq<Line>, diffHdr: nat, chunk: nat, end: nat, h: Header)
  {
    && diffHdr < chunk < end <= |lines| && ViewLines(lines) && !lines[diffHdr].kind.DiffChunk?
    && Printable(Body(lines, chunk, end)) && Counted(h, Body(lines, chunk, end))
  }

  /** The text that `ApplyLine` has written for a change line, read as a patch, changes that line only. */
  lemma LineTextChangesOnly(out: string, before: string, staged: bool, lines: seq<Line>, diffHdr: nat, chunk: nat,
      single: nat, end: nat, h: Header)
    requires InView(lines, diffHdr, chunk, end, h) && chunk < single < Stop(lines, chunk + 1, end) &&
      IsChange(lines[single])
    requires WrotePatch(out, before, true, staged, lines, diffHdr, chunk, end,
      Resized(h, staged, LineDiff(lines[single])),
      single, single)
    ensures IsHunk(Body(lines, chunk, end))
    ensures TextChangesOnly(out, before, staged, h, Body(lines, chunk, end), single - (chunk + 1), single - (chunk + 1))
  {
    hide Wrote, ReadPatch, ChangesOnly, Rewritten, Stop, Body, Resized, ViewLines, FileHeader, Printable, IsChange;
    LineChangesOnly(staged, lines, chunk, single, end, h);
  }

  lemma WeightOfChange(line: Line)
    requires IsChange(line)
    ensures Weight(line) == LineDiff(line)
  {
  }

  lemma NetOfOne(line: Line)
    ensures Net([line]) == Weight(line)
  {
    assert [line][..0] == [];
  }

  /** The run around a change line stays inside the hunk. */
  lemma RunInBody(lines: seq<Line>, chunk: nat, current: nat, end: nat)
    requires chunk < end <= |lines| && chunk < current < Stop(lines, chunk + 1, end)
    requires lines[chunk].kind.DiffChunk? && IsChange(lines[current])
    ensures chunk < RunStart(lines, chunk, current) <= current <
      RunEnd(lines, RunStart(lines, chunk, current), end) <= Stop(lines, chunk + 1, end)
  {
    hide Stop, RunStart, RunEnd;
    var first, stop := RunStart(lines, chunk, current), Stop(lines, chunk + 1, end);
    var last := RunEnd(lines, first, end);
    assert stop == end || !InRun(lines[stop]);
    assert last == end || !InRun(lines[last]);
  }

  /** The patch of `ApplyPart` changes the maximal run of changes around the current line only. */
  lemma PartChangesOnly(staged: bool, lines: seq<Line>, chunk: nat, current: nat, end: nat, h: Header)
    requires chunk < end <= |lines| && chunk < current < Stop(lines, chunk + 1, end)
    requires Counted(h, Body(lines, chunk, end)) && IsChange(lines[current]) && lines[chunk].kind.DiffChunk?
    ensures var first := RunStart(lines, chunk, current);
      var last := PartLast(lines, first, end);
      var body := Body(lines, chunk, end);
      var f, l := first - (chunk + 1), last - (chunk + 1);
      && ChangesOnly(staged, h, Resized(h, staged, Net(lines[first..RunEnd(lines, first, end)])),
        Rewritten(staged, body, f, l), body, f, l)
      && 0 <= f <= current - (chunk + 1) <= l < |body|
      && (forall i :: f <= i <= l ==> IsChange(body[i]))
      && (f > 0 ==> !IsChange(body[f - 1])) && (l + 1 < |body| ==> !IsChange(body[l + 1]))
  {
    hide Stop, RunStart, RunEnd, Rewritten, ChangesOnly, Net, Counted, Resized, IsChange, InRun;
    RunInBody(lines, chunk, current, end);
    var first := RunStart(lines, chunk, current);
    var stop := RunEnd(lines, first, end);
    var body := Body(lines, chunk, end);
    var f, l := first - (chunk + 1), stop - 1 - (chunk + 1);
    SliceOfSlice(lines, chunk + 1, Stop(lines, chunk + 1, end), f, l + 1);
    assert Selected(body, f, l) == body[f..l + 1];
    SelectionChangesOnly(staged, h, body, f, l);
    RunIsMaximal(lines, chunk, current, end, h);
  }

  /** And the text of `ApplyPart` changes the maximal run of changes around the current line only. */
  lemma PartTextChangesOnly(out: string, before: string, staged: bool, lines: seq<Line>, diffHdr: nat, chunk: nat,
      current: nat, end: nat, h: Header)
    requires InView(lines, diffHdr, chunk, end, h) && lines[chunk].kind.DiffChunk?
    requires chunk < current < Stop(lines, chunk + 1, end) && IsChange(lines[current])
    requires var first := RunStart(lines, chunk, current);
      WrotePatch(out, before, true, staged, lines, diffHdr, chunk, end,
        Resized(h, staged, Net(lines[first..RunEnd(lines, first, end)])), first, PartLast(lines, first, end))
    ensures IsHunk(Body(lines, chunk, end))
    ensures var first := RunStart(lines, chunk, current);
      TextChangesOnly(out, before, staged, h, Body(lines, chunk, end), first - (chunk + 1),
        PartLast(lines, first, end) - (chunk + 1))
  {
    hide Wrote, ReadPatch, ChangesOnly, Rewritten, Stop, Body, Resized, ViewLines, FileHeader, Printable, IsChange;
    hide RunStart, RunEnd, PartLast, Net;
    PartChangesOnly(staged, lines, chunk, current, end, h);
  }

  /** The run as lines of the body: all changes, and none next to it. */
  lemma RunIsMaximal(lines: seq<Line>, chunk: nat, current: nat, end: nat, h: Header)
    requires chunk < end <= |lines| && chunk < current < Stop(lines, chunk + 1, end)
    requires Counted(h, Body(lines, chunk, end)) && IsChange(lines[current]) && lines[chunk].kind.DiffChunk?
    ensures var first := RunStart(lines, chunk, current);
      var stop := RunEnd(lines, first, end);
      var body := Body(lines, chunk, end);
      var f, l := first - (chunk + 1), stop - 1 - (chunk + 1);
      && 0 <= f <= l < |body|
      && (forall i :: f <= i <= l ==> IsChange(body[i]))
      && (f > 0 ==> !IsChange(body[f - 1])) && (l + 1 < |body| ==> !IsChange(body[l + 1]))
  {
    hide Stop, Counted, IsChange, InRun;
    RunInBody(lines, chunk, current, end);
    var first := RunStart(lines, chunk, current);
    var stop := RunEnd(lines, first, end);
    var body := Body(lines, chunk, end);
    HunkRuns(h, body);
    assert forall i :: 0 <= i < |body| ==> body[i] == lines[chunk + 1 + i];
    assert first > chunk ==> !IsChange(lines[first - 1]);
    assert stop < end ==> !InRun(lines[stop]);
  }

  lemma HunkRuns(h: Header, body: seq<Line>)
    requires Counted(h, body)
    ensures IsHunk(body) && forall i :: 0 <= i < |body| ==> (InRun(body[i]) <==> IsChange(body[i]))
  {
  }
}
