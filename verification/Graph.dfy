/** The revision graph of src/graph-v2.c:271-520 and 684-794: a state machine over commits
    that keeps one column for every commit still awaited. */
module Graph {
  import opened Common
  import opened GraphRows

  // ----- symbols -----

  /** `continued_down` */
  predicate ContinuedDown(row: Row, next: Row, pos: nat)
    requires pos < |row| && pos < |next|
  {
    row[pos].id == next[pos].id && !row[pos].symbol.shiftLeft
  }

  /** The scan of `shift_left` from column i - 1 down to 0. */
  predicate ShiftLeftFrom(row: Row, prev: Row, pos: nat, i: nat)
    requires i <= pos < |row| == |prev|
  {
    if i == 0 then false
    else if !HasCommit(row[i - 1]) || row[i - 1].id != row[pos].id then ShiftLeftFrom(row, prev, pos, i - 1)
    else !ContinuedDown(prev, row, i - 1)
  }

  predicate ShiftLeft(row: Row, prev: Row, pos: nat)
    requires pos < |row| == |prev|
  {
    HasCommit(row[pos]) && ShiftLeftFrom(row, prev, pos, pos)
  }

  /** The number of commits in a row (`commits_in_row`). */
  function Commits(row: Row): (n: nat)
    ensures n <= |row|
  {
    if |row| == 0 then 0
    else Commits(row[..|row| - 1]) + if HasCommit(row[|row| - 1]) then 1 else 0
  }

  function Places(row: Row): set<nat>
  {
    set k: nat | k < |row| && HasCommit(row[k])
  }

  lemma PlacesSnoc(row: Row)
    requires |row| > 0
    ensures var n: nat := |row| - 1;
      Places(row) == Places(row[..n]) + (if HasCommit(row[n]) then {n} else {}) && n !in Places(row[..n])
  {
  }

  /** It counts the columns with a commit. */
  lemma {:induction false} CommitsCounts(row: Row)
    ensures Commits(row) == |Places(row)|
  {
    hide Places, HasCommit;
    if |row| > 0 {
      CommitsCounts(row[..|row| - 1]);
      PlacesSnoc(row);
    } else {
      NoPlaces(row);
    }
  }

  lemma NoPlaces(row: Row)
    requires |row| == 0
    ensures Places(row) == {}
  {
  }

  predicate NoneOf(ids: seq<Option<Id>>)
  {
    forall k :: 0 <= k < |ids| ==> ids[k].None?
  }

  /** Two places hold an id. */
  ghost predicate Two(ids: seq<Option<Id>>)
  {
    exists i, j :: 0 <= i < j < |ids| && ids[i].Some? && ids[j].Some?
  }

  lemma {:induction false} CommitsExactly(row: Row, ids: seq<Option<Id>>)
    requires SameIds(row, ids)
    ensures Commits(row) < 1 <==> NoneOf(ids)
    ensures Commits(row) > 1 <==> Two(ids)
  {
    if |row| > 0 {
      var n := |row| - 1;
      CommitsExactly(row[..n], ids[..n]);
      assert ids == ids[..n] + [ids[n]];
      if Two(ids[..n]) {
        var i, j :| 0 <= i < j < n && ids[..n][i].Some? && ids[..n][j].Some?;
        assert ids[i].Some? && ids[j].Some?;
      }
      if ids[n].Some? && !NoneOf(ids[..n]) {
        var i :| 0 <= i < n && ids[..n][i].Some?;
        assert ids[i].Some? && ids[n].Some?;
      }
    }
  }

  /** A column shifts left exactly if the nearest column to its left that awaits the same commit was another
      one in the previous row, or shifted left there. */
  lemma ShiftLeftExactly(row: Row, prev: Row, pos: nat)
    requires pos < |row| == |prev|
    ensures ShiftLeft(row, prev, pos) <==>
      HasCommit(row[pos]) &&
      exists i: nat :: Nearest(row, pos, i) && (prev[i].id != row[pos].id || prev[i].symbol.shiftLeft)
  {
    if HasCommit(row[pos]) { ShiftLeftFromExactly(row, prev, pos, pos); }
  }

  ghost predicate Nearest(row: Row, pos: nat, i: nat)
    requires pos < |row|
  {
    i < pos && row[i].id == row[pos].id && forall k :: i < k < pos ==> row[k].id != row[pos].id
  }

  lemma {:induction false} ShiftLeftFromExactly(row: Row, prev: Row, pos: nat, n: nat)
    requires n <= pos < |row| == |prev| && HasCommit(row[pos])
    requires forall k :: n <= k < pos ==> row[k].id != row[pos].id
    ensures ShiftLeftFrom(row, prev, pos, n) <==>
      exists i: nat :: Nearest(row, pos, i) && (prev[i].id != row[pos].id || prev[i].symbol.shiftLeft)
  {
    if n > 0 {
      if row[n - 1].id != row[pos].id {
        ShiftLeftFromExactly(row, prev, pos, n - 1);
      } else {
        assert Nearest(row, pos, n - 1);
        forall i: nat | Nearest(row, pos, i) ensures i == n - 1 {
        }
      }
    }
  }

  /** What stands to the right does not matter. */
  lemma {:induction false} ShiftLeftFromPrefix(r: Row, s: Row, prev: Row, prev': Row, pos: nat, i: nat)
    requires i <= pos < |r| == |prev| <= |s| == |prev'| && r <= s && prev <= prev'
    ensures ShiftLeftFrom(s, prev', pos, i) == ShiftLeftFrom(r, prev, pos, i)
  {
    if i > 0 { ShiftLeftFromPrefix(r, s, prev, prev', pos, i - 1); }
  }

  lemma ShiftLeftPrefix(r: Row, s: Row, prev: Row, prev': Row, pos: nat)
    requires pos < |r| == |prev| <= |s| == |prev'| && r <= s && prev <= prev'
    ensures ShiftLeft(s, prev', pos) == ShiftLeft(r, prev, pos)
  {
    ShiftLeftFromPrefix(r, s, prev, prev', pos, pos);
  }

  /** The symbols of one rendered row: the commit in its column, whether it is the first or a merge, and which
      of the columns there were shift left. */
  ghost predicate Drawn(symbols: seq<Symbol>, position: nat, parents: seq<Option<Id>>, row: Row, prev: Row)
    requires |row| == |prev|
  {
    && OneCommitAt(symbols, position)
    && forall k :: 0 <= k < |symbols| ==>
         && (symbols[k].initial <==> NoneOf(parents))
         && (symbols[k].merge <==> Two(parents))
         && (symbols[k].shiftLeft <==> k < |row| && ShiftLeft(row, prev, k))
  }

  /** One rendered row has exactly one commit symbol, in the given column. */
  ghost predicate OneCommitAt(symbols: seq<Symbol>, position: nat)
  {
    position < |symbols| && forall k :: 0 <= k < |symbols| ==> (symbols[k].commit <==> k == position)
  }

  class GraphV2 {
    var row: Row
    var parents: Row
    var prevRow: Row
    var nextRow: Row
    var position: nat
    var prevPosition: nat
    var id: Id
    var hasParents: bool
    var isBoundary: bool

    /** The three rows have one length. */
    ghost predicate SameLength()
      reads this
    {
      |row| == |prevRow| == |nextRow|
    }

    /** Between two commits: the next row is the row, gaps have been filled, and empty columns
        at the end have been trimmed. */
    ghost predicate Valid()
      reads this
    {
      && SameLength()
      && nextRow == row
      && EmptiesLast(row)
      && (|row| > 1 ==> HasCommit(row[|row| - 1]))
      && parents == [] && position == 0
    }

    constructor ()
      ensures Valid() && row == []
    {
      row, parents, prevRow, nextRow := [], [], [], [];
      position, prevPosition := 0, 0;
      id, hasParents, isBoundary := "", false, false;
    }

    /** `graph_find_column_by_id` */
    method FindColumnById(r: Row, wanted: Id) returns (pos: nat)
      ensures wanted !in Ids(r) ==> pos == FirstFree(r)
      ensures wanted in Ids(r) ==>
        pos < |r| && r[pos].id == Some(wanted) && forall k :: 0 <= k < pos ==> r[k].id != Some(wanted)
    {
      var freeColumn := |r|;
      var i := 0;
      while i < |r|
        invariant 0 <= i <= |r|
        invariant forall k :: 0 <= k < i ==> r[k].id != Some(wanted)
        invariant freeColumn == if FirstFree(r) < i then FirstFree(r) else |r|
      {
        if !HasCommit(r[i]) && freeColumn == |r| {
          freeColumn := i;
        } else if r[i].id == Some(wanted) {
          return i;
        }
        i := i + 1;
      }
      return freeColumn;
    }

    /** `graph_add_parent` */
    method AddParent(parent: Option<Id>)
      modifies this`parents
      ensures parents == if hasParents then old(parents)
        else old(parents) + [Column(NO_SYMBOL.(boundary := isBoundary), parent)]
    {
      if hasParents {
        return;
      }
      parents := parents + [Column(NO_SYMBOL.(boundary := isBoundary), parent)];
    }

    /** `graph_add_commit` */
    method AddCommit(c: Commit)
      requires Valid()
      modifies `position, `id, `isBoundary, `hasParents, `parents
      ensures id == c.id && isBoundary == c.boundary && hasParents == (|c.Parents()| > 0)
      ensures IdsOf(parents) == c.Parents() && Ids(parents) == ParentIds(c.Parents())
      ensures if c.id in Ids(row) then position < |row| && row[position].id == Some(c.id)
        else position == FirstFree(row)
    {
      hide ParentsIn;
      position := FindColumnById(row, c.id);
      id := c.id;
      isBoundary := c.boundary;
      hasParents := false;
      var n := AddParents(c.ids);
      hasParents := n > 0;
      SameParents(parents, c.Parents());
    }

    /** The loop of `graph_add_commit`: a parent behind every space. */
    method AddParents(ids: string) returns (n: nat)
      requires !hasParents && parents == []
      modifies `parents
      ensures n == |parents| == |ParentsIn(ids)|
      ensures forall k :: 0 <= k < n ==> parents[k].id == ParentsIn(ids)[k]
    {
      hide Rev, ParentsIn, FirstBlank, SameIds;
      var rest := ids;
      ghost var found: seq<Option<Id>> := [];
      n := 0;
      assert SameIds(parents, found) by { NoneYet(); }
      while FirstBlank(rest) < |rest|
        invariant n == |parents| && SameIds(parents, found)
        invariant found + ParentsIn(rest) == ParentsIn(ids)
        decreases |rest|
      {
        NextParent(found, rest);
        rest := rest[FirstBlank(rest) + 1..];
        ghost var before := parents;
        AddWord(rest);
        SameOn(before, found, Column(NO_SYMBOL.(boundary := isBoundary), Rev(rest)));
        found := found + [Rev(rest)];
        n := n + 1;
      }
      NextParent(found, rest);
      SameAll(parents, found);
    }

    /** The body of that loop. */
    method AddWord(rest: string)
      requires !hasParents
      modifies `parents
      ensures parents == old(parents) + [Column(NO_SYMBOL.(boundary := isBoundary), Rev(rest))]
    {
      hide Rev;
      var parent := CopyRev(rest);
      AddParent(if parent != "" then Some(parent) else None);
    }

    /** `string_copy_rev` into a cleared buffer. */
    method CopyRev(src: string) returns (dst: string)
      ensures Rev(src) == if dst == "" then None else Some(dst)
    {
      hide Word;
      var srclen: nat := 0;
      assert src[0..] == src;
      while srclen < SIZEOF_REV && srclen < |src| && !IsSpace(src[srclen])
        invariant srclen <= SIZEOF_REV && srclen <= |src|
        invariant Word(src) == src[..srclen] + Word(src[srclen..])
      {
        WordStep(src, srclen);
        srclen := srclen + 1;
      }
      WordStep(src, srclen);
      assert srclen < SIZEOF_REV ==> Word(src) == src[..srclen];
      assert srclen == SIZEOF_REV ==> Word(src)[..SIZEOF_REV - 1] == src[..SIZEOF_REV - 1];
      dst := if srclen > SIZEOF_REV - 1 then src[..SIZEOF_REV - 1] else src[..srclen];
    }

    /** `graph_expand` */
    method Expand()
      requires SameLength() && nextRow == row && EmptiesLast(row)
      modifies `row, `prevRow, `nextRow
      ensures SameLength() && nextRow == row && EmptiesLast(row) && position + |parents| <= |row|
      ensures old(row) <= row && old(prevRow) <= prevRow && Ids(row) == Ids(old(row))
      ensures forall k :: |old(row)| <= k < |row| ==> row[k].id == None
    {
      while position + |parents| > |row|
        invariant SameLength() && nextRow == row && EmptiesLast(row)
        invariant old(prevRow) <= prevRow
        invariant old(row) <= row && Ids(row) == Ids(old(row))
        invariant forall k :: |old(row)| <= k < |row| ==> row[k].id == None
        decreases position + |parents| - |row|
      {
        var blank := Column(NO_SYMBOL.(boundary := isBoundary), None);
        prevRow := prevRow + [blank];
        IdsAppend(row, [blank]);
        row := row + [blank];
        nextRow := nextRow + [blank];
      }
    }

    /** `graph_row_clear_commit` on the next row */
    method ClearCommit()
      modifies `nextRow
      ensures nextRow == Cleared(old(nextRow), id)
    {
      var was := nextRow;
      var i := 0;
      while i < |nextRow|
        invariant 0 <= i <= |nextRow| == |was|
        invariant forall k :: 0 <= k < |was| ==> nextRow[k] == if k < i then Cleared(was, id)[k] else was[k]
      {
        if nextRow[i].id == Some(id) {
          nextRow := nextRow[i := nextRow[i].(id := None)];
        }
        i := i + 1;
      }
    }

    /** `graph_find_free_column` */
    method FindFreeColumn(r: Row) returns (pos: nat)
      ensures pos == FirstFree(r)
    {
      pos := 0;
      while pos < |r|
        invariant pos <= |r| && pos <= FirstFree(r)
      {
        if !HasCommit(r[pos]) {
          return;
        }
        pos := pos + 1;
      }
    }

    /** `graph_insert_parents` */
    method InsertParents()
      requires SameLength()
      modifies `nextRow, `row, `prevRow
      ensures SameLength() && nextRow == WithParents(old(nextRow), parents, isBoundary)
      ensures old(row) <= row && old(prevRow) <= prevRow
      ensures forall k :: |old(row)| <= k < |row| ==> row[k].id == None && prevRow[k].id == None
    {
      var i := 0;
      assert parents[..0] == [];
      while i < |parents|
        invariant 0 <= i <= |parents| && SameLength()
        invariant nextRow == WithParents(old(nextRow), parents[..i], isBoundary)
        invariant old(row) <= row && old(prevRow) <= prevRow
        invariant forall k :: |old(row)| <= k < |row| ==> row[k].id == None && prevRow[k].id == None
      {
        var parent := parents[i];
        assert parents[..i + 1][..i] == parents[..i];
        if HasCommit(parent) {
          var free := FindFreeColumn(nextRow);
          if free == |nextRow| {
            var blank := Column(NO_SYMBOL.(boundary := isBoundary), None);
            nextRow := nextRow + [blank.(id := parent.id)];
            row := row + [blank];
            prevRow := prevRow + [blank];
          } else {
            nextRow := nextRow[free := parent];
          }
        }
        i := i + 1;
      }
      assert parents[..i] == parents;
    }

    /** `commit_is_in_row` */
    method CommitIsInRow(wanted: Option<Id>, r: Row) returns (found: bool)
      ensures found <==> wanted.Some? && wanted.value in Ids(r)
    {
      var i := 0;
      while i < |r|
        invariant 0 <= i <= |r|
        invariant forall k :: 0 <= k < i ==> !HasCommit(r[k]) || r[k].id != wanted
      {
        if HasCommit(r[i]) && wanted == r[i].id {
          return true;
        }
        i := i + 1;
      }
      return false;
    }

    /** `graph_remove_collapsed_columns` */
    method RemoveCollapsedColumns()
      requires SameLength()
      modifies `nextRow
      ensures nextRow == Collapsed(old(nextRow), Context(position, id, parents, prevRow))
    {
      var was := nextRow;
      ghost var x := Context(position, id, parents, prevRow);
      var i := |nextRow| - 1;
      while i > 0
        invariant |nextRow| == |was| && (i == -1 ==> was == []) && -1 <= i < |was|
        invariant forall k :: 0 <= k < |was| ==> nextRow[k] == if k <= i then was[k] else NextKept(was, x, k)
      {
        var skip := i == position || i == position + 1 || nextRow[i].id == Some(id) ||
          nextRow[i].id != nextRow[i - 1].id;
        if !skip {
          var awaited := CommitIsInRow(nextRow[i].id, parents);
          if !(awaited && !HasCommit(prevRow[i])) {
            if nextRow[i - 1].id != prevRow[i - 1].id || prevRow[i - 1].symbol.shiftLeft {
              assert Removable(was, x, i);
              if i + 1 >= |nextRow| {
                nextRow := nextRow[i := EMPTY];
              } else {
                nextRow := nextRow[i := nextRow[i + 1]];
              }
            }
          }
        }
        i := i - 1;
      }
    }

    /** `graph_fill_empty_columns` */
    method FillEmptyColumns()
      modifies `nextRow
      ensures nextRow == Filled(old(nextRow))
    {
      var was := nextRow;
      var i := |nextRow| - 2;
      while i >= 0
        invariant |nextRow| == |was| && -2 <= i < |was| && (i == -2 ==> was == []) && (i == -1 ==> |was| > 0)
        invariant forall k :: 0 <= k < |was| ==> nextRow[k] == if k <= i then was[k] else NextUsed(was, k)
      {
        if !HasCommit(nextRow[i]) {
          nextRow := nextRow[i := nextRow[i + 1]];
        }
        i := i - 1;
      }
    }

    /** `graph_generate_next_row`: the four passes keep the pending set exact. */
    method GenerateNextRow()
      requires SameLength() && nextRow == row && |row| > 0
      modifies `nextRow, `row, `prevRow
      ensures SameLength() && EmptiesLast(nextRow) && |old(row)| <= |row|
      ensures Ids(nextRow) == Ids(old(row)) - {id} + Ids(parents)
      ensures var full := WithParents(Cleared(old(row), id), parents, isBoundary);
              |full| == |prevRow| && nextRow == Filled(Collapsed(full, Context(position, id, parents, prevRow)))
      ensures old(row) <= row && old(prevRow) <= prevRow
      ensures forall k :: |old(row)| <= k < |row| ==> row[k].id == None
    {
      hide Ids, Collapsed, Filled, WithParents, Cleared, EmptiesLast;
      ClearedIds(nextRow, id);
      ClearCommit();
      WithParentsIds(nextRow, parents, isBoundary);
      InsertParents();
      CollapsedIds(nextRow, Context(position, id, parents, prevRow));
      RemoveCollapsedColumns();
      FilledIds(nextRow);
      FillEmptyColumns();
    }

    /** `graph_generate_symbols`, for the symbol fields that are part of this model. */
    method GenerateSymbols() returns (canvas: seq<Symbol>)
      requires SameLength() && position < |row|
      modifies `row
      ensures |row| == |old(row)| == |canvas| && OneCommitAt(canvas, position)
      ensures forall k :: 0 <= k < |row| ==> row[k] == Column(canvas[k], old(row)[k].id)
      ensures forall k :: 0 <= k < |row| ==>
                canvas[k] == Symbol(k == position, k == position && nextRow[k].symbol.boundary,
                                    Commits(parents) < 1, Commits(parents) > 1, ShiftLeft(old(row), prevRow, k))
    {
      var was := row;
      var commits := Commits(parents);
      var initial := commits < 1;
      var merge := commits > 1;
      canvas := [];
      var pos := 0;
      while pos < |row|
        invariant pos <= |row| == |was| && |canvas| == pos
        invariant forall k :: 0 <= k < |was| ==> row[k] == if k < pos then Column(canvas[k], was[k].id) else was[k]
        invariant forall k :: 0 <= k < pos ==>
                    canvas[k] == Symbol(k == position, k == position && nextRow[k].symbol.boundary,
                                        initial, merge, ShiftLeft(was, prevRow, k))
      {
        ShiftLeftIds(was, row, prevRow, pos);
        var symbol := Symbol(pos == position, pos == position && nextRow[pos].symbol.boundary,
                             initial, merge, ShiftLeft(row, prevRow, pos));
        row := row[pos := row[pos].(symbol := symbol)];
        canvas := canvas + [symbol];
        pos := pos + 1;
      }
    }

    /** `graph_commit_next_row` */
    method CommitNextRow()
      requires SameLength()
      modifies `row, `prevRow, `prevPosition
      ensures SameLength() && row == nextRow && prevPosition == position
      ensures forall k :: 0 <= k < |row| ==>
                prevRow[k] == if (k == position && Commits(parents) > 0) || !HasCommit(old(row)[k]) then nextRow[k]
                  else old(row)[k]
    {
      var was := row;
      var i := 0;
      while i < |row|
        invariant 0 <= i <= |row| && SameLength() && |was| == |row|
        invariant forall k :: 0 <= k < |row| ==> row[k] == if k < i then nextRow[k] else was[k]
        invariant forall k :: 0 <= k < i ==>
                    prevRow[k] == if (k == position && Commits(parents) > 0) || !HasCommit(was[k]) then nextRow[k]
                      else was[k]
      {
        prevRow := prevRow[i := row[i]];
        if i == position && Commits(parents) > 0 {
          prevRow := prevRow[i := nextRow[i]];
        }
        if !HasCommit(prevRow[i]) {
          prevRow := prevRow[i := nextRow[i]];
        }
        row := row[i := nextRow[i]];
        i := i + 1;
      }
      prevPosition := position;
    }

    /** `graph_collapse` */
    method Collapse()
      requires SameLength() && nextRow == row && EmptiesLast(row)
      modifies `row, `prevRow, `nextRow
      ensures SameLength() && nextRow == row && EmptiesLast(row)
      ensures |row| > 1 ==> HasCommit(row[|row| - 1])
      ensures row <= old(row) && Ids(row) == Ids(old(row))
    {
      while |row| > 1 && !HasCommit(row[|row| - 1])
        invariant SameLength() && nextRow == row && EmptiesLast(row)
        invariant row <= old(row) && Ids(row) == Ids(old(row))
        decreases |row|
      {
        var n := |row| - 1;
        assert row == row[..n] + [row[n]];
        IdsAppend(row[..n], [row[n]]);
        prevRow := prevRow[..n];
        row := row[..n];
        nextRow := nextRow[..n];
      }
    }

    /** `graph_render_parents`: one step of the state machine after `graph_add_commit`. */
    method RenderParents() returns (canvas: seq<Symbol>)
      requires SameLength() && nextRow == row && EmptiesLast(row)
      requires |parents| == 0 ==> !hasParents
      requires position <= |row|
      modifies this
      ensures Valid()
      ensures Ids(row) == Ids(old(row)) - {old(id)} + Ids(old(parents))
      ensures Drawn(canvas, old(position), IdsOf(old(parents)), old(row), old(prevRow))
    {
      hide Ids, EmptiesLast, Commits, ShiftLeft, Drawn;
      ghost var row0, prev0, ids0 := row, prevRow, IdsOf(parents);
      if |parents| == 0 {
        AddParent(None);
        NoId();
      }
      Expand();
      GenerateNextRow();
      ghost var wide, prev := row, prevRow;
      canvas := GenerateSymbols();
      DrawnRow(canvas, position, parents, ids0, row0, wide, prev0, prev);
      CommitNextRow();
      parents, position := [], 0;
      Collapse();
    }

    /** One commit: the two calls the views make for it. */
    method Show(c: Commit) returns (canvas: seq<Symbol>, ghost at: nat)
      requires Valid()
      modifies this
      ensures Valid()
      ensures Ids(row) == Ids(old(row)) - {c.id} + ParentIds(c.Parents())
      ensures Drawn(canvas, at, c.Parents(), old(row), old(prevRow))
      ensures if c.id in Ids(old(row)) then at < |old(row)| && old(row)[at].id == Some(c.id)
        else at == FirstFree(old(row))
    {
      AddCommit(c);
      at := position;
      canvas := RenderParents();
    }

    /** Any history: the row is always the frontier of pending parents. */
    method Run(commits: seq<Commit>)
      requires Valid() && row == []
      modifies this
      ensures Valid() && Ids(row) == Frontier(commits)
      ensures ChildrenFirst(commits) ==> Ids(row) == AllParents(commits) - Shown(commits)
    {
      hide Ids;
      NoId();
      var i := 0;
      while i < |commits|
        invariant 0 <= i <= |commits| && Valid() && Ids(row) == Frontier(commits[..i])
      {
        var canvas, at := Show(commits[i]);
        assert commits[..i + 1][..i] == commits[..i];
        i := i + 1;
      }
      assert commits[..i] == commits;
      if ChildrenFirst(commits) { FrontierIsPending(commits); }
    }
  }

  function IdsOf(row: Row): seq<Option<Id>>
  {
    seq(|row|, k requires 0 <= k < |row| => row[k].id)
  }

  /** The empty parent that stands for none changes neither test. */
  lemma OnlyNone()
    ensures NoneOf([]) && NoneOf([None]) && !Two([]) && !Two([None])
  {
  }

  lemma DrawnRow(symbols: seq<Symbol>, position: nat, parents: Row, ids: seq<Option<Id>>, r: Row, s: Row, prev: Row,
    prev': Row)
    requires |r| == |prev| <= |s| == |prev'| == |symbols| && r <= s && prev <= prev'
    requires forall k :: |r| <= k < |s| ==> s[k].id == None
    requires IdsOf(parents) == ids || (ids == [] && IdsOf(parents) == [None])
    requires OneCommitAt(symbols, position)
    requires forall k :: 0 <= k < |s| ==>
      && symbols[k].initial == (Commits(parents) < 1) && symbols[k].merge == (Commits(parents) > 1)
      && symbols[k].shiftLeft == ShiftLeft(s, prev', k)
    ensures Drawn(symbols, position, ids, r, prev)
  {
    hide Commits, ShiftLeft, NoneOf, Two;
    CommitsExactly(parents, IdsOf(parents));
    OnlyNone();
    WideShifts(r, s, prev, prev');
  }

  lemma WideShifts(r: Row, s: Row, prev: Row, prev': Row)
    requires |r| == |prev| <= |s| == |prev'| && r <= s && prev <= prev'
    requires forall k :: |r| <= k < |s| ==> s[k].id == None
    ensures forall k :: 0 <= k < |s| ==> (ShiftLeft(s, prev', k) <==> k < |r| && ShiftLeft(r, prev, k))
  {
    forall k | 0 <= k < |s| ensures ShiftLeft(s, prev', k) <==> k < |r| && ShiftLeft(r, prev, k) {
      if k < |r| { ShiftLeftPrefix(r, s, prev, prev', k); }
    }
  }

  lemma NoId()
    ensures Ids([]) == {}
    ensures forall s: Symbol :: Ids([Column(s, None)]) == {}
  {
  }

  ghost predicate SameIds(parents: Row, ids: seq<Option<Id>>)
  {
    |parents| == |ids| && forall k :: 0 <= k < |ids| ==> parents[k].id == ids[k]
  }

  lemma SameOn(parents: Row, ids: seq<Option<Id>>, c: Column)
    requires SameIds(parents, ids)
    ensures SameIds(parents + [c], ids + [c.id])
  {
  }

  lemma NoneYet()
    ensures SameIds([], [])
  {
  }

  lemma SameAll(parents: Row, ids: seq<Option<Id>>)
    requires SameIds(parents, ids)
    ensures |parents| == |ids| && forall k :: 0 <= k < |ids| ==> parents[k].id == ids[k]
  {
  }

  lemma SameParents(parents: Row, ids: seq<Option<Id>>)
    requires |parents| == |ids| && forall k :: 0 <= k < |ids| ==> parents[k].id == ids[k]
    ensures Ids(parents) == ParentIds(ids)
  {
    forall v | v in ParentIds(ids) ensures v in Ids(parents) {
      var k :| 0 <= k < |ids| && ids[k] == Some(v);
      assert parents[k].id == Some(v);
    }
  }

  /** Whether a column shifts left depends on the ids of the row, not on its symbols. */
  lemma {:induction false} ShiftLeftFromIds(r: Row, s: Row, prev: Row, pos: nat, i: nat)
    requires i <= pos < |r| == |s| == |prev| && forall k :: 0 <= k < |r| ==> r[k].id == s[k].id
    ensures ShiftLeftFrom(r, prev, pos, i) == ShiftLeftFrom(s, prev, pos, i)
  {
    if i > 0 { ShiftLeftFromIds(r, s, prev, pos, i - 1); }
  }

  lemma ShiftLeftIds(r: Row, s: Row, prev: Row, pos: nat)
    requires pos < |r| == |s| == |prev| && forall k :: 0 <= k < |r| ==> r[k].id == s[k].id
    ensures ShiftLeft(r, prev, pos) == ShiftLeft(s, prev, pos)
  {
    ShiftLeftFromIds(r, s, prev, pos, pos);
  }
}
