/** The rows of the revision graph of src/graph-v2.c, as values: what each pass over the next
    row means, and why the set of pending commits comes out right. */
module GraphRows {
  import opened Common

  /** An interned commit id; `None` stands for the null pointer of an empty column. */
  type Id = string

  /** The parts of `struct graph_symbol` that the row computation sets or reads. */
  datatype Symbol = Symbol(commit: bool, boundary: bool, initial: bool, merge: bool, shiftLeft: bool)

  datatype Column = Column(symbol: Symbol, id: Option<Id>)

  type Row = seq<Column>

  const NO_SYMBOL: Symbol := Symbol(false, false, false, false, false)
  const EMPTY: Column := Column(NO_SYMBOL, None)

  /** `graph_column_has_commit` */
  predicate HasCommit(c: Column)
  {
    c.id.Some?
  }

  /** The commits a row is waiting for. */
  function Ids(row: Row): set<Id>
  {
    set c | c in row && HasCommit(c) :: c.id.value
  }

  lemma IdsAppend(a: Row, b: Row)
    ensures Ids(a + b) == Ids(a) + Ids(b)
  {
  }

  /** Writing over an empty column adds what is written. */
  lemma IdsFill(row: Row, i: nat, c: Column)
    requires i < |row| && !HasCommit(row[i])
    ensures Ids(row[i := c]) == Ids(row) + Ids([c])
  {
    assert row == row[..i] + [row[i]] + row[i + 1..];
    assert row[i := c] == row[..i] + [c] + row[i + 1..];
    IdsAppend(row[..i] + [row[i]], row[i + 1..]);
    IdsAppend(row[..i], [row[i]]);
    IdsAppend(row[..i] + [c], row[i + 1..]);
    IdsAppend(row[..i], [c]);
  }

  // ----- looking up columns -----

  /** `graph_find_free_column`: the first empty column, or one past the end. */
  function FirstFree(row: Row): (i: nat)
    ensures i <= |row|
    ensures i < |row| ==> !HasCommit(row[i])
    ensures forall k :: 0 <= k < i ==> HasCommit(row[k])
  {
    if |row| == 0 || !HasCommit(row[0]) then 0
    else
      var r := FirstFree(row[1..]);
      assert forall k :: 1 <= k < r + 1 ==> row[k] == row[1..][k - 1];
      r + 1
  }

  /** No empty column to the left of a used one. */
  ghost predicate EmptiesLast(row: Row)
  {
    forall i, j :: 0 <= i < j < |row| && HasCommit(row[j]) ==> HasCommit(row[i])
  }

  // ----- the four passes of graph_generate_next_row -----

  /** `graph_row_clear_commit` */
  function Cleared(row: Row, id: Id): (r: Row)
    ensures |r| == |row|
  {
    seq(|row|, i requires 0 <= i < |row| => if row[i].id == Some(id) then row[i].(id := None) else row[i])
  }

  lemma ClearedIds(row: Row, id: Id)
    ensures Ids(Cleared(row, id)) == Ids(row) - {id}
  {
    var r := Cleared(row, id);
    forall x | x in Ids(row) - {id}
      ensures x in Ids(r)
    {
      var i :| 0 <= i < |row| && row[i].id == Some(x);
      assert r[i].id == Some(x);
    }
  }

  /** One turn of `graph_insert_parents`: the first empty column, or a new last one. */
  function WithParent(row: Row, p: Column, boundary: bool): Row
  {
    if !HasCommit(p) then row
    else if FirstFree(row) < |row| then row[FirstFree(row) := p]
    else row + [Column(NO_SYMBOL.(boundary := boundary), p.id)]
  }

  function WithParents(row: Row, parents: Row, boundary: bool): Row
  {
    if |parents| == 0 then row
    else WithParent(WithParents(row, parents[..|parents| - 1], boundary), parents[|parents| - 1], boundary)
  }

  lemma {:induction false} WithParentsIds(row: Row, parents: Row, boundary: bool)
    ensures Ids(WithParents(row, parents, boundary)) == Ids(row) + Ids(parents)
    ensures |row| <= |WithParents(row, parents, boundary)| <= |row| + |parents|
  {
    if |parents| > 0 {
      var n := |parents| - 1;
      var before := WithParents(row, parents[..n], boundary);
      var p := parents[n];
      WithParentsIds(row, parents[..n], boundary);
      assert parents == parents[..n] + [p];
      IdsAppend(parents[..n], [p]);
      if HasCommit(p) {
        if FirstFree(before) < |before| {
          IdsFill(before, FirstFree(before), p);
        } else {
          IdsAppend(before, [Column(NO_SYMBOL.(boundary := boundary), p.id)]);
          assert Ids([Column(NO_SYMBOL.(boundary := boundary), p.id)]) == Ids([p]);
        }
      } else {
        assert Ids([p]) == {};
      }
    }
  }

  /** What `graph_remove_collapsed_columns` looks at besides the next row. */
  datatype Context = Context(position: nat, id: Id, parents: Row, prev: Row)

  /** The column repeats its left neighbour and may be dropped. */
  predicate Removable(row: Row, x: Context, i: nat)
    requires i < |row| && |x.prev| == |row|
  {
    && i > 0
    && i != x.position
    && i != x.position + 1
    && row[i].id != Some(x.id)
    && row[i].id == row[i - 1].id
    && !(HasCommit(row[i]) && row[i].id.value in Ids(x.parents) && !HasCommit(x.prev[i]))
    && (row[i - 1].id != x.prev[i - 1].id || x.prev[i - 1].symbol.shiftLeft)
  }

  /** The nearest column from i on that is not dropped; an empty one if there is none. */
  function NextKept(row: Row, x: Context, i: nat): Column
    requires i <= |row| && |x.prev| == |row|
    decreases |row| - i
  {
    if i == |row| then EMPTY
    else if Removable(row, x, i) then NextKept(row, x, i + 1)
    else row[i]
  }

  /** The meaning of the pass: every dropped column takes the nearest kept one to its right. */
  function Collapsed(row: Row, x: Context): (r: Row)
    requires |x.prev| == |row|
    ensures |r| == |row|
  {
    seq(|row|, i requires 0 <= i < |row| => NextKept(row, x, i))
  }

  lemma {:induction false} NextKeptFrom(row: Row, x: Context, i: nat)
    requires i <= |row| && |x.prev| == |row|
    ensures NextKept(row, x, i) == EMPTY || NextKept(row, x, i) in row
    decreases |row| - i
  {
    if i < |row| && Removable(row, x, i) { NextKeptFrom(row, x, i + 1); }
  }

  /** A used column survives a run of repetitions: its leftmost copy is kept. */
  lemma {:induction false} CopySurvives(row: Row, x: Context, i: nat)
    requires i < |row| && |x.prev| == |row| && HasCommit(row[i])
    ensures row[i].id.value in Ids(Collapsed(row, x))
  {
    if Removable(row, x, i) {
      CopySurvives(row, x, i - 1);
    } else {
      assert Collapsed(row, x)[i] == row[i];
    }
  }

  lemma CollapsedIds(row: Row, x: Context)
    requires |x.prev| == |row|
    ensures Ids(Collapsed(row, x)) == Ids(row)
  {
    var r := Collapsed(row, x);
    forall v | v in Ids(r) ensures v in Ids(row) {
      var i :| 0 <= i < |r| && r[i].id == Some(v);
      NextKeptFrom(row, x, i);
    }
    forall v | v in Ids(row) ensures v in Ids(r) {
      var i :| 0 <= i < |row| && row[i].id == Some(v);
      CopySurvives(row, x, i);
    }
  }

  /** The nearest used column from i on, or the last column. */
  function NextUsed(row: Row, i: nat): Column
    requires i < |row|
    decreases |row| - i
  {
    if HasCommit(row[i]) || i == |row| - 1 then row[i] else NextUsed(row, i + 1)
  }

  /** `graph_fill_empty_columns`: every gap is filled from its right. */
  function Filled(row: Row): (r: Row)
    ensures |r| == |row|
  {
    seq(|row|, i requires 0 <= i < |row| => NextUsed(row, i))
  }

  lemma {:induction false} NextUsedFrom(row: Row, i: nat)
    requires i < |row|
    ensures NextUsed(row, i) in row
    ensures !HasCommit(NextUsed(row, i)) ==> forall k :: i <= k < |row| ==> !HasCommit(row[k])
    decreases |row| - i
  {
    if !(HasCommit(row[i]) || i == |row| - 1) { NextUsedFrom(row, i + 1); }
  }

  /** Filling keeps the commits and leaves empty columns at the end only. */
  lemma FilledIds(row: Row)
    ensures Ids(Filled(row)) == Ids(row)
    ensures EmptiesLast(Filled(row))
  {
    var r := Filled(row);
    forall v | v in Ids(r) ensures v in Ids(row) {
      var i :| 0 <= i < |r| && r[i].id == Some(v);
      NextUsedFrom(row, i);
    }
    forall v | v in Ids(row) ensures v in Ids(r) {
      var i :| 0 <= i < |row| && row[i].id == Some(v);
      assert r[i] == row[i];
    }
    forall i, j | 0 <= i < j < |r| && HasCommit(r[j])
      ensures HasCommit(r[i])
    {
      NextUsedFrom(row, i);
      NextUsedFrom(row, j);
      if !HasCommit(r[i]) {
        NextUsedEmpty(row, j);
      }
    }
  }

  lemma {:induction false} NextUsedEmpty(row: Row, j: nat)
    requires j < |row| && forall k :: j <= k < |row| ==> !HasCommit(row[k])
    ensures !HasCommit(NextUsed(row, j))
    decreases |row| - j
  {
    if j < |row| - 1 { NextUsedEmpty(row, j + 1); }
  }

  // ----- one step, and whole runs -----

  /** `SIZEOF_REV` */
  const SIZEOF_REV := 41

  /** `strchr(s, ' ')`, with the length for not found. */
  function FirstBlank(s: string): (k: nat)
    ensures k <= |s| && (k < |s| ==> s[k] == ' ')
    ensures forall j :: 0 <= j < k ==> s[j] != ' '
  {
    if s == "" || s[0] == ' ' then 0 else 1 + FirstBlank(s[1..])
  }

  /** The characters in front of the first white space. */
  function Word(s: string): string
  {
    if s == "" || IsSpace(s[0]) then "" else [s[0]] + Word(s[1..])
  }

  lemma WordStep(s: string, k: nat)
    requires k <= |s|
    ensures Word(s[k..]) == if k == |s| || IsSpace(s[k]) then "" else [s[k]] + Word(s[k + 1..])
  {
    if k < |s| { assert s[k..][1..] == s[k + 1..]; }
  }

  /** `string_copy_rev`: a word, cut to what a `SIZEOF_REV` buffer holds; an empty one stands for no
      commit. */
  function Rev(s: string): Option<Id>
  {
    var w := Word(s);
    if w == "" then None else Some(if |w| < SIZEOF_REV then w else w[..SIZEOF_REV - 1])
  }

  /** The parents in a line of ids: one behind every space. */
  function ParentsIn(ids: string): seq<Option<Id>>
    decreases |ids|
  {
    var k := FirstBlank(ids);
    if k == |ids| then [] else [Rev(ids[k + 1..])] + ParentsIn(ids[k + 1..])
  }

  lemma NextParent(found: seq<Option<Id>>, rest: string)
    ensures var k := FirstBlank(rest);
      found + ParentsIn(rest) == if k == |rest| then found else found + [Rev(rest[k + 1..])] + ParentsIn(rest[k + 1..])
  {
    hide Rev, FirstBlank;
    var k := FirstBlank(rest);
    if k < |rest| { Associates(found, [Rev(rest[k + 1..])], ParentsIn(rest[k + 1..])); }
  }

  /** A line as git prints it. */
  function IdLine(id: Id, parents: seq<Id>): string
    decreases |parents|
  {
    if parents == [] then id else id + (" " + IdLine(parents[0], parents[1..]))
  }

  predicate IsRev(id: Id)
  {
    0 < |id| < SIZEOF_REV && forall i :: 0 <= i < |id| ==> !IsSpace(id[i])
  }

  lemma {:induction false} WordOf(w: string, rest: string)
    requires (forall i :: 0 <= i < |w| ==> !IsSpace(w[i])) && (rest == "" || IsSpace(rest[0]))
    ensures Word(w + rest) == w
  {
    if w == "" {
      assert w + rest == rest;
    } else {
      assert (w + rest)[1..] == w[1..] + rest;
      WordOf(w[1..], rest);
    }
  }

  lemma {:induction false} BlankOf(w: string, rest: string)
    requires (forall i :: 0 <= i < |w| ==> !IsSpace(w[i])) && (rest == "" || rest[0] == ' ')
    ensures FirstBlank(w + rest) == |w|
  {
    if w == "" {
      assert w + rest == rest;
    } else {
      assert (w + rest)[1..] == w[1..] + rest;
      BlankOf(w[1..], rest);
    }
  }

  function Present(parents: seq<Id>): seq<Option<Id>>
  {
    seq(|parents|, i requires 0 <= i < |parents| => Some(parents[i]))
  }

  lemma RevOf(id: Id, parents: seq<Id>)
    requires IsRev(id)
    ensures Rev(IdLine(id, parents)) == Some(id)
  {
    if parents == [] {
      assert id + "" == id;
      WordOf(id, "");
    } else {
      WordOf(id, " " + IdLine(parents[0], parents[1..]));
    }
  }

  /** Of a printed line of ids exactly the parents are read, in order. */
  lemma {:induction false} ParentsRoundTrip(id: Id, parents: seq<Id>)
    requires IsRev(id) && forall i :: 0 <= i < |parents| ==> IsRev(parents[i])
    ensures ParentsIn(IdLine(id, parents)) == Present(parents)
    decreases |parents|
  {
    hide Rev, FirstBlank, IsRev;
    if parents == [] {
      NoBlank(id);
    } else {
      var rest := IdLine(parents[0], parents[1..]);
      OneBlank(id, rest);
      RevOf(parents[0], parents[1..]);
      ParentsRoundTrip(parents[0], parents[1..]);
    }
  }

  lemma NoBlank(id: Id)
    requires IsRev(id)
    ensures FirstBlank(id) == |id|
  {
    assert id + "" == id;
    BlankOf(id, "");
  }

  lemma OneBlank(id: Id, rest: string)
    requires IsRev(id)
    ensures var s := id + (" " + rest);
      FirstBlank(s) == |id| < |s| && s[|id| + 1..] == rest
  {
    BlankOf(id, " " + rest);
  }

  /** A commit with the line of ids that lists its parents. */
  datatype Commit = Commit(id: Id, ids: string, boundary: bool)
  {
    function Parents(): seq<Option<Id>>
    {
      ParentsIn(ids)
    }
  }

  /** The ids among the parents of a commit. */
  function ParentIds(parents: seq<Option<Id>>): set<Id>
  {
    set p | p in parents && p.Some? :: p.value
  }

  /** The pending set after a run: each commit leaves it and its parents join it. */
  function Frontier(commits: seq<Commit>): set<Id>
  {
    if |commits| == 0 then {}
    else
      var last := commits[|commits| - 1];
      Frontier(commits[..|commits| - 1]) - {last.id} + ParentIds(last.Parents())
  }

  function Shown(commits: seq<Commit>): set<Id>
  {
    set c | c in commits :: c.id
  }

  function AllParents(commits: seq<Commit>): set<Id>
  {
    set i, p | 0 <= i < |commits| && p in commits[i].Parents() && p.Some? :: p.value
  }

  /** Children come before their parents, as `git log --topo-order` lists them. */
  ghost predicate ChildrenFirst(commits: seq<Commit>)
  {
    forall i, j :: 0 <= i <= j < |commits| ==> Some(commits[i].id) !in commits[j].Parents()
  }

  /** In such a listing the pending set is: every parent of a shown commit that has not been
      shown itself. */
  lemma {:induction false} FrontierIsPending(commits: seq<Commit>)
    requires ChildrenFirst(commits)
    ensures Frontier(commits) == AllParents(commits) - Shown(commits)
  {
    if |commits| == 0 {
    } else {
      var n := |commits| - 1;
      var before, last := commits[..n], commits[n];
      FrontierIsPending(before);
      assert commits == before + [last];
      assert Shown(commits) == Shown(before) + {last.id};
      AllParentsSnoc(before, last);
      forall i | 0 <= i < |commits|
        ensures commits[i].id !in ParentIds(last.Parents())
      {
        assert Some(commits[i].id) !in commits[n].Parents();
      }
    }
  }

  lemma AllParentsSnoc(before: seq<Commit>, last: Commit)
    ensures AllParents(before + [last]) == AllParents(before) + ParentIds(last.Parents())
  {
    var all := before + [last];
    forall v | v in AllParents(all) ensures v in AllParents(before) + ParentIds(last.Parents()) {
      var i, p :| 0 <= i < |all| && p in all[i].Parents() && p.Some? && p.value == v;
      if i < |before| { assert before[i] == all[i]; }
    }
    forall v | v in AllParents(before) ensures v in AllParents(all) {
      var i, p :| 0 <= i < |before| && p in before[i].Parents() && p.Some? && p.value == v;
      assert all[i] == before[i];
    }
    forall v | v in ParentIds(last.Parents()) ensures v in AllParents(all) {
      assert all[|before|] == last && Some(v) in last.Parents();
    }
  }
}
