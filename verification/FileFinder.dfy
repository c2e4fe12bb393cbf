/** The incremental file finder: src/ui.c:98-117 and src/ui.c:174-308. */
module FileFinder {
  import opened Common

  // ----- matching -----

  predicate OccursAt(text: string, p: nat, token: string)
  {
    p + |token| <= |text| && text[p..p + |token|] == token
  }

  /** `strstr`: the first place of the token at or behind p, or one past the end. */
  function Find(text: string, p: nat, token: string): (q: nat)
    requires p <= |text|
    ensures p <= q <= |text| + 1
    ensures q <= |text| ==> OccursAt(text, q, token)
    ensures forall k :: p <= k < q ==> !OccursAt(text, k, token)
    decreases |text| - p
  {
    if OccursAt(text, p, token) then p
    else if p == |text| then p + 1
    else Find(text, p + 1, token)
  }

  /** The tokens found one behind the other from p on, each at its first place. */
  function Greedy(text: string, p: nat, search: seq<string>): (n: nat)
    requires p <= |text|
    ensures n <= |search|
    decreases |search|
  {
    if p == |text| || search == [] then 0
    else
      var q := Find(text, p, search[0]);
      if q > |text| then 0 else 1 + Greedy(text, q + |search[0]|, search[1..])
  }

  /** The tokens occur from p on, in order and without overlap. */
  ghost predicate Contains(text: string, p: nat, search: seq<string>)
    requires p <= |text|
    decreases |search|
  {
    search == [] || exists q: nat ::
      p <= q && OccursAt(text, q, search[0]) && Contains(text, q + |search[0]|, search[1..])
  }

  /** The same, every token being looked for before the text is used up: the loop over the tokens also
      stops at the end of the text. */
  ghost predicate ContainsInside(text: string, p: nat, search: seq<string>)
    requires p <= |text|
    decreases |search|
  {
    search == [] ||
    (p < |text| && exists q: nat ::
      p <= q && OccursAt(text, q, search[0]) && ContainsInside(text, q + |search[0]|, search[1..]))
  }

  lemma InsideEarlier(text: string, p: nat, p': nat, search: seq<string>)
    requires p' <= p <= |text| && ContainsInside(text, p, search)
    ensures ContainsInside(text, p', search)
  {
  }

  /** Taking each token at its first place finds all of them whenever any choice of places does. */
  lemma {:induction false} GreedyFindsAll(text: string, p: nat, search: seq<string>)
    requires p <= |text|
    ensures Greedy(text, p, search) == |search| <==> ContainsInside(text, p, search)
    decreases |search|
  {
    if search != [] && p < |text| {
      var q := Find(text, p, search[0]);
      if q <= |text| {
        var next := q + |search[0]|;
        GreedyFindsAll(text, next, search[1..]);
        if ContainsInside(text, p, search) {
          var k: nat :| p <= k && OccursAt(text, k, search[0]) && ContainsInside(text, k + |search[0]|, search[1..]);
          assert q <= k;
          InsideEarlier(text, k + |search[0]|, next, search[1..]);
        }
      }
    }
  }

  lemma GreedyStep(text: string, p: nat, search: seq<string>, n: nat)
    requires p < |text| && n < |search|
    ensures var q := Find(text, p, search[n]);
      Greedy(text, p, search[n..]) == if q > |text| then 0 else 1 + Greedy(text, q + |search[n]|, search[n + 1..])
  {
    hide Find;
    assert search[n..][1..] == search[n + 1..];
  }

  lemma GreedyEnds(text: string, p: nat, search: seq<string>)
    requires p <= |text|
    ensures p == |text| || search == [] ==> Greedy(text, p, search) == 0
  {
  }

  predicate LastNonempty(search: seq<string>)
  {
    search == [] || search[|search| - 1] != ""
  }

  lemma {:induction false} RoomForLast(text: string, p: nat, search: seq<string>)
    requires p <= |text| && search != [] && LastNonempty(search) && Contains(text, p, search)
    ensures p < |text|
    decreases |search|
  {
    var q: nat :| p <= q && OccursAt(text, q, search[0]) && Contains(text, q + |search[0]|, search[1..]);
    if |search| > 1 {
      assert search[1..][|search| - 2] == search[|search| - 1];
      RoomForLast(text, q + |search[0]|, search[1..]);
    }
  }

  /** With a last token that is not empty, that is no restriction. */
  lemma {:induction false} NonemptyInside(text: string, p: nat, search: seq<string>)
    requires p <= |text| && LastNonempty(search)
    ensures ContainsInside(text, p, search) <==> Contains(text, p, search)
    decreases |search|
  {
    if search != [] {
      assert |search| > 1 ==> search[1..][|search| - 2] == search[|search| - 1];
      forall q: nat | p <= q && OccursAt(text, q, search[0])
        ensures ContainsInside(text, q + |search[0]|, search[1..]) <==> Contains(text, q + |search[0]|, search[1..])
      {
        NonemptyInside(text, q + |search[0]|, search[1..]);
      }
      if Contains(text, p, search) { RoomForLast(text, p, search); }
    }
  }

  /** The tokens one behind the other. */
  function Joined(search: seq<string>): string
  {
    if search == [] then "" else search[0] + Joined(search[1..])
  }

  lemma {:induction false} JoinedContains(text: string, p: nat, search: seq<string>)
    requires p <= |text| && text[p..] == Joined(search)
    ensures Contains(text, p, search)
    decreases |search|
  {
    if search != [] {
      var q := p + |search[0]|;
      assert text[p..q] == text[p..][..|search[0]|] == search[0];
      assert text[q..] == text[p..][|search[0]|..] == Joined(search[1..]);
      JoinedContains(text, q, search[1..]);
      assert OccursAt(text, p, search[0]);
    }
  }

  lemma {:induction false} InsideNeedsMore(text: string, p: nat, search: seq<string>)
    requires p <= |text| && !LastNonempty(search) && ContainsInside(text, p, search)
    ensures |text| - p > |Joined(search)|
    decreases |search|
  {
    var q: nat :| p <= q && OccursAt(text, q, search[0]) && ContainsInside(text, q + |search[0]|, search[1..]);
    if |search| > 1 {
      assert search[1..][|search| - 2] == search[|search| - 1];
      InsideNeedsMore(text, q + |search[0]|, search[1..]);
    } else {
      assert Joined(search) == search[0] + Joined([]);
    }
  }

  /** The greedy count finds all tokens in exactly the texts that contain them, if and only if the last
      token is not empty. */
  lemma CountExactly(search: seq<string>)
    ensures LastNonempty(search) <==>
      forall text: string :: Greedy(text, 0, search) == |search| <==> Contains(text, 0, search)
  {
    if LastNonempty(search) {
      forall text: string
        ensures Greedy(text, 0, search) == |search| <==> Contains(text, 0, search)
      {
        GreedyFindsAll(text, 0, search);
        NonemptyInside(text, 0, search);
      }
    } else {
      var text := Joined(search);
      assert text[0..] == text;
      JoinedContains(text, 0, search);
      GreedyFindsAll(text, 0, search);
      if ContainsInside(text, 0, search) { InsideNeedsMore(text, 0, search); }
      assert !(Greedy(text, 0, search) == |search| <==> Contains(text, 0, search));
    }
  }

  /** Fewer tokens: the count is cut to their number. */
  lemma {:induction false} GreedyOfPrefix(text: string, p: nat, search: seq<string>, n: nat)
    requires p <= |text| && n <= |search|
    ensures Greedy(text, p, search[..n]) == if Greedy(text, p, search) < n then Greedy(text, p, search) else n
    decreases n
  {
    hide Find;
    if p < |text| && n > 0 {
      assert search[..n][0] == search[0] && search[..n][1..] == search[1..][..n - 1];
      var q := Find(text, p, search[0]);
      if q <= |text| { GreedyOfPrefix(text, q + |search[0]|, search[1..], n - 1); }
    }
  }

  /** The searches before and after one key: a token more or less, or the same. */
  ghost predicate Neighbours(before: seq<string>, after: seq<string>)
  {
    || after == before
    || (|after| == |before| + 1 && after[..|before|] == before)
    || (|before| == |after| + 1 && before[..|after|] == after)
  }

  /** What an old count says about the new one: far below, it is the new one; at or above the number
      of tokens, all of them are found. */
  lemma CountCarries(text: string, before: seq<string>, after: seq<string>)
    requires Neighbours(before, after)
    ensures var m := Greedy(text, 0, before);
      && (m + 1 < |after| ==> Greedy(text, 0, after) == m)
      && (m >= |after| ==> Greedy(text, 0, after) == |after|)
  {
    if |after| > |before| { GreedyOfPrefix(text, 0, after, |before|); }
    if |before| > |after| { GreedyOfPrefix(text, 0, before, |after|); }
  }

  // ----- the finder -----

  class FileLine {
    const text: string
    var matches: nat

    constructor (text: string)
      ensures this.text == text && matches == 0
    {
      this.text, matches := text, 0;
    }

    /** `file_finder_line_matches` */
    method LineMatches(search: seq<string>) returns (n: nat)
      ensures n == Greedy(text, 0, search)
    {
      hide Greedy, Find;
      n := 0;
      var at: nat := 0;
      assert search[0..] == search;
      while at < |text| && n < |search|
        invariant at <= |text| && n <= |search|
        invariant Greedy(text, 0, search) == n + Greedy(text, at, search[n..])
        decreases |search| - n
      {
        GreedyStep(text, at, search, n);
        var q := Find(text, at, search[n]);
        if q > |text| { break; }
        at := q + |search[n]|;
        n := n + 1;
      }
      GreedyEnds(text, at, search[n..]);
    }
  }

  /** The files that contain all tokens, in order. */
  ghost function Listed(file: seq<FileLine>, search: seq<string>): seq<FileLine>
  {
    if file == [] then []
    else
      var f := file[|file| - 1];
      Listed(file[..|file| - 1], search) + if Greedy(f.text, 0, search) == |search| then [f] else []
  }

  /** No key gives an empty token. */
  predicate Typable(search: seq<string>)
  {
    forall i :: 0 <= i < |search| ==> search[i] != ""
  }

  /** The files whose names contain the tokens in order and without overlap, in the order of the files. */
  ghost function Matching(file: seq<FileLine>, search: seq<string>): seq<FileLine>
  {
    if file == [] then []
    else
      var f := file[|file| - 1];
      Matching(file[..|file| - 1], search) + if Contains(f.text, 0, search) then [f] else []
  }

  lemma {:induction false} ListedIsMatching(file: seq<FileLine>, search: seq<string>)
    requires Typable(search)
    ensures Listed(file, search) == Matching(file, search)
  {
    if file != [] {
      hide Greedy, Contains;
      ListedIsMatching(file[..|file| - 1], search);
      GreedyFindsAll(file[|file| - 1].text, 0, search);
      NonemptyInside(file[|file| - 1].text, 0, search);
    }
  }

  lemma ListedPush(file: seq<FileLine>, search: seq<string>, i: nat)
    requires i < |file|
    ensures Listed(file[..i + 1], search) ==
      Listed(file[..i], search) + if Greedy(file[i].text, 0, search) == |search| then [file[i]] else []
  {
    assert file[..i + 1][..i] == file[..i];
  }

  lemma {:induction false} ListedAreFiles(file: seq<FileLine>, search: seq<string>)
    ensures forall f :: f in Listed(file, search) <==> f in file && Greedy(f.text, 0, search) == |search|
  {
    if file != [] {
      ListedAreFiles(file[..|file| - 1], search);
      assert file == file[..|file| - 1] + [file[|file| - 1]];
    }
  }

  lemma {:induction false} ListedDistinct(file: seq<FileLine>, search: seq<string>)
    requires forall i, j :: 0 <= i < j < |file| ==> file[i] != file[j]
    ensures forall i, j :: 0 <= i < j < |Listed(file, search)| ==> Listed(file, search)[i] != Listed(file, search)[j]
  {
    hide Greedy;
    if file != [] {
      var n := |file| - 1;
      ListedDistinct(file[..n], search);
      ListedAreFiles(file[..n], search);
      forall i | 0 <= i < |Listed(file[..n], search)| ensures Listed(file[..n], search)[i] != file[n] {
        assert Listed(file[..n], search)[i] in Listed(file[..n], search);
      }
    }
  }

  /** The line behind the last one drawn. */
  function LastRow(offset: nat, lines: nat, height: nat): (end: nat)
    requires offset <= lines
    ensures offset <= end <= lines
    ensures forall k: nat :: offset <= k < end <==> k < lines && Drawn(offset, k, height)
  {
    if height == 0 then offset else if offset + height - 1 < lines then offset + height - 1 else lines
  }

  /** The place of a file, or the number of files. */
  ghost function PlaceOf(file: seq<FileLine>, f: FileLine?): (k: nat)
    ensures k <= |file| && (k < |file| ==> file[k] == f) && (k == |file| ==> f !in file)
  {
    if file == [] || file[0] == f then 0 else 1 + PlaceOf(file[1..], f)
  }

  /** A listed file stands behind the listed files in front of it. */
  lemma {:induction false} ListedAt(file: seq<FileLine>, search: seq<string>, k: nat)
    requires k < |file| && Greedy(file[k].text, 0, search) == |search|
    ensures |Listed(file[..k], search)| < |Listed(file, search)|
    ensures Listed(file, search)[|Listed(file[..k], search)|] == file[k]
  {
    var n := |file| - 1;
    assert file[..n][..k] == file[..k];
    if k < n { ListedAt(file[..n], search, k); }
  }

  class FileFinder {
    var file: seq<FileLine>
    var line: seq<FileLine>
    var search: seq<string>
    var lineno: nat
    var offset: nat
    const height: nat

    ghost predicate Cached(search: seq<string>)
      reads this, file
    {
      forall i :: 0 <= i < |file| ==> file[i].matches == Greedy(file[i].text, 0, search)
    }

    ghost predicate Distinct()
      reads this
    {
      forall i, j :: 0 <= i < j < |file| ==> file[i] != file[j]
    }

    /** Every cached count is that of a fresh count, the list holds exactly the files that match, and the
        selection is one of them and in a window of `height` rows from `offset` on.  The title covers
        the last of these rows. */
    ghost predicate Valid()
      reads this, file
    {
      && Distinct() && Cached(search) && Typable(search)
      && line == Listed(file, search)
      && (if line == [] then lineno == 0 else lineno < |line|)
      && offset <= lineno && (height > 0 ==> lineno < offset + height)
      && (|line| <= height ==> offset == 0)
    }

    function Selected(): FileLine?
      reads this
    {
      if lineno < |line| then line[lineno] else null
    }

    /** `file_finder_update`, one file: counts again only where the old count does not tell the new one. */
    method Refresh(f: FileLine, ghost before: seq<string>) returns (listed: bool)
      requires f.matches == Greedy(f.text, 0, before) && Neighbours(before, search)
      modifies f
      ensures f.matches == Greedy(f.text, 0, search) && listed == (f.matches == |search|)
    {
      CountCarries(f.text, before, search);
      if f.matches + 1 < |search| { return false; }
      if f.matches >= |search| {
        f.matches := |search|;
      } else {
        f.matches := f.LineMatches(search);
        if f.matches < |search| { return false; }
      }
      return true;
    }

    /** `file_finder_update`, for the first time or after the search has changed by one key. */
    method Update(ghost before: seq<string>)
      requires Distinct() && Cached(before) && Neighbours(before, search)
      requires line == [] || line == Listed(file, before)
      modifies this`line, this`lineno, file
      ensures Distinct() && Cached(search) && line == Listed(file, search)
      ensures old(Selected()) == null ==> lineno == 0
      ensures forall k :: 0 <= k < |file| && file[k] == old(Selected()) ==> lineno == |Listed(file[..k], search)|
    {
      hide Listed, Greedy, PlaceOf, Neighbours;
      ghost var selected := Selected();
      var current := Selected();
      ListedAreFiles(file, before);
      ghost var k := PlaceOf(file, selected);
      var newLineno: nat := 0;
      line := [];
      EmptyListed(file, search);
      for i := 0 to |file|
        invariant forall j :: 0 <= j < |file| ==>
          file[j].matches == Greedy(file[j].text, 0, if j < i then search else before)
        invariant line == Listed(file[..i], search)
        invariant current == if k < i then null else selected
        invariant newLineno == if selected == null then 0 else |Listed(file[..if k < i then k else i], search)|
      {
        var f := file[i];
        ListedPush(file, search, i);
        if f == current { current := null; }
        var listed := Refresh(f, before);
        if listed {
          if current != null { newLineno := newLineno + 1; }
          line := line + [f];
        }
      }
      assert file[..|file|] == file;
      lineno := newLineno;
    }

    /** `open_file_finder`: all files are listed and the first one is selected. */
    constructor (texts: seq<string>, height: nat)
      ensures Valid() && search == [] && line == file && lineno == 0 && this.height == height
      ensures |file| == |texts| && (forall i :: 0 <= i < |texts| ==> file[i].text == texts[i])
      ensures forall f :: f in file ==> fresh(f)
    {
      hide Greedy, Listed;
      file, line, search, lineno, offset := [], [], [], 0, 0;
      this.height := height;
      new;
      for i := 0 to |texts|
        invariant |file| == i && line == [] && search == [] && lineno == 0 && offset == 0
        invariant forall j :: 0 <= j < i ==> file[j].text == texts[j] && file[j].matches == 0 && fresh(file[j])
        invariant Distinct()
      {
        var f := new FileLine(texts[i]);
        file := file + [f];
      }
      AllListed(file);
      forall i | 0 <= i < |file|
        ensures Greedy(file[i].text, 0, []) == 0
      {
        NothingCounted(file[i].text);
      }
      Update([]);
    }

    /** `file_finder_move` */
    method Move(direction: int)
      requires Distinct() && Cached(search) && Typable(search) && line == Listed(file, search)
      modifies this`lineno, this`offset
      ensures Valid()
      ensures offset == Scrolled(old(offset), lineno, |line|, height)
      ensures line != [] ==> (Drawn(offset, lineno, height) <==> DrawnAfter(old(offset), lineno, |line|, height))
      ensures var wanted := if old(lineno) + direction < 0 then 0 else old(lineno) + direction;
        lineno == if wanted < |line| then wanted else if |line| > 0 then |line| - 1 else 0
    {
      hide Listed, Greedy, Typable, Scrolled, Drawn, DrawnAfter;
      if direction < 0 && lineno <= -direction {
        lineno := 0;
      } else {
        lineno := lineno + direction;
      }
      if lineno >= |line| {
        lineno := if |line| > 0 then |line| - 1 else 0;
      }
      Scroll();
      if line != [] { DrawnExactly(old(offset), lineno, |line|, height); }
    }

    /** `file_finder_draw`: the listed files from `offset` on, one a row, and the row of the selected one if
        it is among them. */
    method Draw() returns (rows: seq<FileLine>, cursor: Option<nat>)
      requires Valid()
      ensures rows == line[offset..LastRow(offset, |line|, height)]
      ensures cursor == if line != [] && Drawn(offset, lineno, height) then Some(lineno - offset) else None
    {
      hide Greedy, Typable, Listed;
      var current := Selected();
      var linePos := offset;
      rows, cursor := [], None;
      ListedAreFiles(file, search);
      ListedDistinct(file, search);
      while linePos < |line| && |rows| < height - 1
        invariant offset <= linePos <= |line| && (|rows| == 0 || |rows| <= height - 1)
        invariant rows == line[offset..linePos]
        invariant cursor == if offset <= lineno < linePos then Some(lineno - offset) else None
      {
        var f := line[linePos];
        SliceGrows(line, offset, linePos);
        linePos := linePos + 1;
        assert f in line;
        if |search| != f.matches { continue; }
        rows := rows + [f];
        if f == current { cursor := Some(|rows| - 1); }
      }
    }

    /** The end of `file_finder_move`: the window follows the selection. */
    method Scroll()
      requires if line == [] then lineno == 0 else lineno < |line|
      modifies this`offset
      ensures offset == Scrolled(old(offset), lineno, |line|, height)
      ensures offset <= lineno && (height > 0 ==> lineno < offset + height) && (|line| <= height ==> offset == 0)
    {
      if offset + height <= lineno {
        offset := lineno - height / 2;
      }
      if offset > lineno {
        offset := lineno;
      }
      if |line| <= height {
        offset := 0;
      }
    }

    /** The rest of a key that changed the search: a file that is still listed stays selected; otherwise
        the selection goes to the next listed file, or to the last one. */
    method Refilter(ghost before: seq<string>)
      requires Distinct() && Cached(before) && Typable(search) && Neighbours(before, search) &&
        line == Listed(file, before)
      modifies this`line, this`lineno, this`offset, file
      ensures Valid()
      ensures old(Selected()) != null && old(Selected()) in line ==> Selected() == old(Selected())
      ensures forall k :: 0 <= k < |file| && file[k] == old(Selected()) && line != [] ==>
        lineno == Least(|Listed(file[..k], search)|, |line| - 1)
    {
      hide Listed, Greedy;
      ghost var selected := Selected();
      ghost var k := PlaceOf(file, selected);
      Update(before);
      ListedAreFiles(file, search);
      if k < |file| && selected in line { ListedAt(file, search, k); }
      Move(0);
    }

    /** A key that is not bound: one more token. */
    method AppendToken(token: string)
      requires Valid() && token != ""
      modifies this`line, this`lineno, this`offset, this`search, file
      ensures Valid() && search == old(search) + [token]
      ensures old(Selected()) != null && old(Selected()) in line ==> Selected() == old(Selected())
    {
      ghost var before := search;
      search := search + [token];
      Refilter(before);
    }

    /** The delete key: one token less, if there is one. */
    method DeleteToken()
      requires Valid()
      modifies this`line, this`lineno, this`offset, this`search, file
      ensures Valid() && search == if old(search) == [] then [] else old(search)[..|old(search)| - 1]
      ensures old(Selected()) != null ==> old(Selected()) in line && Selected() == old(Selected())
    {
      ghost var before, selected := search, Selected();
      if |search| > 0 {
        search := search[..|search| - 1];
      }
      ListedAreFiles(file, before);
      if selected != null {
        assert selected in line;
        GreedyOfPrefix(selected.text, 0, before, |search|);
        assert before[..|search|] == search;
      }
      Refilter(before);
      ListedAreFiles(file, search);
    }

    /** `file_finder_input_handler` */
    method Handle(key: Key)
      requires Valid() && (key.Token? ==> key.token != "")
      modifies this`line, this`lineno, this`offset, this`search, file
      ensures Valid() && search == Typed(old(search), key)
      ensures key.Token? || key.Delete? ==> Stays(old(Selected()), Selected(), line)
      ensures key.Prev? || key.Next? ==> line == old(line)
      ensures key.Prev? ==> lineno == if old(lineno) > 0 then old(lineno) - 1 else 0
      ensures key.Next? ==> lineno == if old(lineno) + 1 < |line| then old(lineno) + 1 else old(lineno)
    {
      match key
      case Token(t) => AppendToken(t);
      case Delete => DeleteToken();
      case Prev => Move(-1);
      case Next => Move(1);
    }

    /** Any number of keys: what is listed depends on the tokens that are left alone. */
    method Run(keys: seq<Key>)
      requires Valid() && forall i :: 0 <= i < |keys| && keys[i].Token? ==> keys[i].token != ""
      modifies this`line, this`lineno, this`offset, this`search, file
      ensures Valid() && search == TypedAll(old(search), keys)
      ensures line == Matching(file, TypedAll(old(search), keys))
    {
      assert keys[..0] == [];
      for i := 0 to |keys|
        invariant Valid() && search == TypedAll(old(search), keys[..i])
      {
        assert keys[..i + 1][..i] == keys[..i];
        Handle(keys[i]);
      }
      assert keys[..|keys|] == keys;
      ListedIsMatching(file, search);
    }

    /** Any number of tokens typed and deleted: a selected file that contains the tokens after every one
        of these keys is selected in the end. */
    method RunEdits(keys: seq<Key>)
      requires Valid() && forall i :: 0 <= i < |keys| ==> keys[i].Delete? || (keys[i].Token? && keys[i].token != "")
      modifies this`line, this`lineno, this`offset, this`search, file
      ensures Valid() && search == TypedAll(old(search), keys)
      ensures line == Matching(file, TypedAll(old(search), keys))
      ensures ContainsAlways(old(Selected()), old(search), keys) ==> Selected() == old(Selected())
    {
      hide Contains, Listed, Greedy;
      ghost var f := Selected();
      ListedAreFiles(file, search);
      assert keys[..0] == [];
      for i := 0 to |keys|
        invariant Valid() && search == TypedAll(old(search), keys[..i])
        invariant ContainsAlways(f, old(search), keys) ==> Selected() == f && f in file
      {
        assert keys[..i + 1][..i] == keys[..i];
        Handle(keys[i]);
        ListedAreFiles(file, search);
        if f != null {
          GreedyFindsAll(f.text, 0, search);
          NonemptyInside(f.text, 0, search);
        }
      }
      assert keys[..|keys|] == keys;
      ListedIsMatching(file, search);
    }
  }

  /** The file contains the tokens that stand after each of the keys. */
  ghost predicate ContainsAlways(f: FileLine?, search: seq<string>, keys: seq<Key>)
  {
    f != null && forall i :: 0 <= i <= |keys| ==> Contains(f.text, 0, TypedAll(search, keys[..i]))
  }

  datatype Key = Token(token: string) | Delete | Prev | Next

  /** A selected file that is still listed is still selected. */
  ghost predicate Stays(was: FileLine?, now: FileLine?, line: seq<FileLine>)
  {
    was != null && was in line ==> now == was
  }

  /** The first row of the window after a move to line `lineno` of `lines`. */
  function Scrolled(offset: nat, lineno: nat, lines: nat, height: nat): nat
  {
    if lines <= height then 0
    else if offset + height <= lineno then lineno - height / 2
    else if offset > lineno then lineno
    else offset
  }

  /** The row of the window in which the selection stands after a move that needs scrolling: the middle one
      behind the end of the window, the first one in front of it; otherwise the window stays. */
  lemma RowAfter(offset: nat, lineno: nat, lines: nat, height: nat)
    requires lineno < lines && height < lines
    ensures var row := lineno - Scrolled(offset, lineno, lines, height);
      if offset + height <= lineno then 2 * row <= height < 2 * row + 2
      else if lineno < offset then row == 0
      else Scrolled(offset, lineno, lines, height) == offset
  {
  }

  /** `file_finder_draw` shows line `lineno`: the title covers the last of the `height` rows. */
  predicate Drawn(offset: nat, lineno: nat, height: nat)
  {
    offset <= lineno < offset + height - 1
  }

  /** After a move the selected line is on the screen exactly if it is not in the title's row. */
  predicate DrawnAfter(offset: nat, lineno: nat, lines: nat, height: nat)
  {
    if lines <= height then lineno + 1 < height
    else if offset + height <= lineno then height >= 3
    else if offset > lineno then height >= 2
    else lineno + 1 != offset + height
  }

  lemma DrawnExactly(offset: nat, lineno: nat, lines: nat, height: nat)
    requires lineno < lines
    ensures Drawn(Scrolled(offset, lineno, lines, height), lineno, height) <==>
      DrawnAfter(offset, lineno, lines, height)
  {
  }

  /** Every selection is on the screen after every move exactly if the list is shorter than the window. */
  lemma AlwaysDrawn(lines: nat, height: nat)
    ensures lines == 0 || lines < height <==>
      forall offset: nat, lineno: nat :: lineno < lines ==> Drawn(Scrolled(offset, lineno, lines, height), lineno,
        height)
  {
    if lines > 0 && lines >= height {
      var lineno := if height == 0 then 0 else height - 1;
      assert !Drawn(Scrolled(0, lineno, lines, height), lineno, height);
    }
  }

  /** The first row of the window after going down line by line from the top to line n. */
  function OffsetDown(n: nat, lines: nat, height: nat): nat
  {
    if n == 0 then Scrolled(0, 0, lines, height) else Scrolled(OffsetDown(n - 1, lines, height), n, lines, height)
  }

  lemma {:induction false} TopStays(n: nat, lines: nat, height: nat)
    requires n < height
    ensures OffsetDown(n, lines, height) == 0
  {
    if n > 0 { TopStays(n - 1, lines, height); }
  }

  /** Going down through a list as long as the window or longer, the selection disappears under the title. */
  lemma UnderTitle(lines: nat, height: nat)
    requires 0 < height <= lines
    ensures !Drawn(OffsetDown(height - 1, lines, height), height - 1, height)
  {
    TopStays(height - 1, lines, height);
  }

  /** For one, in a window of three rows the third of five files. */
  lemma SelectionUnderTitle()
    ensures !Drawn(Scrolled(0, 2, 5, 3), 2, 3)
  {
    DrawnExactly(0, 2, 5, 3);
  }

  /** The tokens after a key. */
  function Typed(search: seq<string>, key: Key): seq<string>
  {
    match key
    case Token(t) => search + [t]
    case Delete => if search == [] then [] else search[..|search| - 1]
    case _ => search
  }

  function TypedAll(search: seq<string>, keys: seq<Key>): seq<string>
  {
    if keys == [] then search else Typed(TypedAll(search, keys[..|keys| - 1]), keys[|keys| - 1])
  }

  lemma NothingCounted(text: string)
    ensures Greedy(text, 0, []) == 0
  {
  }

  lemma {:induction false} AllListed(file: seq<FileLine>)
    ensures Listed(file, []) == file
  {
    if file != [] {
      AllListed(file[..|file| - 1]);
      assert file == file[..|file| - 1] + [file[|file| - 1]];
    }
  }

  lemma EmptyListed(file: seq<FileLine>, search: seq<string>)
    ensures Listed(file[..0], search) == []
  {
  }
}
