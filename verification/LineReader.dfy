/** Reading lines through a buffer that a pipe fills in pieces of any size: `io_get_line` of
    src/io.c:519-611. */
module LineReader {
  /** `BUFSIZ` */
  const BUFSIZ := 8192

  // ----- lines as a function of the whole stream -----

  /** `memchr`, with the length for not found. */
  function IndexOf(s: string, c: char): (k: nat)
    ensures k <= |s| && (k < |s| ==> s[k] == c)
    ensures forall j :: 0 <= j < k ==> s[j] != c
  {
    if s == "" || s[0] == c then 0 else 1 + IndexOf(s[1..], c)
  }

  /** The separator at k and the continuation character in front of it become spaces. */
  function JoinAt(s: string, k: nat): (t: string)
    requires 0 < k < |s|
    ensures |t| == |s|
  {
    s[k - 1 := ' '][k := ' ']
  }

  predicate Continues(s: string, k: nat, eolChar: char)
    requires k <= |s|
  {
    eolChar != '\0' && 0 < k < |s| && s[k - 1] == eolChar
  }

  /** What a join makes smaller: the way from the separator to the end, or to the start if the spaces it
      leaves are separators themselves. */
  function ToScan(s: string, c: char): nat
  {
    if c == ' ' then IndexOf(s, c) else |s| - IndexOf(s, c)
  }

  datatype Line = Line(text: string, physical: nat, rest: string)

  /** The first line, the number of physical lines joined in it, and what follows it. */
  function Next(s: string, c: char, eolChar: char): (r: Line)
    requires s != ""
    ensures |r.rest| < |s|
    decreases ToScan(s, c)
  {
    var k := IndexOf(s, c);
    if k == |s| then Line(s, 1, "")
    else if Continues(s, k, eolChar) then
      JoinedFurther(s, c, k);
      var r := Next(JoinAt(s, k), c, eolChar);
      r.(physical := r.physical + 1)
    else Line(s[..k], 1, s[k + 1..])
  }

  lemma JoinedFurther(s: string, c: char, k: nat)
    requires 0 < k < |s| && k == IndexOf(s, c)
    ensures if c == ' ' then IndexOf(JoinAt(s, k), c) == k - 1 else IndexOf(JoinAt(s, k), c) > k
    ensures ToScan(JoinAt(s, k), c) < ToScan(s, c)
  {
    var t := JoinAt(s, k);
    if c == ' ' {
      assert forall j :: 0 <= j < k - 1 ==> t[j] == s[j];
      IndexIsFirst(t, c, k - 1);
    } else {
      assert forall j :: 0 <= j <= k ==> t[j] != c;
    }
  }

  /** All lines, and the number of physical lines counted. */
  function Lines(s: string, c: char, eolChar: char): (r: (seq<string>, nat))
    decreases |s|
  {
    if s == "" then ([], 0)
    else
      var n := Next(s, c, eolChar);
      var r := Lines(n.rest, c, eolChar);
      ([n.text] + r.0, n.physical + r.1)
  }

  lemma IndexIsFirst(s: string, c: char, k: nat)
    requires k <= |s| && (k < |s| ==> s[k] == c) && forall j :: 0 <= j < k ==> s[j] != c
    ensures IndexOf(s, c) == k
  {
  }

  // ----- the reader -----

  class Io {
    var buf: array<char>
    var bufpos: nat
    var bufsize: nat
    var eof: bool
    var error: bool
    /** What the other end of the pipe still has to deliver. */
    var pending: string

    ghost predicate Valid()
      reads this, buf
    {
      && bufpos + bufsize <= buf.Length
      && (eof ==> pending == "" && (bufsize > 0 ==> bufpos + bufsize < buf.Length))
    }

    function Window(): string
      requires bufpos + bufsize <= buf.Length
      reads this, buf
    {
      buf[bufpos..bufpos + bufsize]
    }

    /** Everything not yet handed out as a line. */
    ghost function Stream(): string
      requires Valid()
      reads this, buf
    {
      Window() + pending
    }

    constructor (content: string)
      ensures Valid() && Stream() == content && !error && fresh(buf)
    {
      buf := new char[0];
      bufpos, bufsize, eof, error, pending := 0, 0, false, false, content;
    }

    /** `io_read` into buf[at..]: an error, the end of the stream, or any number of characters that
        are there and fit. */
    method Read(at: nat) returns (readsize: int)
      requires at < buf.Length && !eof
      modifies this`eof, this`error, this`pending, buf
      ensures -1 <= readsize <= buf.Length - at
      ensures error == (old(error) || readsize == -1)
      ensures eof == (readsize == 0) && (eof ==> pending == "")
      ensures var n := if readsize < 0 then 0 else readsize;
        old(pending) == buf[at..at + n] + pending && buf[..at] == old(buf[..at])
    {
      var fails: bool := *;
      if fails {
        error := true;
        return -1;
      }
      var n: nat :| n <= |pending| && n <= buf.Length - at && (n == 0 ==> pending == "");
      forall i | 0 <= i < n { buf[at + i] := pending[i]; }
      eof := n == 0;
      pending := pending[n..];
      return n;
    }

    /** The part of `io_get_line` that moves the rest to the front and grows the buffer if it is full. */
    method MakeRoom()
      requires Valid() && !eof
      modifies this`buf, this`bufpos, buf
      ensures Valid() && (buf == old(buf) || fresh(buf))
      ensures bufpos == 0 && bufsize < buf.Length && Window() == old(Window())
    {
      ghost var window := Window();
      if bufsize > 0 && bufpos > 0 {
        forall i | 0 <= i < bufsize { buf[i] := buf[bufpos + i]; }
      }
      assert forall i :: 0 <= i < bufsize ==> buf[i] == window[i];
      if buf.Length == bufsize {
        var bigger := new char[buf.Length + BUFSIZ];
        forall i | 0 <= i < bufsize { bigger[i] := buf[i]; }
        buf := bigger;
      }
      bufpos := 0;
    }

    /** Makes room and reads once.  The stream changes exactly if an earlier read has failed and this one
        delivers something, which is then not used. */
    method Fill()
      requires Valid() && !eof
      modifies this, buf
      ensures Valid() && (buf == old(buf) || fresh(buf))
      ensures Stream() == old(Stream()) <==> !old(error) || pending == old(pending)
      ensures old(error) ==> error
      ensures error || eof || |pending| < |old(pending)|
    {
      MakeRoom();
      ReadBehind();
    }

    /** The read itself, behind what is in the buffer. */
    method ReadBehind()
      requires Valid() && !eof && bufpos == 0 && bufsize < buf.Length
      modifies this`bufsize, this`eof, this`error, this`pending, buf
      ensures Valid()
      ensures Stream() == old(Stream()) <==> !old(error) || pending == old(pending)
      ensures old(error) ==> error
      ensures error || eof || |pending| < |old(pending)|
    {
      ghost var window, rest := buf[..bufsize], pending;
      assert Window() == window;
      var readsize := Read(bufsize);
      ghost var chunk := buf[bufsize..bufsize + if readsize < 0 then 0 else readsize];
      Appends(buf[..], window, chunk, rest, pending);
      Cancels(window, rest, pending);
      assert Window() == window;
      if error { return; }
      bufsize := bufsize + readsize;
      assert Window() == buf[..|window| + |chunk|];
    }

    /** Hands out `size` characters and skips `skip` behind them, where a NUL is written. */
    method Take(size: nat, skip: nat) returns (data: string)
      requires Valid() && size + skip <= bufsize && bufpos + size < buf.Length
      requires skip == 0 ==> size == bufsize && eof
      modifies this`bufpos, this`bufsize, buf
      ensures Valid()
      ensures data == old(Stream())[..size] && Stream() == old(Stream())[size + skip..]
    {
      ghost var window, at, end := Window(), bufpos + size + skip, bufpos + bufsize;
      TakeSplits(window, pending, size, size + skip);
      data := Window()[..size];
      assert buf[at..end] == window[size + skip..];
      WriteNul(bufpos + size, at, end);
      bufpos := bufpos + size + skip;
      bufsize := bufsize - size - skip;
    }

    method WriteNul(at: nat, ghost lo: nat, ghost hi: nat)
      requires at < buf.Length && lo <= hi <= buf.Length && (at < lo || hi <= at)
      modifies buf
      ensures buf[lo..hi] == old(buf[lo..hi])
    {
      buf[at] := '\0';
    }

    /** The inner loop of `io_get_line`: finds the separator in the buffer and joins the lines that a
        continuation character connects. */
    method FindEol(c: char, lineno: nat, eolChar: char) returns (eol: nat, count: nat)
      requires Valid()
      modifies buf
      ensures Valid() && eol == IndexOf(Window(), c) && !Continues(Window(), eol, eolChar)
      ensures Follows(old(Stream()), lineno, Stream(), count, c, eolChar)
    {
      hide Next, IndexOf, JoinAt;
      eol, count := IndexOf(Window(), c), lineno;
      while Continues(Window(), eol, eolChar)
        invariant Valid() && eol == IndexOf(Window(), c)
        invariant Follows(old(Stream()), lineno, Stream(), count, c, eolChar)
        decreases ToScan(Window(), c)
      {
        ghost var window := Window();
        JoinedFurther(window, c, eol);
        JoinFollows(old(Stream()), lineno, window, pending, count, c, eolChar);
        count := count + 1;
        buf[bufpos + eol - 1], buf[bufpos + eol] := ' ', ' ';
        JoinIsUpdate(window, Window(), eol);
        eol := IndexOf(Window(), c);
      }
    }

    /** A whole line that is in the buffer. */
    method LineInBuffer(c: char, lineno: nat, eolChar: char) returns (ok: bool, data: string, count: nat)
      requires Valid() && bufsize > 0
      modifies this`bufpos, this`bufsize, buf
      ensures Valid()
      ensures ok ==> Delivers(old(Stream()), lineno, data, count, Stream(), c, eolChar)
      ensures !ok ==> Follows(old(Stream()), lineno, Stream(), count, c, eolChar) && IndexOf(Window(), c) == bufsize > 0
    {
      hide Next, IndexOf, Follows, Delivers, Continues;
      var eol;
      data, ok := "", false;
      eol, count := FindEol(c, lineno, eolChar);
      if eol < bufsize {
        TakesLine(old(Stream()), lineno, Window(), pending, count, c, eolChar);
        data := Take(eol, 1);
        ok, count := true, count + 1;
      }
    }

    /** `io_get_line`: the next line of the stream, however the reads split it.  Without a line, because
        reading is not allowed or fails or the stream is at its end, the stream still holds the same
        lines. */
    method GetLine(c: char, lineno: nat, canRead: bool, eolChar: char) returns (ok: bool, data: string, count: nat)
      requires Valid()
      modifies this, buf
      ensures Valid() && (buf == old(buf) || fresh(buf))
      ensures ok ==> Delivers(old(Stream()), lineno, data, count, Stream(), c, eolChar)
      ensures !ok && !old(error) ==> Follows(old(Stream()), lineno, Stream(), count, c, eolChar)
      ensures !ok ==> error || !canRead || Stream() == ""
      ensures old(error) ==> error
      ensures error && !old(error) ==> !ok
    {
      hide Next, IndexOf, Follows, Delivers, Continues;
      data, count := "", lineno;
      FollowsItself(Stream(), lineno, c, eolChar);
      while true
        invariant Valid() && error == old(error) && (buf == old(buf) || fresh(buf))
        invariant Follows(old(Stream()), lineno, Stream(), count, c, eolChar)
        decreases |pending|, !eof
      {
        if bufsize > 0 {
          ghost var before, counted := Stream(), count;
          ok, data, count := LineInBuffer(c, count, eolChar);
          if ok {
            DeliversOn(old(Stream()), lineno, before, counted, data, count, Stream(), c, eolChar);
            return;
          }
          FollowsOn(old(Stream()), lineno, before, counted, Stream(), count, c, eolChar);
        }
        if eof {
          assert Stream() == Window();
          if bufsize > 0 {
            TakesRest(old(Stream()), lineno, Window(), count, c, eolChar);
            data := Take(bufsize, 0);
            count := count + 1;
            return true, data, count;
          }
          return false, data, count;
        }
        if !canRead { return false, data, count; }
        Fill();
        if error { return false, data, count; }
      }
    }
  }

  /** What is taken off the front of the stream, and what is left. */
  lemma TakeSplits(window: string, pending: string, size: nat, n: nat)
    requires size <= n <= |window|
    ensures (window + pending)[..size] == window[..size] && (window + pending)[n..] == window[n..] + pending
  {
  }

  lemma Cancels(a: string, b: string, c: string)
    ensures a + b == a + c <==> b == c
  {
    assert (a + b)[|a|..] == b && (a + c)[|a|..] == c;
  }

  lemma Appends(buf: string, window: string, chunk: string, rest: string, rest': string)
    requires window <= buf && |window| + |chunk| <= |buf| && buf[|window|..|window| + |chunk|] == chunk
    requires rest == chunk + rest'
    ensures window + rest == buf[..|window| + |chunk|] + rest'
  {
    assert buf[..|window| + |chunk|] == window + chunk;
  }

  /** Both streams begin with the same line, of which the second has some lines joined and counted
      already, and go on the same. */
  ghost predicate Follows(s: string, n: nat, t: string, m: nat, c: char, eolChar: char)
  {
    && (s == "" <==> t == "")
    && (s == "" ==> m == n)
    && (s != "" ==>
          && n <= m
          && Next(s, c, eolChar) == Next(t, c, eolChar).(physical := Next(t, c, eolChar).physical + (m - n)))
  }

  /** The first line of s, and the rest t behind it. */
  ghost predicate Delivers(s: string, n: nat, data: string, m: nat, t: string, c: char, eolChar: char)
  {
    s != "" && n <= m && Next(s, c, eolChar) == Line(data, m - n, t)
  }

  lemma FollowsItself(s: string, n: nat, c: char, eolChar: char)
    ensures Follows(s, n, s, n, c, eolChar)
  {
  }

  lemma FollowsOn(s: string, n: nat, t: string, m: nat, u: string, l: nat, c: char, eolChar: char)
    requires Follows(s, n, t, m, c, eolChar) && Follows(t, m, u, l, c, eolChar)
    ensures Follows(s, n, u, l, c, eolChar)
  {
    hide Next;
  }

  lemma DeliversOn(s: string, n: nat, t: string, m: nat, data: string, l: nat, u: string, c: char, eolChar: char)
    requires Follows(s, n, t, m, c, eolChar) && Delivers(t, m, data, l, u, c, eolChar)
    ensures Delivers(s, n, data, l, u, c, eolChar)
  {
    hide Next;
  }

  lemma JoinFollows(s: string, n: nat, window: string, rest: string, m: nat, c: char, eolChar: char)
    requires Follows(s, n, window + rest, m, c, eolChar) && Continues(window, IndexOf(window, c), eolChar)
    ensures Follows(s, n, JoinAt(window, IndexOf(window, c)) + rest, m + 1, c, eolChar)
  {
    hide IndexOf, JoinAt;
    var k := IndexOf(window, c);
    IndexInStream(window, rest, c);
    JoinStays(window, rest, k);
    assert (window + rest)[k - 1] == window[k - 1];
  }

  lemma JoinIsUpdate(window: string, window': string, k: nat)
    requires 0 < k < |window| == |window'| && window'[k - 1] == window'[k] == ' '
    requires forall i :: 0 <= i < |window| && i != k && i != k - 1 ==> window'[i] == window[i]
    ensures window' == JoinAt(window, k)
  {
  }

  lemma TakesLine(s: string, n: nat, window: string, rest: string, m: nat, c: char, eolChar: char)
    requires Follows(s, n, window + rest, m, c, eolChar)
    requires IndexOf(window, c) < |window| && !Continues(window, IndexOf(window, c), eolChar)
    ensures var k := IndexOf(window, c);
      Delivers(s, n, (window + rest)[..k], m + 1, (window + rest)[k + 1..], c, eolChar)
  {
    hide IndexOf;
    var k := IndexOf(window, c);
    IndexInStream(window, rest, c);
    assert k > 0 ==> (window + rest)[k - 1] == window[k - 1];
    assert !Continues(window + rest, k, eolChar);
  }

  lemma TakesRest(s: string, n: nat, window: string, m: nat, c: char, eolChar: char)
    requires window != "" && Follows(s, n, window + "", m, c, eolChar) && IndexOf(window, c) == |window|
    ensures Delivers(s, n, window[..|window|], m + 1, "", c, eolChar)
  {
    assert window + "" == window;
  }

  lemma IndexInStream(window: string, rest: string, c: char)
    ensures IndexOf(window, c) < |window| ==> IndexOf(window + rest, c) == IndexOf(window, c)
    ensures IndexOf(window, c) == |window| && rest == "" ==> IndexOf(window + rest, c) == |window + rest|
  {
    var k := IndexOf(window, c);
    if k < |window| || rest == "" { IndexIsFirst(window + rest, c, k); }
  }

  lemma JoinStays(window: string, rest: string, k: nat)
    requires 0 < k < |window|
    ensures JoinAt(window + rest, k) == JoinAt(window, k) + rest
  {
  }

  // ----- all lines -----

  /** Reads every line that is left; the lines and their number depend on the stream alone. */
  method ReadAll(io: Io, c: char, eolChar: char) returns (lines: seq<string>, count: nat)
    requires io.Valid()
    modifies io, io.buf
    ensures !io.error ==> (lines, count) == Lines(old(io.Stream()), c, eolChar)
  {
    hide Lines, Next;
    lines, count := [], 0;
    ghost var all := Lines(io.Stream(), c, eolChar);
    assert [] + all.0 == all.0;
    while true
      invariant io.Valid() && (old(io.error) ==> io.error) && (io.buf == old(io.buf) || fresh(io.buf))
      invariant !io.error ==>
        all == (lines + Lines(io.Stream(), c, eolChar).0, count + Lines(io.Stream(), c, eolChar).1)
      decreases |io.Stream()|
    {
      ghost var before := io.Stream();
      var ok, data, count' := io.GetLine(c, count, true, eolChar);
      if !ok {
        if !io.error {
          LinesEnd(before, count, count', c, eolChar);
          assert lines + [] == lines;
        }
        return lines, count';
      }
      LinesStep(before, count, data, count', io.Stream(), c, eolChar);
      assert lines + ([data] + Lines(io.Stream(), c, eolChar).0) == lines + [data] + Lines(io.Stream(), c, eolChar).0;
      lines, count := lines + [data], count';
    }
  }

  lemma LinesEnd(s: string, n: nat, m: nat, c: char, eolChar: char)
    requires Follows(s, n, "", m, c, eolChar)
    ensures s == "" && n == m && Lines(s, c, eolChar) == ([], 0)
  {
  }

  lemma LinesStep(s: string, n: nat, data: string, m: nat, t: string, c: char, eolChar: char)
    requires Delivers(s, n, data, m, t, c, eolChar)
    ensures Lines(s, c, eolChar) == ([data] + Lines(t, c, eolChar).0, (m - n) + Lines(t, c, eolChar).1)
    ensures n < m && |t| < |s|
  {
    hide Next, IndexOf;
    var line := Next(s, c, eolChar);
    assert line.physical >= 1 by { PhysicalPositive(s, c, eolChar); }
  }

  lemma {:induction false} PhysicalPositive(s: string, c: char, eolChar: char)
    requires s != ""
    ensures Next(s, c, eolChar).physical >= 1
    decreases ToScan(s, c)
  {
    var k := IndexOf(s, c);
    if k < |s| && Continues(s, k, eolChar) {
      JoinedFurther(s, c, k);
      PhysicalPositive(JoinAt(s, k), c, eolChar);
    }
  }

  // ----- what the lines are -----

  /** Every piece with its separator. */
  function Terminated(pieces: seq<string>, c: char): string
  {
    if pieces == [] then "" else pieces[0] + [c] + Terminated(pieces[1..], c)
  }

  lemma NextPlain(s: string, c: char)
    requires s != ""
    ensures var k := IndexOf(s, c);
      Next(s, c, '\0') == Line(s[..k], 1, if k < |s| then s[k + 1..] else "") && c !in s[..k]
  {
    assert s[..|s|] == s;
  }

  lemma TerminatedPush(piece: string, pieces: seq<string>, c: char)
    ensures Terminated([piece] + pieces, c) == piece + [c] + Terminated(pieces, c)
  {
    assert ([piece] + pieces)[1..] == pieces;
  }

  /** Without continuation the lines are the stream split at the separators: no line holds one, and
      put together they give the stream back, the last separator added if it was missing. */
  lemma {:induction false} LinesAreSplit(s: string, c: char)
    ensures forall i :: 0 <= i < |Lines(s, c, '\0').0| ==> c !in Lines(s, c, '\0').0[i]
    ensures Terminated(Lines(s, c, '\0').0, c) == if s == "" || s[|s| - 1] == c then s else s + [c]
    decreases |s|
  {
    hide Next, IndexOf, Terminated;
    if s != "" {
      var k := IndexOf(s, c);
      var line := Next(s, c, '\0');
      NextPlain(s, c);
      LinesAreSplit(line.rest, c);
      TerminatedPush(line.text, Lines(line.rest, c, '\0').0, c);
      SplitBack(s, k, c);
    } else {
      NothingTerminated(c);
    }
  }

  lemma NothingTerminated(c: char)
    ensures Terminated([], c) == ""
  {
  }

  lemma SplitBack(s: string, k: nat, c: char)
    requires k <= |s| && s != "" && (k < |s| ==> s[k] == c)
    ensures k == |s| ==> s[..k] + [c] + "" == s + [c]
    ensures k < |s| ==> s[..k] + [c] + s[k + 1..] == s && s[..k] + [c] + (s[k + 1..] + [c]) == s + [c]
    ensures k + 1 < |s| ==> s[k + 1..][|s| - k - 2] == s[|s| - 1]
  {
    if k < |s| { assert s[..k] + [c] + s[k + 1..] == s; }
  }

  /** One more character behind the text t: a separator behind a continuation character turns into a
      space, and so does that character. */
  function Push(t: string, x: char, c: char, eolChar: char): string
  {
    if x == c && t != "" && t[|t| - 1] == eolChar then t[..|t| - 1] + "  " else t + [x]
  }

  function JoinForth(t: string, s: string, c: char, eolChar: char): string
    decreases |s|
  {
    if s == "" then t else JoinForth(Push(t, s[0], c, eolChar), s[1..], c, eolChar)
  }

  /** Where the separator itself is a space, continuation characters in front of it turn into
      separators, the last one first. */
  function JoinBack(s: string, eolChar: char): (t: string)
    ensures |t| == |s|
  {
    if s == "" then ""
    else
      var t := JoinBack(s[1..], eolChar);
      [if s[0] == eolChar && t != "" && t[0] == ' ' then ' ' else s[0]] + t
  }

  /** The stream with its continued lines joined. */
  function Joined(s: string, c: char, eolChar: char): string
  {
    if eolChar == '\0' || eolChar == c then s
    else if c == ' ' then JoinBack(s, eolChar)
    else JoinForth("", s, c, eolChar)
  }

  lemma {:induction false} ForthPlain(t: string, p: string, r: string, c: char, eolChar: char)
    requires forall i :: 0 <= i < |p| ==> p[i] != c
    ensures JoinForth(t, p + r, c, eolChar) == JoinForth(t + p, r, c, eolChar)
    decreases |p|
  {
    if p == "" {
      assert p + r == r && t + p == t;
    } else {
      assert (p + r)[0] == p[0] && (p + r)[1..] == p[1..] + r;
      ForthPlain(t + [p[0]], p[1..], r, c, eolChar);
      assert t + [p[0]] + p[1..] == t + p;
    }
  }

  lemma {:induction false} ForthSplits(u: string, t: string, s: string, c: char, eolChar: char)
    requires eolChar != c
    ensures JoinForth(u + [c] + t, s, c, eolChar) == u + [c] + JoinForth(t, s, c, eolChar)
    decreases |s|
  {
    if s != "" {
      var x := s[0];
      assert Push(u + [c] + t, x, c, eolChar) == u + [c] + Push(t, x, c, eolChar);
      ForthSplits(u, Push(t, x, c, eolChar), s[1..], c, eolChar);
    }
  }

  lemma {:induction false} ForthLength(t: string, s: string, c: char, eolChar: char)
    ensures |JoinForth(t, s, c, eolChar)| == |t| + |s|
    decreases |s|
  {
    if s != "" { ForthLength(Push(t, s[0], c, eolChar), s[1..], c, eolChar); }
  }

  lemma BackStep(x: char, s: string, eolChar: char)
    ensures var t := JoinBack(s, eolChar);
      JoinBack([x] + s, eolChar) == [if x == eolChar && t != "" && t[0] == ' ' then ' ' else x] + t
  {
    assert ([x] + s)[1..] == s;
  }

  lemma {:induction false} BackPlain(p: string, r: string, eolChar: char)
    requires forall i :: 0 <= i < |p| ==> p[i] != ' '
    requires p != "" ==> p[|p| - 1] != eolChar || r == "" || JoinBack(r, eolChar)[0] != ' '
    ensures JoinBack(p + r, eolChar) == p + JoinBack(r, eolChar)
    decreases |p|
  {
    hide JoinBack;
    if p == "" {
      assert p + r == r;
    } else {
      BackPlain(p[1..], r, eolChar);
      assert p + r == [p[0]] + (p[1..] + r);
      assert p == [p[0]] + p[1..];
      BackStep(p[0], p[1..] + r, eolChar);
      if |p| > 1 { assert (p[1..] + JoinBack(r, eolChar))[0] == p[1]; }
    }
  }

  /** A join in the stream is one that the joined stream has made already. */
  lemma JoinedOfJoin(s: string, c: char, eolChar: char)
    requires Continues(s, IndexOf(s, c), eolChar)
    ensures Joined(JoinAt(s, IndexOf(s, c)), c, eolChar) == Joined(s, c, eolChar)
  {
    hide IndexOf, JoinForth, JoinBack;
    var k := IndexOf(s, c);
    var p, r := s[..k - 1], s[k + 1..];
    assert s == p + ([eolChar, c] + r) && JoinAt(s, k) == p + ([' ', ' '] + r);
    if c == ' ' {
      BackOfJoin(p, r, eolChar);
    } else {
      ForthOfJoin(p, r, c, eolChar);
    }
  }

  lemma ForthStep(t: string, x: char, s: string, c: char, eolChar: char)
    ensures JoinForth(t, [x] + s, c, eolChar) == JoinForth(Push(t, x, c, eolChar), s, c, eolChar)
  {
    assert ([x] + s)[1..] == s;
  }

  lemma ForthOfJoin(p: string, r: string, c: char, eolChar: char)
    requires c != ' ' && eolChar != c && forall i :: 0 <= i < |p| ==> p[i] != c
    ensures JoinForth("", p + ([eolChar, c] + r), c, eolChar) == JoinForth("", p + ([' ', ' '] + r), c, eolChar)
  {
    hide JoinForth, Push;
    var q, two := p + [eolChar], p + "  ";
    BehindText(p, eolChar, c, r);
    BehindText(p, ' ', ' ', r);
    JoinedPair(p, c, eolChar);
    ForthFromStart(q, [c] + r, c, eolChar);
    ForthFromStart(two, r, c, eolChar);
    ForthStep(q, c, r, c, eolChar);
  }

  lemma BehindText(p: string, x: char, y: char, r: string)
    ensures p + ([x, y] + r) == (p + [x]) + ([y] + r) == (p + [x, y]) + r
  {
  }

  /** The separator behind the continuation character takes both away. */
  lemma JoinedPair(p: string, c: char, eolChar: char)
    ensures Push(p + [eolChar], c, c, eolChar) == p + "  "
  {
  }

  lemma ForthFromStart(p: string, r: string, c: char, eolChar: char)
    requires forall i :: 0 <= i < |p| ==> p[i] != c
    ensures JoinForth("", p + r, c, eolChar) == JoinForth(p, r, c, eolChar)
  {
    assert "" + p == p;
    ForthPlain("", p, r, c, eolChar);
  }

  lemma {:induction false} BackOfJoin(p: string, r: string, eolChar: char)
    requires eolChar != ' '
    ensures JoinBack(p + ([eolChar, ' '] + r), eolChar) == JoinBack(p + ([' ', ' '] + r), eolChar)
    decreases |p|
  {
    hide JoinBack;
    var a, b := [eolChar, ' '] + r, [' ', ' '] + r;
    if p == "" {
      assert p + a == [eolChar] + ([' '] + r) && p + b == [' '] + ([' '] + r);
      BackStep(' ', r, eolChar);
      BackStep(eolChar, [' '] + r, eolChar);
      BackStep(' ', [' '] + r, eolChar);
    } else {
      BackOfJoin(p[1..], r, eolChar);
      assert p + a == [p[0]] + (p[1..] + a) && p + b == [p[0]] + (p[1..] + b);
      BackStep(p[0], p[1..] + a, eolChar);
      BackStep(p[0], p[1..] + b, eolChar);
    }
  }

  /** The joined stream has its first separator where the stream has one that is not continued, and
      goes on as the rest does. */
  lemma JoinedSplits(s: string, c: char, eolChar: char)
    requires !Continues(s, IndexOf(s, c), eolChar)
    ensures var k, t := IndexOf(s, c), Joined(s, c, eolChar);
      |t| == |s| && IndexOf(t, c) == k && t[..k] == s[..k] && (k < |s| ==> t[k + 1..] == Joined(s[k + 1..], c, eolChar))
  {
    hide IndexOf, JoinForth, JoinBack;
    var k := IndexOf(s, c);
    if eolChar != '\0' && eolChar != c {
      if k == |s| {
        NoneToJoin(s, c, eolChar);
      } else {
        var p, r := s[..k], s[k + 1..];
        assert s == p + ([c] + r);
        assert k > 0 ==> p[k - 1] == s[k - 1] != eolChar;
        JoinedBehind(p, r, c, eolChar);
        SplitAt(Joined(s, c, eolChar), p, Joined(r, c, eolChar), c);
      }
    }
  }

  lemma SplitAt(t: string, p: string, r: string, c: char)
    requires t == p + [c] + r && forall i :: 0 <= i < |p| ==> p[i] != c
    ensures IndexOf(t, c) == |p| && t[..|p|] == p && t[|p| + 1..] == r
  {
    IndexIsFirst(t, c, |p|);
  }

  lemma NoneToJoin(s: string, c: char, eolChar: char)
    requires forall i :: 0 <= i < |s| ==> s[i] != c
    ensures Joined(s, c, eolChar) == s
  {
    assert s + "" == s && "" + s == s;
    if c == ' ' { BackPlain(s, "", eolChar); } else { ForthPlain("", s, "", c, eolChar); }
  }

  lemma JoinedBehind(p: string, r: string, c: char, eolChar: char)
    requires eolChar != '\0' && eolChar != c && forall i :: 0 <= i < |p| ==> p[i] != c
    requires p != "" ==> p[|p| - 1] != eolChar
    ensures Joined(p + ([c] + r), c, eolChar) == p + [c] + Joined(r, c, eolChar)
    ensures |Joined(r, c, eolChar)| == |r|
  {
    hide JoinForth, JoinBack;
    if c == ' ' {
      BackPlain(p, [' '] + r, eolChar);
      BackStep(' ', r, eolChar);
    } else {
      assert "" + p == p;
      ForthPlain("", p, [c] + r, c, eolChar);
      ForthStep(p, c, r, c, eolChar);
      assert Push(p, c, c, eolChar) == p + [c] + "";
      ForthSplits(p, "", r, c, eolChar);
      ForthLength("", r, c, eolChar);
    }
  }

  /** With continuation the lines are those of the joined stream. */
  lemma {:induction false} LinesAreJoined(s: string, c: char, eolChar: char)
    ensures Lines(s, c, eolChar).0 == Lines(Joined(s, c, eolChar), c, '\0').0
    decreases |s|
  {
    hide Next, Joined;
    if s != "" {
      NextOfJoined(s, c, eolChar);
      LinesAreJoined(Next(s, c, eolChar).rest, c, eolChar);
    } else {
      NothingJoined(c, eolChar);
    }
  }

  lemma NothingJoined(c: char, eolChar: char)
    ensures Joined("", c, eolChar) == ""
  {
  }

  lemma {:induction false} NextOfJoined(s: string, c: char, eolChar: char)
    requires s != ""
    ensures Joined(s, c, eolChar) != ""
    ensures var n, j := Next(s, c, eolChar), Next(Joined(s, c, eolChar), c, '\0');
      n.text == j.text && j.rest == Joined(n.rest, c, eolChar)
    decreases ToScan(s, c)
  {
    hide Joined, IndexOf, ToScan;
    var k := IndexOf(s, c);
    if k < |s| && Continues(s, k, eolChar) {
      JoinedFurther(s, c, k);
      NextOfJoined(JoinAt(s, k), c, eolChar);
      JoinedOfJoin(s, c, eolChar);
    } else {
      JoinedSplits(s, c, eolChar);
      assert s[..|s|] == s;
      NothingJoined(c, eolChar);
      NextPlain(Joined(s, c, eolChar), c);
    }
  }

  // ----- the number of lines -----

  function Last(s: string): char
    requires s != ""
  {
    s[|s| - 1]
  }

  lemma NoneIn(s: string, c: char)
    requires forall i :: 0 <= i < |s| ==> s[i] != c
    ensures multiset(s)[c] == 0
  {
    assert c !in s;
    assert c !in multiset(s);
  }

  /** Separators of the joined stream, and joins made: each one takes a separator away, or adds one if
      the separator is a space. */
  function Physical(s: string, c: char, eolChar: char): int
  {
    if c != ' ' then multiset(s)[c] else 2 * (multiset(Joined(s, c, eolChar))[c] as int) - (multiset(s)[c] as int)
  }

  lemma {:induction false} NextCounts(s: string, c: char, eolChar: char)
    requires s != ""
    ensures |Joined(s, c, eolChar)| == |s|
    ensures var n := Next(s, c, eolChar);
      n.physical + Physical(n.rest, c, eolChar) ==
        Physical(s, c, eolChar) + if n.rest == "" && Last(Joined(s, c, eolChar)) != c then 1 else 0
    decreases ToScan(s, c)
  {
    hide Joined, IndexOf, JoinAt, ToScan;
    var k := IndexOf(s, c);
    if k < |s| && Continues(s, k, eolChar) {
      JoinedFurther(s, c, k);
      NextCounts(JoinAt(s, k), c, eolChar);
      JoinedOfJoin(s, c, eolChar);
      JoinCounts(s, k, c);
    } else {
      JoinedSplits(s, c, eolChar);
      var t := Joined(s, c, eolChar);
      NothingJoined(c, eolChar);
      if k < |s| {
        SplitCounts(s, k, c);
        SplitCounts(t, k, c);
      } else {
        NoneIn(s, c);
        assert s[..k] == s && t[..k] == t;
      }
    }
  }

  lemma JoinCounts(s: string, k: nat, c: char)
    requires 0 < k < |s| && s[k] == c && s[k - 1] != c
    ensures c == ' ' ==> multiset(JoinAt(s, k))[c] == multiset(s)[c] + 1
    ensures c != ' ' ==> multiset(JoinAt(s, k))[c] + 1 == multiset(s)[c]
  {
  }

  lemma SplitCounts(s: string, k: nat, c: char)
    requires k < |s| && s[k] == c && forall i :: 0 <= i < k ==> s[i] != c
    ensures multiset(s)[c] == 1 + multiset(s[k + 1..])[c]
  {
    NoneIn(s[..k], c);
    assert s == s[..k] + [c] + s[k + 1..];
  }

  /** The number of lines counted: one for every separator that was there or was joined, and one for a
      last line without one. */
  lemma {:induction false} LinesCounted(s: string, c: char, eolChar: char)
    ensures s != "" ==> |Joined(s, c, eolChar)| == |s|
    ensures Lines(s, c, eolChar).1 ==
      Physical(s, c, eolChar) + if s != "" && Last(Joined(s, c, eolChar)) != c then 1 else 0
    decreases |s|
  {
    hide Next, Joined;
    if s != "" {
      var n := Next(s, c, eolChar);
      NextCounts(s, c, eolChar);
      LinesCounted(n.rest, c, eolChar);
      JoinedEnds(s, c, eolChar);
    } else {
      NothingJoined(c, eolChar);
    }
  }

  lemma {:induction false} JoinedEnds(s: string, c: char, eolChar: char)
    requires s != ""
    ensures |Joined(s, c, eolChar)| == |s|
    ensures var rest := Next(s, c, eolChar).rest;
      rest != "" ==>
        |Joined(rest, c, eolChar)| == |rest| && Last(Joined(rest, c, eolChar)) == Last(Joined(s, c, eolChar))
    decreases ToScan(s, c)
  {
    hide Joined, IndexOf, ToScan;
    var k := IndexOf(s, c);
    if k < |s| && Continues(s, k, eolChar) {
      JoinedFurther(s, c, k);
      JoinedEnds(JoinAt(s, k), c, eolChar);
      JoinedOfJoin(s, c, eolChar);
    } else {
      JoinedSplits(s, c, eolChar);
      var t := Joined(s, c, eolChar);
      if k + 1 < |s| {
        assert t[|s| - 1] == t[k + 1..][|s| - k - 2];
      }
    }
  }

  // ----- the usual continuation -----

  /** Character i of the stream with its continued lines joined. */
  function JoinedChar(s: string, i: nat, c: char, eolChar: char): char
    requires i < |s|
  {
    if (s[i] == c && i > 0 && s[i - 1] == eolChar) || (s[i] == eolChar && i + 1 < |s| && s[i + 1] == c) then ' '
      else s[i]
  }

  /** t is what the first n characters of s have become; the last one of them may still be joined. */
  ghost predicate SoFar(t: string, s: string, n: nat, c: char, eolChar: char)
    requires n <= |s|
  {
    && |t| == n
    && (forall i :: 0 <= i < n - 1 ==> t[i] == JoinedChar(s, i, c, eolChar))
    && (n > 0 ==> t[n - 1] == if s[n - 1] == c && n > 1 && s[n - 2] == eolChar then ' ' else s[n - 1])
  }

  lemma {:induction false} ForthPointwise(t: string, s: string, n: nat, c: char, eolChar: char)
    requires c != ' ' && eolChar != ' ' && eolChar != c && n <= |s| && SoFar(t, s, n, c, eolChar)
    ensures SoFar(JoinForth(t, s[n..], c, eolChar), s, |s|, c, eolChar)
    decreases |s| - n
  {
    if n < |s| {
      var u := Push(t, s[n], c, eolChar);
      assert s[n..][0] == s[n] && s[n..][1..] == s[n + 1..];
      assert SoFar(u, s, n + 1, c, eolChar);
      ForthPointwise(u, s, n + 1, c, eolChar);
    } else {
      assert s[n..] == "";
    }
  }

  /** If neither character is a space, exactly the separators behind a continuation character and
      these characters turn into spaces. */
  lemma JoinedPointwise(s: string, c: char, eolChar: char)
    requires c != ' ' && eolChar != ' ' && eolChar != c && eolChar != '\0'
    ensures |Joined(s, c, eolChar)| == |s|
    ensures forall i :: 0 <= i < |s| ==> Joined(s, c, eolChar)[i] == JoinedChar(s, i, c, eolChar)
  {
    assert s[0..] == s;
    ForthPointwise("", s, 0, c, eolChar);
  }
}
