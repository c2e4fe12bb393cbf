/** The text an event identifier is computed from, as a function of the event: the strings that
    nostril.c:205-317 prints, and why no two events print the same. */
module NostrText {
  import opened Common
  import opened Decimals
  import Hex

  /** `struct nostr_event`, as far as the identifier depends on it.  A string holds what `strlen`
      sees of it. */
  datatype Event = Event(pubkey: seq<Hex.Octet>, createdAt: nat, kind: int, explicitTags: Option<string>,
    tags: seq<seq<string>>, content: string)

  /** `sizeof(timebuf) - 1` */
  const TIME_ROOM := 15

  // ----- strings -----

  /** The letter behind the backslash, for the characters that are escaped. */
  function EscapeLetter(c: char): Option<char>
  {
    match c
    case '\"' => Some('\"')
    case '\\' => Some('\\')
    case '\U{0008}' => Some('b')
    case '\U{000C}' => Some('f')
    case '\n' => Some('n')
    case '\r' => Some('r')
    case '\t' => Some('t')
    case _ => None
  }

  /** `cursor_push_escaped_char` */
  function Escaped(c: char): (text: string)
    ensures 1 <= |text| <= 2
  {
    if EscapeLetter(c).Some? then ['\\', EscapeLetter(c).value] else [c]
  }

  function EscapedAll(s: string): string
  {
    if s == "" then "" else Escaped(s[0]) + EscapedAll(s[1..])
  }

  /** `cursor_push_jsonstr` */
  function Quoted(s: string): (text: string)
    ensures |text| >= 2
  {
    "\"" + EscapedAll(s) + "\""
  }

  // ----- lists -----

  /** The elements with commas between them. */
  function Separated(texts: seq<string>): string
  {
    if texts == [] then ""
    else if |texts| == 1 then texts[0]
    else Separated(texts[..|texts| - 1]) + "," + texts[|texts| - 1]
  }

  function List(texts: seq<string>): string
  {
    "[" + Separated(texts) + "]"
  }

  function QuotedAll(strs: seq<string>): seq<string>
  {
    seq(|strs|, i requires 0 <= i < |strs| => Quoted(strs[i]))
  }

  /** `cursor_push_tag` */
  function TagText(strs: seq<string>): string
  {
    List(QuotedAll(strs))
  }

  function TagTexts(tags: seq<seq<string>>): (texts: seq<string>)
    ensures |texts| == |tags|
  {
    seq(|tags|, i requires 0 <= i < |tags| => TagText(tags[i]))
  }

  /** `cursor_push_tags` */
  function TagsText(ev: Event): string
  {
    if ev.explicitTags.Some? then ev.explicitTags.value
    else List(TagTexts(ev.tags))
  }

  // ----- numbers -----

  /** `"%d"` */
  function Signed(n: int): string
  {
    if n < 0 then "-" + Decimal(-n) else Decimal(n)
  }

  /** `"%" PRIu64` into `timebuf`, which keeps fifteen characters. */
  function TimeText(n: nat): string
  {
    var text := Decimal(n);
    if |text| > TIME_ROOM then text[..TIME_ROOM] else text
  }

  /** The bytes that `event_commitment` leaves in the buffer. */
  function Commitment(ev: Event): string
  {
    "[0,\"" + Hex.Encode(ev.pubkey) + "\"," + TimeText(ev.createdAt) + "," + Signed(ev.kind) + "," +
    TagsText(ev) + "," + Quoted(ev.content) + "]"
  }

  // ----- unique readability -----

  /** Two texts with continuations that read the same are the same, and so are the continuations. */
  lemma EscapedOnce(c: char, d: char, r: string, r': string)
    requires Escaped(c) + r == Escaped(d) + r'
    ensures c == d && r == r'
  {
    var x, y := Escaped(c) + r, Escaped(d) + r';
    assert x[0] == y[0];
    assert r == x[|Escaped(c)|..] && r' == y[|Escaped(d)|..];
    if EscapeLetter(c).Some? {
      assert x[1] == EscapeLetter(c).value;
      assert EscapeLetter(d).Some? && y[1] == EscapeLetter(d).value;
    }
  }

  /** A string body ends at the first quote that no backslash announces. */
  lemma StringStart(s: string, r: string)
    ensures var x := EscapedAll(s) + "\"" + r;
      && (s == "" <==> x[0] == '\"')
      && (s == "" ==> x[1..] == r)
      && (s != "" ==> x == Escaped(s[0]) + (EscapedAll(s[1..]) + "\"" + r))
  {
    if s == "" {
      assert (EscapedAll(s) + "\"" + r)[1..] == r;
    } else {
      EscapedStart(s[0], EscapedAll(s[1..]), r);
    }
  }

  lemma EscapedStart(c: char, e: string, r: string)
    ensures Escaped(c)[0] != '\"'
    ensures Escaped(c) + e + "\"" + r == Escaped(c) + (e + "\"" + r)
  {
  }

  lemma {:induction false} StringOnce(s: string, t: string, r: string, r': string)
    requires EscapedAll(s) + "\"" + r == EscapedAll(t) + "\"" + r'
    ensures s == t && r == r'
  {
    hide EscapedAll, Escaped;
    StringStart(s, r);
    StringStart(t, r');
    if s != "" {
      EscapedOnce(s[0], t[0], EscapedAll(s[1..]) + "\"" + r, EscapedAll(t[1..]) + "\"" + r');
      StringOnce(s[1..], t[1..], r, r');
      assert s == [s[0]] + s[1..] && t == [t[0]] + t[1..];
    }
  }

  lemma QuotedOnce(s: string, t: string, r: string, r': string)
    requires Quoted(s) + r == Quoted(t) + r'
    ensures s == t && r == r'
  {
    hide EscapedAll;
    var x, y := Quoted(s) + r, Quoted(t) + r';
    assert x[1..] == EscapedAll(s) + "\"" + r && y[1..] == EscapedAll(t) + "\"" + r';
    StringOnce(s, t, r, r');
  }

  /** Neither of two different texts begins with the other. */
  ghost predicate Apart(x: string, y: string)
  {
    x <= y || y <= x ==> x == y
  }

  lemma ApartSplits(x: string, y: string, r: string, r': string)
    requires Apart(x, y) && x + r == y + r'
    ensures x == y && r == r'
  {
    var z := x + r;
    assert x == z[..|x|] && y == z[..|y|];
    assert |x| <= |y| ==> x == y[..|x|];
    assert |y| <= |x| ==> y == x[..|y|];
    assert r == z[|x|..] && r' == z[|y|..];
  }

  lemma QuotedApart(s: string, t: string)
    ensures Apart(Quoted(s), Quoted(t))
  {
    hide Quoted;
    if Quoted(s) <= Quoted(t) {
      assert Quoted(s) + Quoted(t)[|Quoted(s)|..] == Quoted(t) + "";
      QuotedOnce(s, t, Quoted(t)[|Quoted(s)|..], "");
    } else if Quoted(t) <= Quoted(s) {
      assert Quoted(t) + Quoted(s)[|Quoted(t)|..] == Quoted(s) + "";
      QuotedOnce(t, s, Quoted(s)[|Quoted(t)|..], "");
    }
  }

  // ----- lists read once -----

  /** A list behind its opening bracket, from the first element on. */
  function Tail(texts: seq<string>): string
  {
    if texts == [] then "]"
    else if |texts| == 1 then texts[0] + "]"
    else texts[0] + "," + Tail(texts[1..])
  }

  lemma {:induction false} SeparatedFront(texts: seq<string>)
    requires |texts| >= 2
    ensures Separated(texts) == texts[0] + "," + Separated(texts[1..])
  {
    var n := |texts| - 1;
    if n >= 2 {
      SeparatedFront(texts[..n]);
      assert texts[1..][..n - 1] == texts[..n][1..];
      assert texts[0] + "," + Separated(texts[..n][1..]) + "," + texts[n] ==
        texts[0] + "," + (Separated(texts[..n][1..]) + "," + texts[n]);
    } else {
      assert texts[..1] == [texts[0]] && texts[1..] == [texts[1]];
    }
  }

  lemma {:induction false} TailIsList(texts: seq<string>)
    ensures Separated(texts) + "]" == Tail(texts)
  {
    if |texts| >= 2 {
      SeparatedFront(texts);
      TailIsList(texts[1..]);
      assert texts[0] + "," + Separated(texts[1..]) + "]" == texts[0] + "," + (Separated(texts[1..]) + "]");
    }
  }

  /** Elements that can stand in a list. */
  ghost predicate Elements(a: seq<string>, b: seq<string>)
  {
    && (forall i, j :: 0 <= i < |a| && 0 <= j < |b| ==> Apart(a[i], b[j]))
    && (forall i :: 0 <= i < |a| ==> a[i] != "" && a[i][0] != ']')
    && (forall i :: 0 <= i < |b| ==> b[i] != "" && b[i][0] != ']')
  }

  /** What follows the first element: the end of the list or a comma and the next element. */
  function After(texts: seq<string>): string
    requires texts != []
  {
    if |texts| == 1 then "]" else "," + Tail(texts[1..])
  }

  lemma TailStart(texts: seq<string>, r: string)
    requires forall i :: 0 <= i < |texts| ==> texts[i] != "" && texts[i][0] != ']'
    ensures var x := Tail(texts) + r;
      && (texts == [] <==> x[0] == ']')
      && (texts == [] ==> x[1..] == r)
      && (texts != [] ==> x == texts[0] + (After(texts) + r))
  {
    hide Separated;
    if |texts| == 1 {
      Associates(texts[0], "]", r);
    } else if |texts| > 1 {
      Associates(texts[0], ",", Tail(texts[1..]));
      Associates(texts[0], "," + Tail(texts[1..]), r);
    }
  }

  lemma AfterStart(texts: seq<string>, r: string)
    requires texts != []
    ensures var x := After(texts) + r;
      && (|texts| == 1 <==> x[0] == ']')
      && (|texts| == 1 ==> x[1..] == r)
      && (|texts| > 1 ==> x[1..] == Tail(texts[1..]) + r)
  {
  }

  lemma {:induction false} TailOnce(a: seq<string>, b: seq<string>, r: string, r': string)
    requires Elements(a, b) && Tail(a) + r == Tail(b) + r'
    ensures a == b && r == r'
  {
    hide Tail, After;
    TailStart(a, r);
    TailStart(b, r');
    if a != [] {
      ApartSplits(a[0], b[0], After(a) + r, After(b) + r');
      AfterStart(a, r);
      AfterStart(b, r');
      assert a == [a[0]] + a[1..] && b == [b[0]] + b[1..];
      if |a| > 1 {
        TailOnce(a[1..], b[1..], r, r');
      }
    }
  }

  lemma ListOnce(a: seq<string>, b: seq<string>, r: string, r': string)
    requires Elements(a, b) && List(a) + r == List(b) + r'
    ensures a == b && r == r'
  {
    hide Elements, Separated, Tail;
    TailIsList(a);
    TailIsList(b);
    var x, y := List(a) + r, List(b) + r';
    assert x[1..] == Tail(a) + r && y[1..] == Tail(b) + r';
    TailOnce(a, b, r, r');
  }

  lemma ListsApart(a: seq<string>, b: seq<string>)
    requires Elements(a, b) && Elements(b, a)
    ensures Apart(List(a), List(b))
  {
    hide List, Elements;
    if List(a) <= List(b) {
      assert List(a) + List(b)[|List(a)|..] == List(b) + "";
      ListOnce(a, b, List(b)[|List(a)|..], "");
    } else if List(b) <= List(a) {
      assert List(b) + List(a)[|List(b)|..] == List(a) + "";
      ListOnce(b, a, List(a)[|List(b)|..], "");
    }
  }

  lemma QuotedElements(a: seq<string>, b: seq<string>)
    ensures Elements(QuotedAll(a), QuotedAll(b))
  {
    forall i, j | 0 <= i < |a| && 0 <= j < |b|
      ensures Apart(QuotedAll(a)[i], QuotedAll(b)[j])
    {
      QuotedApart(a[i], b[j]);
    }
    hide Apart;
  }

  lemma QuotedAllOnce(a: seq<string>, b: seq<string>)
    requires QuotedAll(a) == QuotedAll(b)
    ensures a == b
  {
    assert |QuotedAll(a)| == |a| && |QuotedAll(b)| == |b|;
    forall i | 0 <= i < |a|
      ensures a[i] == b[i]
    {
      assert Quoted(a[i]) == QuotedAll(a)[i] == QuotedAll(b)[i] == Quoted(b[i]);
      QuotedOnce(a[i], b[i], "", "");
    }
  }

  lemma TagApart(a: seq<string>, b: seq<string>)
    ensures Apart(TagText(a), TagText(b))
    ensures TagText(a) == TagText(b) ==> a == b
  {
    hide List, QuotedAll;
    QuotedElements(a, b);
    QuotedElements(b, a);
    ListsApart(QuotedAll(a), QuotedAll(b));
    if TagText(a) == TagText(b) {
      ListOnce(QuotedAll(a), QuotedAll(b), "", "");
      QuotedAllOnce(a, b);
    }
  }

  lemma TagsOnce(a: seq<seq<string>>, b: seq<seq<string>>, r: string, r': string)
    requires List(TagTexts(a)) + r == List(TagTexts(b)) + r'
    ensures a == b && r == r'
  {
    hide List, Apart;
    forall i, j | 0 <= i < |a| && 0 <= j < |b|
      ensures Apart(TagTexts(a)[i], TagTexts(b)[j])
    {
      TagApart(a[i], b[j]);
    }
    TagStarts(a);
    TagStarts(b);
    hide TagText, TagTexts;
    ListOnce(TagTexts(a), TagTexts(b), r, r');
    TagTextsOnce(a, b);
  }

  lemma TagStarts(a: seq<seq<string>>)
    ensures forall i :: 0 <= i < |a| ==> TagTexts(a)[i] != "" && TagTexts(a)[i][0] != ']'
  {
    hide Separated;
  }

  lemma TagTextsOnce(a: seq<seq<string>>, b: seq<seq<string>>)
    requires TagTexts(a) == TagTexts(b)
    ensures a == b
  {
    forall i | 0 <= i < |a|
      ensures a[i] == b[i]
    {
      hide TagText;
      assert TagText(a[i]) == TagTexts(a)[i] == TagTexts(b)[i] == TagText(b[i]);
      TagApart(a[i], b[i]);
    }
  }

  // ----- numbers read once -----

  lemma DecimalOnce(m: nat, n: nat, r: string, r': string)
    requires Decimal(m) + ("," + r) == Decimal(n) + ("," + r')
    ensures m == n && r == r'
  {
    hide Decimal;
    var x := Decimal(m) + ("," + r);
    var y := Decimal(n) + ("," + r');
    assert x[0..|Decimal(m)|] == Decimal(m) && x[|Decimal(m)|] == ',';
    assert y[0..|Decimal(n)|] == Decimal(n) && y[|Decimal(n)|] == ',';
    ReadsDecimal(x, 0, m, 0);
    ReadsDecimal(y, 0, n, 0);
    assert 0 * Pow10(|Decimal(m)|) == 0 * Pow10(|Decimal(n)|) == 0;
    assert r == x[|Decimal(m)| + 1..] && r' == y[|Decimal(n)| + 1..];
  }

  lemma SignedOnce(m: int, n: int, r: string, r': string)
    requires Signed(m) + ("," + r) == Signed(n) + ("," + r')
    ensures m == n && r == r'
  {
    hide Decimal, Signed;
    SignedStart(m);
    SignedStart(n);
    var s, t := "," + r, "," + r';
    assert (Signed(m) + s)[0] == Signed(m)[0] && (Signed(n) + t)[0] == Signed(n)[0];
    if m < 0 {
      assert (Signed(m) + s)[1..] == Decimal(-m) + s && (Signed(n) + t)[1..] == Decimal(-n) + t;
      DecimalOnce(-m, -n, r, r');
    } else {
      DecimalOnce(m, n, r, r');
    }
  }

  lemma SignedStart(n: int)
    ensures |Signed(n)| > 0 && (Signed(n)[0] == '-' <==> n < 0)
    ensures n < 0 ==> Signed(n)[1..] == Decimal(-n)
    ensures n >= 0 ==> Signed(n) == Decimal(n)
  {
    if n >= 0 { assert Decimal(n)[0] in Decimal(n); }
  }

  /** Below 10^15 nothing is cut off. */
  lemma TimeFits(n: nat)
    requires n < 1_000_000_000_000_000
    ensures TimeText(n) == Decimal(n)
  {
    assert Pow10(15) == 1_000_000_000_000_000;
    DecimalLength(n, 15);
  }

  lemma {:induction false} DecimalAtLeast(n: nat, k: nat)
    requires n >= Pow10(k)
    ensures |Decimal(n)| > k
  {
    if k > 0 { DecimalAtLeast(n / 10, k - 1); }
  }

  /** From 10^15 on every time reads like the one without its last digit. */
  lemma TimeCollides(n: nat)
    requires n >= 1_000_000_000_000_000
    ensures TimeText(n) == TimeText(n / 10) && n != n / 10
  {
    assert Pow10(14) == 100_000_000_000_000;
    DecimalAtLeast(n / 10, 14);
    assert Decimal(n)[..|Decimal(n / 10)|] == Decimal(n / 10);
    var q := Decimal(n / 10);
    assert Decimal(n)[..TIME_ROOM] == q[..TIME_ROOM];
  }

  lemma DecimalApart(m: nat, n: nat)
    requires Decimal(m) == Decimal(n)
    ensures m == n
  {
    DecimalOnce(m, n, "", "");
  }

  /** The text tells all times below a bound exactly if the bound is at most 10^15. */
  lemma TimeExactly(bound: nat)
    ensures bound <= 1_000_000_000_000_000 <==>
      forall m: nat, n: nat :: m < bound && n < bound && TimeText(m) == TimeText(n) ==> m == n
  {
    hide TimeText, Decimal;
    if bound <= 1_000_000_000_000_000 {
      forall m: nat, n: nat | m < bound && n < bound && TimeText(m) == TimeText(n)
        ensures m == n
      {
        TimeFits(m);
        TimeFits(n);
        DecimalApart(m, n);
      }
    } else {
      TimeCollides(1_000_000_000_000_000);
    }
  }

  // ----- the whole text -----

  /** What follows the public key, piece by piece. */
  function ContentPart(ev: Event): string
  {
    Quoted(ev.content) + "]"
  }

  function TagsPart(ev: Event): string
  {
    TagsText(ev) + ("," + ContentPart(ev))
  }

  function KindPart(ev: Event): string
  {
    Signed(ev.kind) + ("," + TagsPart(ev))
  }

  function TimePart(ev: Event): string
  {
    TimeText(ev.createdAt) + ("," + KindPart(ev))
  }

  lemma CommitmentParts(ev: Event)
    ensures Commitment(ev) == "[0,\"" + (Hex.Encode(ev.pubkey) + ("\"," + TimePart(ev)))
  {
    hide Hex.Encode, TimeText, Signed, TagsText, Quoted;
    PartsRegroup(Hex.Encode(ev.pubkey), TimeText(ev.createdAt), Signed(ev.kind), TagsText(ev), Quoted(ev.content));
  }

  lemma PartsRegroup(h: string, t: string, k: string, g: string, c: string)
    ensures "[0,\"" + h + "\"," + t + "," + k + "," + g + "," + c + "]" ==
      "[0,\"" + (h + ("\"," + (t + ("," + (k + ("," + (g + ("," + (c + "]")))))))))
  {
    var p0 := "[0,\"";
    var p1 := p0 + h;
    var p2 := p1 + "\",";
    var p3 := p2 + t;
    var p4 := p3 + ",";
    var p5 := p4 + k;
    var p6 := p5 + ",";
    var p7 := p6 + g;
    var p8 := p7 + ",";
    Associates(p8, c, "]");
    Associates(p7, ",", c + "]");
    Associates(p6, g, "," + (c + "]"));
    Associates(p5, ",", g + ("," + (c + "]")));
    Associates(p4, k, "," + (g + ("," + (c + "]"))));
    Associates(p3, ",", k + ("," + (g + ("," + (c + "]")))));
    Associates(p2, t, "," + (k + ("," + (g + ("," + (c + "]"))))));
    Associates(p1, "\",", t + ("," + (k + ("," + (g + ("," + (c + "]")))))));
    Associates(p0, h, "\"," + (t + ("," + (k + ("," + (g + ("," + (c + "]"))))))));
  }

  /** Different events never share a text. */
  lemma CommitmentOnce(a: Event, b: Event)
    requires |a.pubkey| == |b.pubkey|
    requires a.createdAt < 1_000_000_000_000_000 && b.createdAt < 1_000_000_000_000_000
    requires a.explicitTags == b.explicitTags == None
    requires Commitment(a) == Commitment(b)
    ensures a == b
  {
    hide *;
    CommitmentParts(a);
    CommitmentParts(b);
    PubkeyOnce(a.pubkey, b.pubkey, TimePart(a), TimePart(b));
    PartsOnce(a, b);
  }

  lemma PubkeyOnce(a: seq<Hex.Octet>, b: seq<Hex.Octet>, r: string, r': string)
    requires |a| == |b|
    requires "[0,\"" + (Hex.Encode(a) + ("\"," + r)) == "[0,\"" + (Hex.Encode(b) + ("\"," + r'))
    ensures a == b && r == r'
  {
    hide Hex.Encode;
    var x := "[0,\"" + (Hex.Encode(a) + ("\"," + r));
    var y := "[0,\"" + (Hex.Encode(b) + ("\"," + r'));
    var n := 4 + 2 * |a|;
    assert Hex.Encode(a) == x[4..n] && Hex.Encode(b) == y[4..n];
    assert r == x[n + 2..] && r' == y[n + 2..];
    Hex.DecodeEncode(a);
    Hex.DecodeEncode(b);
  }

  lemma PartsOnce(a: Event, b: Event)
    requires a.createdAt < 1_000_000_000_000_000 && b.createdAt < 1_000_000_000_000_000
    requires a.explicitTags == b.explicitTags == None && a.pubkey == b.pubkey
    requires TimePart(a) == TimePart(b)
    ensures a == b
  {
    hide TimeText, Signed, List, TagTexts, Quoted;
    TimeFits(a.createdAt);
    TimeFits(b.createdAt);
    DecimalOnce(a.createdAt, b.createdAt, KindPart(a), KindPart(b));
    SignedOnce(a.kind, b.kind, TagsPart(a), TagsPart(b));
    TagsOnce(a.tags, b.tags, "," + ContentPart(a), "," + ContentPart(b));
    assert ContentPart(a) == ("," + ContentPart(a))[1..] && ContentPart(b) == ("," + ContentPart(b))[1..];
    QuotedOnce(a.content, b.content, "]", "]");
  }

  /** The events of one key with times below a bound. */
  ghost predicate Told(ev: Event, pubkey: seq<Hex.Octet>, bound: nat)
  {
    ev.pubkey == pubkey && ev.createdAt < bound && ev.explicitTags == None
  }

  lemma LaterCollides(pubkey: seq<Hex.Octet>)
    ensures var a := Event(pubkey, 1_000_000_000_000_000, 0, None, [], "");
      var b := a.(createdAt := 100_000_000_000_000);
      a != b && Commitment(a) == Commitment(b)
  {
    hide TimeText;
    TimeCollides(1_000_000_000_000_000);
  }

  /** The text tells all events with times below a bound exactly if the bound is at most 10^15. */
  lemma CommitmentExactly(pubkey: seq<Hex.Octet>, bound: nat)
    ensures bound <= 1_000_000_000_000_000 <==>
      forall a, b :: Told(a, pubkey, bound) && Told(b, pubkey, bound) && Commitment(a) == Commitment(b) ==> a == b
  {
    hide Commitment;
    if bound <= 1_000_000_000_000_000 {
      forall a, b | Told(a, pubkey, bound) && Told(b, pubkey, bound) && Commitment(a) == Commitment(b)
        ensures a == b
      {
        CommitmentOnce(a, b);
      }
    } else {
      LaterCollides(pubkey);
      var a := Event(pubkey, 1_000_000_000_000_000, 0, None, [], "");
      assert Told(a, pubkey, bound) && Told(a.(createdAt := 100_000_000_000_000), pubkey, bound);
    }
  }

  /** Without the two conditions the text is not unique: explicit tags print as they are. */
  lemma ExplicitTagsCollide(ev: Event)
    requires ev.explicitTags == None
    ensures Commitment(ev.(explicitTags := Some(TagsText(ev)), tags := [])) == Commitment(ev)
    ensures ev.(explicitTags := Some(TagsText(ev)), tags := []) != ev
  {
  }
}
