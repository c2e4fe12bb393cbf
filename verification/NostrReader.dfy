/** A reader of JSON texts, after sections 2 to 7 of RFC 8259, and what it reads in the text an event
    identifier is computed from. */
module NostrReader {
  import opened Common
  import opened Decimals
  import opened NostrText
  import Hex

  // ----- the reader -----

  datatype Json = Num(number: int) | Str(text: string) | Arr(items: seq<Json>)

  /** The character that a letter behind a backslash stands for; `\u` does not occur in the texts read here. */
  function Unescaped(letter: char): Option<char>
  {
    if letter == '\"' || letter == '\\' || letter == '/' then Some(letter)
    else if letter == 'b' then Some('\U{0008}')
    else if letter == 'f' then Some('\U{000C}')
    else if letter == 'n' then Some('\U{000A}')
    else if letter == 'r' then Some('\U{000D}')
    else if letter == 't' then Some('\U{0009}')
    else None
  }

  /** Section 7 allows no control character in a string. */
  predicate IsControl(c: char)
  {
    c < '\U{0020}'
  }

  /** A string behind its opening quote, and what follows the closing one. */
  function ReadChars(s: string, strict: bool): (r: Option<(string, string)>)
    ensures r.Some? ==> |r.value.1| < |s|
    decreases |s|
  {
    if s == "" || (strict && IsControl(s[0])) then None
    else if s[0] == '\"' then Some(("", s[1..]))
    else if s[0] == '\\' then
      if |s| < 2 || Unescaped(s[1]).None? then None else Before(Unescaped(s[1]).value, ReadChars(s[2..], strict))
    else Before(s[0], ReadChars(s[1..], strict))
  }

  function Before(c: char, r: Option<(string, string)>): (r': Option<(string, string)>)
    ensures r'.Some? <==> r.Some?
    ensures r'.Some? ==> r'.value.1 == r.value.1
  {
    if r.None? then None else Some(([c] + r.value.0, r.value.1))
  }

  /** A value, and what follows it. */
  function ReadValue(s: string, strict: bool): (r: Option<(Json, string)>)
    ensures r.Some? ==> |r.value.1| < |s|
    decreases |s|, 0
  {
    if s == "" then None
    else if s[0] == '\"' then
      var r := ReadChars(s[1..], strict);
      if r.None? then None else Some((Str(r.value.0), r.value.1))
    else if s[0] == '[' then
      if |s| > 1 && s[1] == ']' then Some((Arr([]), s[2..]))
      else
        var r := ReadItems(s[1..], strict);
        if r.None? then None else Some((Arr(r.value.0), r.value.1))
    else ReadNumber(s)
  }

  /** One value or more with commas between them, up to the closing bracket. */
  function ReadItems(s: string, strict: bool): (r: Option<(seq<Json>, string)>)
    ensures r.Some? ==> |r.value.1| < |s|
    decreases |s|, 1
  {
    var first := ReadValue(s, strict);
    if first.None? || first.value.1 == "" then None
    else
      var (v, rest) := first.value;
      if rest[0] == ']' then Some(([v], rest[1..]))
      else if rest[0] == ',' then
        var more := ReadItems(rest[1..], strict);
        if more.None? then None else Some(([v] + more.value.0, more.value.1))
      else None
  }

  function ReadNumber(s: string): (r: Option<(Json, string)>)
    requires s != ""
    ensures r.Some? ==> |r.value.1| < |s|
  {
    var start := if s[0] == '-' then 1 else 0;
    DigitsBound(s, start, 0);
    var (value, end) := Digits(s, start, 0);
    var number: int := value;
    if end == start then None else Some((Num(if s[0] == '-' then -number else number), s[end..]))
  }

  // ----- strings -----

  /** Control characters other than those that have a letter are printed as they are. */
  predicate Printable(s: string, strict: bool)
  {
    strict ==> forall i :: 0 <= i < |s| ==> !IsControl(s[i]) || EscapeLetter(s[i]).Some?
  }

  lemma LetterRead(c: char)
    requires EscapeLetter(c).Some?
    ensures Unescaped(EscapeLetter(c).value) == Some(c) && !IsControl(EscapeLetter(c).value)
  {
  }

  lemma OneChar(c: char, rest: string, strict: bool)
    requires Printable([c], strict)
    ensures ReadChars(Escaped(c) + rest, strict) == Before(c, ReadChars(rest, strict))
  {
    assert !strict || !IsControl([c][0]) || EscapeLetter([c][0]).Some?;
    var s := Escaped(c) + rest;
    if EscapeLetter(c).Some? {
      LetterRead(c);
      assert s[0] == '\\' && s[1] == EscapeLetter(c).value && s[2..] == rest;
    } else {
      assert s[0] == c && s[1..] == rest;
    }
  }

  /** The escaped characters of s read back as s. */
  lemma {:induction false} CharsRead(s: string, rest: string, strict: bool)
    requires Printable(s, strict)
    ensures ReadChars(EscapedAll(s) + "\"" + rest, strict) == Some((s, rest))
  {
    hide ReadChars, EscapedAll, Escaped;
    if s == "" {
      NoChars(rest, strict);
    } else {
      CharsRead(s[1..], rest, strict);
      StringStart(s, rest);
      OneChar(s[0], EscapedAll(s[1..]) + "\"" + rest, strict);
      assert [s[0]] + s[1..] == s;
    }
  }

  lemma NoChars(rest: string, strict: bool)
    ensures ReadChars(EscapedAll("") + "\"" + rest, strict) == Some(("", rest))
  {
    var s := EscapedAll("") + "\"" + rest;
    assert s[0] == '\"' && s[1..] == rest;
  }

  /** A strict reader refuses a string that holds any other control character. */
  lemma {:induction false} ControlsRefused(s: string, rest: string)
    requires !Printable(s, true)
    ensures ReadChars(EscapedAll(s) + "\"" + rest, true) == None
  {
    hide EscapedAll, Escaped;
    StringStart(s, rest);
    if Printable([s[0]], true) {
      assert !IsControl([s[0]][0]) || EscapeLetter([s[0]][0]).Some?;
      var i :| 0 <= i < |s| && IsControl(s[i]) && EscapeLetter(s[i]).None?;
      assert s[1..][i - 1] == s[i];
      ControlsRefused(s[1..], rest);
      hide ReadChars;
      OneChar(s[0], EscapedAll(s[1..]) + "\"" + rest, true);
    } else {
      RawControl(s[0]);
      assert (Escaped(s[0]) + (EscapedAll(s[1..]) + "\"" + rest))[0] == s[0];
    }
  }

  lemma RawControl(c: char)
    requires !Printable([c], true)
    ensures IsControl(c) && Escaped(c) == [c]
  {
  }

  // ----- values -----

  /** What can follow a value in a list. */
  predicate Ends(rest: string)
  {
    rest == "" || rest[0] == ',' || rest[0] == ']'
  }

  /** The text reads as v, or is refused, whatever follows. */
  ghost predicate ReadsAs(text: string, v: Option<Json>, strict: bool)
  {
    text != "" && text[0] != ']' && forall rest | Ends(rest) :: ReadValue(text + rest, strict) == Behind(v, rest)
  }

  function Behind(v: Option<Json>, rest: string): Option<(Json, string)>
  {
    if v.Some? then Some((v.value, rest)) else None
  }

  /** What a string reads as. */
  function StrRead(s: string, strict: bool): Option<Json>
  {
    if Printable(s, strict) then Some(Str(s)) else None
  }

  lemma QuotedReads(s: string, strict: bool)
    ensures ReadsAs(Quoted(s), StrRead(s, strict), strict)
  {
    hide EscapedAll, ReadChars;
    forall rest | Ends(rest)
      ensures ReadValue(Quoted(s) + rest, strict) == Behind(StrRead(s, strict), rest)
    {
      if Printable(s, strict) { CharsRead(s, rest, strict); } else { ControlsRefused(s, rest); }
      var x := Quoted(s) + rest;
      assert x[0] == '\"' && x[1..] == EscapedAll(s) + "\"" + rest;
    }
  }

  lemma DecimalReads(n: nat, strict: bool)
    ensures ReadsAs(Decimal(n), Some(Num(n)), strict)
  {
    hide Decimal;
    assert Decimal(n)[0] in Decimal(n);
    forall rest | Ends(rest)
      ensures ReadValue(Decimal(n) + rest, strict) == Some((Num(n), rest))
    {
      var s := Decimal(n) + rest;
      DigitsStop(Decimal(n), rest, 0, n);
      assert s[0] == Decimal(n)[0];
      assert s[|Decimal(n)|..] == rest;
    }
  }

  /** The digits end where the numeral does. */
  lemma DigitsStop(d: string, rest: string, start: nat, n: nat)
    requires start <= |d| && d[start..] == Decimal(n) && Ends(rest)
    ensures Digits(d + rest, start, 0) == (n, |d|)
  {
    hide Decimal, Pow10;
    var s := d + rest;
    assert s[start..start + |Decimal(n)|] == Decimal(n);
    ReadsDecimal(s, start, n, 0);
    assert 0 * Pow10(|Decimal(n)|) == 0;
    assert rest != "" ==> s[|d|] == rest[0];
  }

  lemma SignedReads(n: int, strict: bool)
    ensures ReadsAs(Signed(n), Some(Num(n)), strict)
  {
    hide Decimal;
    if n >= 0 {
      DecimalReads(n, strict);
    } else {
      var d := Signed(n);
      forall rest | Ends(rest)
        ensures ReadValue(d + rest, strict) == Some((Num(n), rest))
      {
        assert d[1..] == Decimal(-n);
        DigitsStop(d, rest, 1, -n);
        assert (d + rest)[0] == '-' && (d + rest)[|d|..] == rest;
      }
    }
  }

  // ----- lists -----

  ghost predicate AllRead(texts: seq<string>, vs: seq<Option<Json>>, strict: bool)
  {
    |texts| == |vs| && forall i :: 0 <= i < |texts| ==> ReadsAs(texts[i], vs[i], strict)
  }

  predicate Complete(vs: seq<Option<Json>>)
  {
    forall i :: 0 <= i < |vs| ==> vs[i].Some?
  }

  function Values(vs: seq<Option<Json>>): seq<Json>
    requires Complete(vs)
  {
    seq(|vs|, i requires 0 <= i < |vs| => vs[i].value)
  }

  /** A list is refused with any of its items. */
  function ListRead(vs: seq<Option<Json>>): Option<Json>
  {
    if Complete(vs) then Some(Arr(Values(vs))) else None
  }

  lemma FirstItem(texts: seq<string>, vs: seq<Option<Json>>, rest: string, strict: bool)
    requires texts != [] && AllRead(texts, vs, strict)
    ensures ReadValue(texts[0] + (After(texts) + rest), strict) == Behind(vs[0], After(texts) + rest)
    ensures Tail(texts) + rest == texts[0] + (After(texts) + rest)
  {
    hide ReadValue;
    assert Ends(After(texts) + rest);
    assert ReadsAs(texts[0], vs[0], strict);
    TailStart(texts, rest) by {
      forall i | 0 <= i < |texts| ensures texts[i] != "" && texts[i][0] != ']' {
        assert ReadsAs(texts[i], vs[i], strict);
      }
    }
  }

  lemma CompleteFrom(vs: seq<Option<Json>>)
    requires vs != []
    ensures Complete(vs) <==> vs[0].Some? && Complete(vs[1..])
    ensures Complete(vs) ==> Values(vs) == [vs[0].value] + Values(vs[1..])
  {
    if vs[0].Some? && Complete(vs[1..]) {
      forall i | 0 <= i < |vs| ensures vs[i].Some? {
        if i > 0 { assert vs[1..][i - 1].Some?; }
      }
    }
  }

  lemma {:induction false} ItemsRead(texts: seq<string>, vs: seq<Option<Json>>, rest: string, strict: bool)
    requires texts != [] && AllRead(texts, vs, strict)
    ensures ReadItems(Tail(texts) + rest, strict) == if Complete(vs) then Some((Values(vs), rest)) else None
  {
    hide ReadValue, ReadsAs, Tail, After, Complete, Values;
    FirstItem(texts, vs, rest, strict);
    AfterStart(texts, rest);
    AfterComma(texts, rest);
    CompleteFrom(vs);
    if |texts| > 1 {
      ItemsRead(texts[1..], vs[1..], rest, strict);
    } else {
      NoValues(vs[1..]);
      if vs[0].Some? { assert [vs[0].value] + [] == [vs[0].value]; }
    }
  }

  lemma NoValues(vs: seq<Option<Json>>)
    requires |vs| == 0
    ensures Complete(vs) && Values(vs) == []
  {
  }

  lemma AfterComma(texts: seq<string>, rest: string)
    requires texts != []
    ensures After(texts) + rest != "" && (|texts| > 1 ==> (After(texts) + rest)[0] == ',')
  {
  }

  /** A list of texts that read as values reads as the list of the values. */
  lemma ListReads(texts: seq<string>, vs: seq<Option<Json>>, strict: bool)
    requires AllRead(texts, vs, strict)
    ensures ReadsAs(List(texts), ListRead(vs), strict)
  {
    hide ReadsAs, ReadItems, Separated, Tail, Complete, Values;
    TailIsList(texts);
    forall rest | Ends(rest)
      ensures ReadValue(List(texts) + rest, strict) == Behind(ListRead(vs), rest)
    {
      var s := List(texts) + rest;
      assert s[0] == '[' && s[1..] == Tail(texts) + rest;
      if texts == [] {
        EmptyTail();
        NoValues(vs);
        assert s == "[]" + rest && s[2..] == rest;
      } else {
        FirstItem(texts, vs, rest, strict);
        StartsWell(texts[0], vs[0], strict);
        assert s[1] == (texts[0] + (After(texts) + rest))[0];
        ItemsRead(texts, vs, rest, strict);
      }
    }
    MakesReads(List(texts), ListRead(vs), strict);
  }

  lemma EmptyTail()
    ensures Tail([]) == "]"
  {
  }

  lemma StartsWell(text: string, v: Option<Json>, strict: bool)
    requires ReadsAs(text, v, strict)
    ensures text != "" && text[0] != ']'
  {
  }

  lemma MakesReads(text: string, v: Option<Json>, strict: bool)
    requires text != "" && text[0] != ']'
    requires forall rest | Ends(rest) :: ReadValue(text + rest, strict) == Behind(v, rest)
    ensures ReadsAs(text, v, strict)
  {
  }

  // ----- the event -----

  function Strs(strs: seq<string>): seq<Json>
  {
    seq(|strs|, i requires 0 <= i < |strs| => Str(strs[i]))
  }

  function Tags(tags: seq<seq<string>>): seq<Json>
  {
    seq(|tags|, i requires 0 <= i < |tags| => Arr(Strs(tags[i])))
  }

  /** The array of NIP-01. */
  function Serialized(ev: Event): Json
  {
    Arr([Num(0), Str(Hex.Encode(ev.pubkey)), Num(ev.createdAt), Num(ev.kind), Arr(Tags(ev.tags)), Str(ev.content)])
  }

  predicate TagPrintable(strs: seq<string>, strict: bool)
  {
    forall j :: 0 <= j < |strs| ==> Printable(strs[j], strict)
  }

  predicate TagsPrintable(tags: seq<seq<string>>, strict: bool)
  {
    forall i :: 0 <= i < |tags| ==> TagPrintable(tags[i], strict)
  }

  function TagRead(strs: seq<string>, strict: bool): Option<Json>
  {
    if TagPrintable(strs, strict) then Some(Arr(Strs(strs))) else None
  }

  lemma TagReads(strs: seq<string>, strict: bool)
    ensures ReadsAs(TagText(strs), TagRead(strs, strict), strict)
  {
    hide ReadsAs, Quoted, List, Printable;
    var vs := seq(|strs|, j requires 0 <= j < |strs| => StrRead(strs[j], strict));
    forall j | 0 <= j < |strs| ensures ReadsAs(QuotedAll(strs)[j], vs[j], strict) {
      QuotedReads(strs[j], strict);
    }
    ListReads(QuotedAll(strs), vs, strict);
    assert forall j :: 0 <= j < |strs| ==> (vs[j].Some? <==> Printable(strs[j], strict));
    assert Complete(vs) ==> Values(vs) == Strs(strs);
  }

  lemma TagsRead(ev: Event, strict: bool)
    requires ev.explicitTags == None
    ensures ReadsAs(TagsText(ev), if TagsPrintable(ev.tags, strict) then Some(Arr(Tags(ev.tags))) else None, strict)
  {
    hide ReadsAs, TagText, List, TagPrintable, Strs;
    var n := |ev.tags|;
    var vs := seq(n, i requires 0 <= i < n => TagRead(ev.tags[i], strict));
    forall i | 0 <= i < n ensures ReadsAs(TagTexts(ev.tags)[i], vs[i], strict) {
      TagReads(ev.tags[i], strict);
    }
    ListReads(TagTexts(ev.tags), vs, strict);
    assert forall i :: 0 <= i < n ==> (vs[i].Some? <==> TagPrintable(ev.tags[i], strict));
    assert Complete(vs) ==> Values(vs) == Tags(ev.tags);
  }

  lemma {:induction false} NothingEscaped(s: string)
    requires forall i :: 0 <= i < |s| ==> EscapeLetter(s[i]).None?
    ensures EscapedAll(s) == s
  {
    if s != "" {
      NothingEscaped(s[1..]);
      assert [s[0]] + s[1..] == s;
    }
  }

  lemma DigitPlain(v: nat)
    requires v < 16
    ensures EscapeLetter(Hex.HexChar(v)).None? && !IsControl(Hex.HexChar(v))
  {
  }

  lemma KeyReads(pubkey: seq<Hex.Octet>, strict: bool)
    ensures ReadsAs("\"" + Hex.Encode(pubkey) + "\"", Some(Str(Hex.Encode(pubkey))), strict)
  {
    hide ReadsAs, Hex.HexChar, EscapeLetter, IsControl, EscapedAll;
    var s := Hex.Encode(pubkey);
    forall i | 0 <= i < |s| ensures EscapeLetter(s[i]).None? && !IsControl(s[i]) {
      var b := pubkey[i / 2];
      DigitPlain(if i % 2 == 0 then b / 16 else b % 16);
    }
    NothingEscaped(s);
    QuotedReads(s, strict);
  }

  function Six(a: string, b: string, c: string, d: string, e: string, f: string): seq<string>
  {
    [a, b, c, d, e, f]
  }

  lemma SixSeparated(a: string, b: string, c: string, d: string, e: string, f: string)
    ensures Separated(Six(a, b, c, d, e, f)) == a + "," + b + "," + c + "," + d + "," + e + "," + f
  {
    hide Separated;
    OneSeparated(a);
    OneMore([a], b);
    OneMore([a, b], c);
    OneMore([a, b, c], d);
    OneMore([a, b, c, d], e);
    OneMore([a, b, c, d, e], f);
    assert [a] + [b] == [a, b] && [a, b] + [c] == [a, b, c] && [a, b, c] + [d] == [a, b, c, d];
    assert [a, b, c, d] + [e] == [a, b, c, d, e] && [a, b, c, d, e] + [f] == Six(a, b, c, d, e, f);
  }

  lemma OneSeparated(a: string)
    ensures Separated([a]) == a
  {
  }

  lemma OneMore(texts: seq<string>, x: string)
    requires texts != []
    ensures Separated(texts + [x]) == Separated(texts) + "," + x
  {
    assert (texts + [x])[..|texts|] == texts;
  }

  /** The text of an event as a list. */
  lemma CommitmentIsList(ev: Event)
    ensures Commitment(ev) == List(Six("0", "\"" + Hex.Encode(ev.pubkey) + "\"", TimeText(ev.createdAt),
      Signed(ev.kind),
      TagsText(ev), Quoted(ev.content)))
  {
    hide Hex.Encode, TimeText, Signed, TagsText, Quoted;
    var h, t, k, g, c := Hex.Encode(ev.pubkey), TimeText(ev.createdAt), Signed(ev.kind), TagsText(ev),
      Quoted(ev.content);
    SixSeparated("0", "\"" + h + "\"", t, k, g, c);
    Regrouped(h, t, k, g, c);
  }

  lemma Regrouped(h: string, t: string, k: string, g: string, c: string)
    ensures "[0,\"" + h + "\"," + t + "," + k + "," + g + "," + c + "]" ==
      "[" + ("0" + "," + ("\"" + h + "\"") + "," + t + "," + k + "," + g + "," + c) + "]"
  {
    var x := "\"" + h + "\"";
    assert "[0,\"" + h + "\"," == "[" + ("0" + "," + x + ",");
    var y := "0" + "," + x + ",";
    assert "[" + y + t + "," + k + "," + g + "," + c == "[" + (y + t + "," + k + "," + g + "," + c);
  }

  /** The text reads as 0, public key, time, kind, tags and content, in this order.  A strict reader does so
      exactly if all strings are printable: it refuses other control characters, which are printed raw. */
  lemma CommitmentReads(ev: Event, strict: bool)
    requires ev.explicitTags == None && ev.createdAt < 1_000_000_000_000_000
    ensures ReadValue(Commitment(ev), strict) ==
      if Printable(ev.content, strict) && TagsPrintable(ev.tags, strict) then Some((Serialized(ev), "")) else None
  {
    hide ReadsAs, Hex.Encode, TimeText, Signed, TagsText, Quoted, List, Tags, Decimal, Printable, TagsPrintable;
    var texts := Six("0", "\"" + Hex.Encode(ev.pubkey) + "\"", TimeText(ev.createdAt), Signed(ev.kind), TagsText(ev),
      Quoted(ev.content));
    var vs := [Some(Num(0)), Some(Str(Hex.Encode(ev.pubkey))), Some(Num(ev.createdAt)), Some(Num(ev.kind)),
      if TagsPrintable(ev.tags, strict) then Some(Arr(Tags(ev.tags))) else None, StrRead(ev.content, strict)];
    ZeroText();
    DecimalReads(0, strict);
    KeyReads(ev.pubkey, strict);
    TimeFits(ev.createdAt);
    DecimalReads(ev.createdAt, strict);
    SignedReads(ev.kind, strict);
    TagsRead(ev, strict);
    QuotedReads(ev.content, strict);
    ListReads(texts, vs, strict);
    CommitmentIsList(ev);
    ReadsWhole(List(texts), ListRead(vs), strict);
    assert vs[4].Some? <==> TagsPrintable(ev.tags, strict);
    assert vs[5].Some? <==> Printable(ev.content, strict);
    assert Complete(vs) ==> Values(vs) == Serialized(ev).items;
  }

  lemma ZeroText()
    ensures Decimal(0) == "0"
  {
  }

  lemma ReadsWhole(text: string, v: Option<Json>, strict: bool)
    requires ReadsAs(text, v, strict)
    ensures ReadValue(text, strict) == Behind(v, "")
  {
    assert text + "" == text;
  }
}
