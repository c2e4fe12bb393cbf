/** Chunk headers of a unified diff: `parse_ulong` and `parse_chunk_header` of src/parse.c:186-225
    and the header line that src/stage.c prints. */
module ChunkHeader {
  import opened Common
  import opened Decimals

  const ULONG_MAX: nat := 0xffff_ffff_ffff_ffff

  datatype Side = Side(position: nat, lines: nat)

  /** `struct chunk_header` */
  datatype Header = Header(oldSide: Side, newSide: Side)

  // ----- C strings -----

  /** `s[i]` of a NUL-terminated string. */
  function CharAt(s: string, i: nat): char
  {
    if i < |s| then s[i] else '\0'
  }

  function SkipSpaces(s: string, i: nat): (j: nat)
    requires i <= |s|
    ensures i <= j <= |s|
    decreases |s| - i
  {
    if i < |s| && IsSpace(s[i]) then SkipSpaces(s, i + 1) else i
  }

  /** `strtoul(s + i, &end, 10)`: spaces, one sign, digits; saturated, and negated modulo 2^64
      after a minus sign.  With no digits the end is the start. */
  function Strtoul(s: string, i: nat): (r: (nat, nat))
    requires i <= |s|
    ensures i <= r.1 <= |s| && r.0 <= ULONG_MAX
  {
    var j := SkipSpaces(s, i);
    var negative := CharAt(s, j) == '-';
    var k := if negative || CharAt(s, j) == '+' then j + 1 else j;
    DigitsBound(s, k, 0);
    var (value, end) := Digits(s, k, 0);
    if end == k then (0, i)
    else if value > ULONG_MAX then (ULONG_MAX, end)
    else if negative && value > 0 then (ULONG_MAX + 1 - value, end)
    else (value, end)
  }

  // ----- parsing -----

  datatype Parsed = Fail | Absent | Number(value: nat, pos: nat)

  /** `parse_ulong` as a function of the text: at most one number behind the character `skip`.  `Absent` leaves the
      position and the value as they were and succeeds only where the number is optional. */
  function UlongAt(s: string, pos: nat, skip: char): (r: Parsed)
    requires pos <= |s|
    ensures r.Number? ==> pos < r.pos <= |s|
  {
    if CharAt(s, pos) != skip || pos == |s| then Absent
    else
      var (value, end) := Strtoul(s, pos + 1);
      if end == pos + 1 then Fail else Number(value, SkipSpaces(s, end))
  }

  function Mandatory(p: Parsed): Option<(nat, nat)>
  {
    match p
    case Number(v, pos) => Some((v, pos))
    case _ => None
  }

  function Optional(p: Parsed, default: nat, pos: nat): Option<(nat, nat)>
  {
    match p
    case Number(v, pos') => Some((v, pos'))
    case Absent => Some((default, pos))
    case Fail => None
  }

  /** `strstr(s + i, " @@@")`, with the length for not found. */
  function FindAts(s: string, i: nat): (k: nat)
    requires i <= |s|
    ensures i <= k <= |s|
    ensures k < |s| ==> " @@@" <= s[k..]
    decreases |s| - i
  {
    if i == |s| || " @@@" <= s[i..] then i else FindAts(s, i + 1)
  }

  /** The last '-' at or in front of i, if there is one. */
  function DashBefore(s: string, i: nat): (j: Option<nat>)
    requires i < |s|
    ensures j.Some? ==> j.value <= i && s[j.value] == '-'
  {
    if s[i] == '-' then Some(i) else if i == 0 then None else DashBefore(s, i - 1)
  }

  /** Where the numbers start: behind "@@ ", or at the last '-' of the header of a combined diff. */
  function NumbersAt(s: string): (p: Option<nat>)
    ensures p.Some? ==> p.value < |s| && s[p.value] == '-'
  {
    if "@@ -" <= s then Some(3)
    else if "@@@" <= s && FindAts(s, 0) < |s| then DashBefore(s, FindAts(s, 0))
    else None
  }

  /** The header of a combined diff has a '-'; the C code looks for one without a check. */
  predicate HasDash(s: string)
  {
    !("@@ -" <= s) && "@@@" <= s && FindAts(s, 0) < |s| ==> DashBefore(s, FindAts(s, 0)).Some?
  }

  /** The sides from p on; line counts default to one. */
  function SidesAt(s: string, p: nat): Option<Header>
    requires p <= |s|
  {
    var a := Mandatory(UlongAt(s, p, '-'));
    if a == None then None else
    var b := Optional(UlongAt(s, a.value.1, ','), 1, a.value.1);
    if b == None then None else
    var c := Mandatory(UlongAt(s, b.value.1, '+'));
    if c == None then None else
    var d := Optional(UlongAt(s, c.value.1, ','), 1, c.value.1);
    if d == None then None else
    Some(Header(Side(a.value.0, b.value.0), Side(c.value.0, d.value.0)))
  }

  /** `parse_chunk_header`; of a combined diff the last old side is read. */
  function Parse(s: string): Option<Header>
  {
    var p := NumbersAt(s);
    if p.None? then None else SidesAt(s, p.value)
  }

  /** `parse_ulong`: the pointer and the value are passed in and handed back. */
  method ParseUlong(s: string, start: nat, current: nat, skip: char, optional: bool)
    returns (ok: bool, pos: nat, value: nat)
    requires start <= |s| && skip != '\0'
    ensures pos <= |s|
    ensures match UlongAt(s, start, skip)
      case Absent => ok == optional && pos == start && value == current
      case Fail => !ok
      case Number(v, e) => ok && pos == e && value == v
  {
    pos, value := start, current;
    if CharAt(s, pos) != skip { return optional, pos, value; }
    var (read, end) := Strtoul(s, pos + 1);
    value := read;
    if end == pos + 1 { return false, pos, value; }
    ghost var stop := end;
    while IsSpace(CharAt(s, end))
      invariant end <= |s| && SkipSpaces(s, end) == SkipSpaces(s, stop)
      decreases |s| - end
    {
      end := end + 1;
    }
    return true, end, value;
  }

  /** `parse_chunk_header` */
  method ParseChunkHeader(line: string) returns (ok: bool, header: Header)
    requires HasDash(line)
    ensures ok == Parse(line).Some?
    ensures ok ==> header == Parse(line).value
  {
    hide Strtoul, SkipSpaces, UlongAt;
    header := Header(Side(0, 1), Side(0, 1));
    var pos: nat;
    if "@@ -" <= line {
      pos := 3;
    } else if "@@@" <= line && FindAts(line, 0) < |line| {
      pos := FindAts(line, 0);
      while line[pos] != '-'
        invariant pos < |line| && DashBefore(line, pos) == DashBefore(line, FindAts(line, 0)) != None
        decreases pos
      {
        pos := pos - 1;
      }
    } else {
      return false, header;
    }
    var a, pos1, v1 := ParseUlong(line, pos, 0, '-', false);
    if !a { return false, header; }
    var b, pos2, v2 := ParseUlong(line, pos1, 1, ',', true);
    if !b { return false, header; }
    var c, pos3, v3 := ParseUlong(line, pos2, 0, '+', false);
    if !c { return false, header; }
    var d, pos4, v4 := ParseUlong(line, pos3, 1, ',', true);
    return d, Header(Side(v1, v2), Side(v3, v4));
  }

  // ----- printing -----

  function SideText(side: Side): string
  {
    Decimal(side.position) + "," + Decimal(side.lines)
  }

  /** `"@@ -%lu,%lu +%lu,%lu @@"` */
  function Format(h: Header): string
  {
    "@@ -" + SideText(h.oldSide) + " +" + SideText(h.newSide) + " @@"
  }

  ghost predicate Fits(h: Header)
  {
    h.oldSide.position <= ULONG_MAX && h.oldSide.lines <= ULONG_MAX && h.newSide.position <= ULONG_MAX &&
      h.newSide.lines <= ULONG_MAX
  }

  /** Every number that is read fits an `unsigned long`. */
  lemma ParsedFits(s: string)
    requires Parse(s).Some?
    ensures Fits(Parse(s).value)
  {
    hide SkipSpaces, Strtoul, NumbersAt;
  }

  /** Four numbers of at most twenty digits. */
  lemma FormatIsShort(h: Header)
    requires Fits(h)
    ensures |Format(h)| <= 91
  {
    assert ULONG_MAX < 100_0000_0000 * 100_0000_0000 == Pow10(20) by {
      assert Pow10(10) == 100_0000_0000;
      assert Pow10(20) == 100_0000_0000 * Pow10(10);
    }
    DecimalLength(h.oldSide.position, 20);
    DecimalLength(h.oldSide.lines, 20);
    DecimalLength(h.newSide.position, 20);
    DecimalLength(h.newSide.lines, 20);
    hide Decimal;
  }

  // ----- the round trip -----

  /** A printed number stands at i and something other than a digit follows it. */
  ghost predicate Stands(s: string, i: nat, n: nat)
  {
    var e := i + |Decimal(n)|;
    e < |s| && s[i..e] == Decimal(n) && !IsDigit(s[e])
  }

  /** `parse_ulong` reads a printed number. */
  lemma ReadsNumber(s: string, pos: nat, skip: char, n: nat)
    requires pos < |s| && s[pos] == skip && Stands(s, pos + 1, n) && n <= ULONG_MAX
    ensures UlongAt(s, pos, skip) == Number(n, SkipSpaces(s, pos + 1 + |Decimal(n)|))
  {
    hide Decimal, Pow10;
    var i := pos + 1;
    var e := i + |Decimal(n)|;
    assert s[i] == s[i..e][0] && s[i..e][0] in Decimal(n);
    assert IsDigit(s[i]);
    ReadsDecimal(s, i, n, 0);
    assert 0 * Pow10(|Decimal(n)|) == 0;
  }

  /** What `strtoul` makes of a number n, with a minus sign or without: it saturates, and negates modulo 2^64. */
  function Taken(n: nat, negative: bool): nat
  {
    if n > ULONG_MAX then ULONG_MAX else if negative && n > 0 then ULONG_MAX + 1 - n else n
  }

  lemma StartsWithDigit(s: string, k: nat, n: nat)
    requires k <= |s| && s[k..] == Decimal(n)
    ensures k < |s| && IsDigit(s[k]) && Digits(s, k, 0) == (n, |s|)
  {
    hide Decimal, Digits, IsDigit, Pow10;
    assert Decimal(n)[0] in Decimal(n);
    assert s[k] == s[k..][0];
    assert s[k..k + |Decimal(n)|] == Decimal(n);
    ReadsDecimal(s, k, n, 0);
    assert 0 * Pow10(|Decimal(n)|) == 0;
    NoDigits(s, n);
  }

  lemma NoDigits(s: string, value: nat)
    ensures Digits(s, |s|, value) == (value, |s|)
  {
  }

  /** A numeral of any size is read as its number, with or without a sign. */
  lemma StrtoulReads(s: string, i: nat, n: nat, sign: string)
    requires i <= |s| && s[i..] == sign + Decimal(n) && sign in {"", "+", "-"}
    ensures Strtoul(s, i) == (Taken(n, sign == "-"), |s|)
  {
    hide Decimal, Digits;
    var k := i + |sign|;
    assert s[k..] == Decimal(n) by { assert s[k..] == s[i..][|sign|..]; }
    StartsWithDigit(s, k, n);
    assert sign != "" ==> s[i] == sign[0] by { assert sign != "" ==> s[i] == s[i..][0]; }
    assert SkipSpaces(s, i) == i;
  }

  /** A number n behind the character `skip`, in front of `rest`. */
  lemma ReadsPiece(s: string, before: string, skip: char, n: nat, rest: string)
    requires s == before + [skip] + Decimal(n) + rest && n <= ULONG_MAX
    requires |rest| >= 2 && !IsDigit(rest[0])
    requires IsSpace(rest[0]) ==> !IsSpace(rest[1])
    ensures UlongAt(s, |before|, skip) ==
      Number(n, |before| + 1 + |Decimal(n)| + (if IsSpace(rest[0]) then 1 else 0))
  {
    hide Decimal, UlongAt;
    var i := |before| + 1;
    var e := i + |Decimal(n)|;
    assert s[i..e] == Decimal(n);
    assert s[e] == rest[0] && s[e + 1] == rest[1];
    ReadsNumber(s, |before|, skip, n);
  }

  /** The sides of a printed header are read behind whatever stands in front of them. */
  lemma ReadsSides(before: string, h: Header, rest: string)
    requires Fits(h)
    ensures SidesAt(before + "-" + SideText(h.oldSide) + " +" + SideText(h.newSide) + " @@" + rest, |before|) == Some(h)
  {
    hide Decimal, UlongAt, SkipSpaces;
    var a, b, c, d := Decimal(h.oldSide.position), Decimal(h.oldSide.lines), Decimal(h.newSide.position),
      Decimal(h.newSide.lines);
    var s := before + "-" + SideText(h.oldSide) + " +" + SideText(h.newSide) + " @@" + rest;
    var r3 := "," + d + (" @@" + rest);
    var r2 := " +" + c + r3;
    OldParts(before, a, b, r2);
    NewParts(before + "-" + a + "," + b + " ", c, d, rest);
    WholeParts(before, a, b, c, d, rest);
    ReadsPiece(s, before, '-', h.oldSide.position, "," + b + r2);
    ReadsPiece(s, before + "-" + a, ',', h.oldSide.lines, r2);
    ReadsPiece(s, before + "-" + a + "," + b + " ", '+', h.newSide.position, r3);
    ReadsPiece(s, before + "-" + a + "," + b + " " + "+" + c, ',', h.newSide.lines, " @@" + rest);
  }

  lemma OldParts(before: string, a: string, b: string, r: string)
    ensures before + ['-'] + a + ("," + b + r) == before + "-" + a + [','] + b + r
  {
    var x := before + ['-'] + a;
    assert x + ("," + b + r) == x + [','] + b + r;
  }

  lemma NewParts(before: string, c: string, d: string, rest: string)
    ensures before + ['+'] + c + ("," + d + (" @@" + rest)) == before + "+" + c + [','] + d + (" @@" + rest)
  {
    var x := before + ['+'] + c;
    assert x + ("," + d + (" @@" + rest)) == x + [','] + d + (" @@" + rest);
  }

  lemma WholeParts(before: string, a: string, b: string, c: string, d: string, rest: string)
    ensures var s := before + "-" + (a + "," + b) + " +" + (c + "," + d) + " @@" + rest;
      && s == before + "-" + a + [','] + b + (" +" + c + ("," + d + (" @@" + rest)))
      && s == before + "-" + a + "," + b + " " + ['+'] + c + ("," + d + (" @@" + rest))
  {
    var x := before + "-";
    Associates(x + a, ",", b);
    assert x + (a + "," + b) == x + a + "," + b;
    var y := x + a + "," + b;
    assert y + " +" + (c + "," + d) + " @@" + rest == y + (" +" + c + ("," + d + (" @@" + rest)));
    assert y + " " + ['+'] + c + ("," + d + (" @@" + rest)) == y + (" +" + c + ("," + d + (" @@" + rest)));
  }

  /** Every printed header is read back exactly, whatever stands behind it. */
  lemma HeaderRoundTrip(h: Header, heading: string)
    requires Fits(h)
    ensures Parse(Format(h) + heading) == Some(h)
  {
    hide SideText, SidesAt;
    var s := Format(h) + heading;
    assert s == "@@ " + "-" + SideText(h.oldSide) + " +" + SideText(h.newSide) + " @@" + heading;
    assert "@@ -" <= s;
    ReadsSides("@@ ", h, heading);
  }

  // ----- short forms -----

  /** One side as git prints it: a count of one is left out. */
  function SideForm(side: Side, short: bool): string
  {
    if short then Decimal(side.position) else SideText(side)
  }

  /** A side behind its sign, in front of a space. */
  lemma ReadsForm(before: string, sign: char, side: Side, short: bool, rest: string)
    requires side.position <= ULONG_MAX && side.lines <= ULONG_MAX && (short ==> side.lines == 1)
    requires |rest| > 0 && !IsDigit(rest[0]) && rest[0] != ',' && !IsSpace(rest[0])
    ensures var s := before + [sign] + SideForm(side, short) + (" " + rest);
      var p := UlongAt(s, |before|, sign);
      && p.Number? && p.value == side.position
      && Optional(UlongAt(s, p.pos, ','), 1, p.pos) == Some((side.lines, |s| - |rest|))
  {
    hide Decimal, UlongAt, SkipSpaces;
    var a, b := Decimal(side.position), Decimal(side.lines);
    var s := before + [sign] + SideForm(side, short) + (" " + rest);
    if short {
      ReadsPiece(s, before, sign, side.position, " " + rest);
      assert s[|s| - |rest|] == rest[0];
      OtherSign(s, |s| - |rest|, ',');
    } else {
      FormParts(before, sign, a, b, rest);
      ReadsPiece(s, before, sign, side.position, "," + b + (" " + rest));
      ReadsPiece(s, before + [sign] + a, ',', side.lines, " " + rest);
    }
  }

  lemma OtherSign(s: string, pos: nat, skip: char)
    requires pos < |s| && s[pos] != skip
    ensures UlongAt(s, pos, skip) == Absent
  {
  }

  lemma FormParts(before: string, sign: char, a: string, b: string, rest: string)
    ensures var s := before + [sign] + (a + "," + b) + (" " + rest);
      && s == before + [sign] + a + ("," + b + (" " + rest))
      && s == before + [sign] + a + [','] + b + (" " + rest)
  {
    var x := before + [sign];
    Associates(x, a + ",", b);
    Associates(x, a, ",");
    var y := x + a;
    assert y + "," + b + (" " + rest) == y + ("," + b + (" " + rest));
  }

  /** A header with any of its counts left out, as git prints it for a side of one line, is read back. */
  lemma ShortRoundTrip(h: Header, oldShort: bool, newShort: bool, heading: string)
    requires Fits(h) && (oldShort ==> h.oldSide.lines == 1) && (newShort ==> h.newSide.lines == 1)
    ensures Parse("@@ -" + SideForm(h.oldSide, oldShort) + " +" + SideForm(h.newSide, newShort) + " @@" + heading) ==
      Some(h)
  {
    hide SideForm, UlongAt;
    var o, n := SideForm(h.oldSide, oldShort), SideForm(h.newSide, newShort);
    var s := "@@ -" + o + " +" + n + " @@" + heading;
    var behind := "+" + n + (" " + ("@@" + heading));
    var front := "@@ -" + o + " ";
    ShortParts(o, n, heading);
    ReadsForm("@@ ", '-', h.oldSide, oldShort, behind);
    ReadsForm(front, '+', h.newSide, newShort, "@@" + heading);
  }

  lemma ShortParts(o: string, n: string, heading: string)
    ensures var s := "@@ -" + o + " +" + n + " @@" + heading;
      && s == "@@ " + ['-'] + o + (" " + ("+" + n + (" " + ("@@" + heading))))
      && s == "@@ -" + o + " " + ['+'] + n + (" " + ("@@" + heading))
      && "@@ -" <= s
  {
    var x := "@@ -" + o;
    var t := " +" + n + " @@" + heading;
    assert x + " +" + n + " @@" + heading == x + t;
    assert t == " " + ("+" + n + (" " + ("@@" + heading)));
    assert x + " " + ['+'] + n + (" " + ("@@" + heading)) == x + t;
  }

  // ----- combined diffs -----

  function Ats(n: nat): (s: string)
    ensures |s| == n
  {
    seq(n, _ => '@')
  }

  /** " -%lu,%lu" for every parent. */
  function ParentTexts(parents: seq<Side>): string
  {
    if parents == [] then "" else ParentTexts(parents[..|parents| - 1]) + " -" + SideText(parents[|parents| - 1])
  }

  /** The chunk header that git prints for a merge: one '@' more than there are parents. */
  function FormatCombined(parents: seq<Side>, newSide: Side): string
  {
    Ats(|parents| + 1) + ParentTexts(parents) + " +" + SideText(newSide) + " " + Ats(|parents| + 1)
  }

  predicate IsNumberChar(c: char)
  {
    IsDigit(c) || c == ','
  }

  lemma SideTextChars(side: Side)
    ensures forall i :: 0 <= i < |SideText(side)| ==> IsNumberChar(SideText(side)[i])
  {
    hide Decimal;
    forall i | 0 <= i < |SideText(side)| ensures IsNumberChar(SideText(side)[i]) {
      assert SideText(side)[i] == ',' || SideText(side)[i] in Decimal(side.position) ||
        SideText(side)[i] in Decimal(side.lines);
    }
  }

  lemma {:induction false} ParentTextsNoAt(parents: seq<Side>)
    ensures forall i :: 0 <= i < |ParentTexts(parents)| ==> ParentTexts(parents)[i] != '@'
  {
    hide SideText;
    if parents != [] {
      ParentTextsNoAt(parents[..|parents| - 1]);
      SideTextChars(parents[|parents| - 1]);
    }
  }

  lemma {:induction false} FindsAts(s: string, i: nat, k: nat)
    requires i <= k < |s| && " @@@" <= s[k..] && forall j :: i <= j < k ==> !(" @@@" <= s[j..])
    ensures FindAts(s, i) == k
    decreases k - i
  {
    if i < k { FindsAts(s, i + 1, k); }
  }

  lemma {:induction false} FindsDash(s: string, i: nat, j: nat)
    requires j <= i < |s| && s[j] == '-' && forall k :: j < k <= i ==> s[k] != '-'
    ensures DashBefore(s, i) == Some(j)
  {
    if j < i { FindsDash(s, i - 1, j); }
  }

  lemma StartsAts(t: string)
    ensures " @@@" <= t ==> |t| > 1 && t[0] == ' ' && t[1] == '@'
  {
  }

  lemma AtsBehind(first: string, middle: string, rest: string)
    requires (forall i :: 0 <= i < |first| ==> first[i] == '@') && forall i :: 0 <= i < |middle| ==> middle[i] != '@'
    ensures FindAts(first + middle + " @@@" + rest, 0) == |first + middle|
  {
    hide FindAts;
    var s, k := first + middle + " @@@" + rest, |first + middle|;
    assert s[k..] == " @@@" + rest;
    assert forall j :: |first| <= j < k ==> s[j] == middle[j - |first|];
    forall j | 0 <= j < k ensures !(" @@@" <= s[j..]) {
      assert s[j] != ' ' || s[j + 1] != '@';
      StartsAts(s[j..]);
    }
    FindsAts(s, 0, k);
  }

  lemma DashBehind(before: string, own: string, rest: string)
    requires own != "" && own[0] == '-' && forall i :: 0 < i < |own| ==> own[i] != '-'
    ensures DashBefore(before + own + " @@@" + rest, |before + own|) == Some(|before|)
  {
    hide DashBefore;
    var s := before + own + " @@@" + rest;
    assert forall j :: |before| <= j < |before + own| ==> s[j] == own[j - |before|];
    FindsDash(s, |before + own|, |before|);
  }

  lemma OtherSigns(first: string, middle: string, rest: string)
    requires "@@@" <= first
    ensures "@@@" <= first + middle + " @@@" + rest && !("@@ -" <= first + middle + " @@@" + rest)
  {
    assert (first + middle + " @@@" + rest)[2] == first[2] == '@';
  }

  lemma BehindOthers(first: string, p: string, q: string, r: string)
    ensures first + (p + " -" + q + " +" + r) == (first + p + " ") + ("-" + q + " +" + r)
  {
    assert p + " -" + q + " +" + r == p + " " + ("-" + q + " +" + r);
    assert first + (p + " " + ("-" + q + " +" + r)) == (first + p + " ") + ("-" + q + " +" + r);
  }

  lemma ReadsOwnSides(before: string, h: Header, rest: string)
    requires Fits(h)
    ensures SidesAt(before + ("-" + SideText(h.oldSide) + " +" + SideText(h.newSide)) + " @@@" + rest, |before|) ==
      Some(h)
  {
    hide SideText, SidesAt;
    ReadsSides(before, h, "@" + rest);
    assert before + "-" + SideText(h.oldSide) + " +" + SideText(h.newSide) + " @@" + ("@" + rest) ==
      before + ("-" + SideText(h.oldSide) + " +" + SideText(h.newSide)) + " @@@" + rest;
  }

  /** Behind the signs and the other parents p, the last parent's side and the new side are read. */
  lemma ReadsCombined(first: string, p: string, h: Header, rest: string)
    requires Fits(h) && "@@@" <= first && (forall i :: 0 <= i < |first| ==> first[i] == '@')
    requires forall i :: 0 <= i < |p| ==> p[i] != '@'
    ensures var s := first + (p + " -" + SideText(h.oldSide) + " +" + SideText(h.newSide)) + " @@@" + rest;
      HasDash(s) && Parse(s) == Some(h)
  {
    hide SideText, SidesAt, FindAts, DashBefore;
    var middle := p + " -" + SideText(h.oldSide) + " +" + SideText(h.newSide);
    var before, own := first + p + " ", "-" + SideText(h.oldSide) + " +" + SideText(h.newSide);
    SideTextChars(h.oldSide);
    SideTextChars(h.newSide);
    AtsBehind(first, middle, rest);
    BehindOthers(first, p, SideText(h.oldSide), SideText(h.newSide));
    DashBehind(before, own, rest);
    OtherSigns(first, middle, rest);
    ReadsOwnSides(before, h, rest);
  }

  lemma BehindSigns(first: string, p: string, r: string, e: string, h: string)
    ensures first + p + " +" + r + " " + ("@@@" + e) + h == first + (p + " +" + r) + " @@@" + (e + h)
  {
    assert first + p + " +" + r == first + (p + " +" + r);
    var a := first + p + " +" + r;
    assert " " + ("@@@" + e) + h == " @@@" + (e + h);
    assert a + " " + ("@@@" + e) + h == a + (" " + ("@@@" + e) + h);
  }

  lemma SplitSigns(n: nat)
    requires n >= 3
    ensures Ats(n) == "@@@" + Ats(n - 3)
  {
  }

  /** Of a printed combined header the last parent's side and the new side are read. */
  lemma CombinedRoundTrip(parents: seq<Side>, newSide: Side, heading: string)
    requires |parents| >= 2 && Fits(Header(parents[|parents| - 1], newSide))
    ensures var s := FormatCombined(parents, newSide) + heading;
      HasDash(s) && Parse(s) == Some(Header(parents[|parents| - 1], newSide))
  {
    hide SideText, Parse, HasDash;
    var n := |parents| - 1;
    SplitSigns(n + 2);
    BehindSigns(Ats(n + 2), ParentTexts(parents), SideText(newSide), Ats(n - 1), heading);
    ParentTextsNoAt(parents[..n]);
    ReadsCombined(Ats(n + 2), ParentTexts(parents[..n]), Header(parents[n], newSide), Ats(n - 1) + heading);
  }
}
