/** Printing an event into a buffer: the cursor of cursor.h and nostril.c:205-317. */
module NostrEvent {
  import opened Common
  import opened Decimals
  import opened NostrText

  /** `struct cursor` at the start of a buffer of `end` characters. */
  class Cursor {
    const buf: array<char>
    const end: nat
    var p: nat

    ghost predicate Valid()
      reads this
    {
      p <= end <= buf.Length
    }

    ghost function Contents(): string
      requires Valid()
      reads this, buf
    {
      buf[..p]
    }

    /** `make_cursor` */
    constructor (buf: array<char>, end: nat)
      requires end <= buf.Length
      ensures Valid() && this.buf == buf && this.end == end && Contents() == ""
    {
      this.buf, this.end, p := buf, end, 0;
    }

    /** `cursor_push_byte` */
    method PushByte(c: char) returns (ok: bool)
      requires Valid()
      modifies this, buf
      ensures Valid() && ok == (old(p) + 1 <= end)
      ensures Contents() == old(Contents()) + if ok then [c] else []
    {
      if p + 1 > end { return false; }
      buf[p] := c;
      p := p + 1;
      return true;
    }

    /** `cursor_push_str`: unlike a single byte, a string may not fill the buffer. */
    method PushStr(str: string) returns (ok: bool)
      requires Valid()
      modifies this, buf
      ensures Valid() && ok == (old(p) + |str| < end)
      ensures Contents() == old(Contents()) + if ok then str else []
    {
      if p + |str| >= end { return false; }
      forall i | 0 <= i < |str| { buf[p + i] := str[i]; }
      p := p + |str|;
      return true;
    }

    /** `cursor_push_escaped_char`: one byte, or a backslash and a letter. */
    method PushEscapedChar(c: char) returns (ok: bool)
      requires Valid()
      modifies this, buf
      ensures Valid() && ok == if |Escaped(c)| == 1 then old(p) + 1 <= end else old(p) + 2 < end
      ensures Contents() == old(Contents()) + if ok then Escaped(c) else []
    {
      match c
      case '\"' => ok := PushStr("\\\"");
      case '\\' => ok := PushStr("\\\\");
      case '\U{0008}' => ok := PushStr("\\b");
      case '\U{000C}' => ok := PushStr("\\f");
      case '\n' => ok := PushStr("\\n");
      case '\r' => ok := PushStr("\\r");
      case '\t' => ok := PushStr("\\t");
      case _ => ok := PushByte(c);
    }

    /** `cursor_push_jsonstr`: succeeds exactly if the whole string fits. */
    method PushJsonStr(str: string) returns (ok: bool)
      requires Valid()
      modifies this, buf
      ensures Valid() && ok == (old(p) + |Quoted(str)| <= end)
      ensures old(Contents()) <= Contents()
      ensures ok ==> Contents() == old(Contents()) + Quoted(str)
    {
      hide Quoted, EscapedAll, Escaped;
      ghost var before, done := Contents(), "\"";
      QuotedStart(str);
      ok := PushByte('\"');
      if !ok { return; }
      var i := 0;
      while i < |str|
        invariant 0 <= i <= |str| && Valid()
        invariant Quoted(str) == done + (EscapedAll(str[i..]) + "\"")
        invariant Contents() == before + done
      {
        QuotedStep(str, i);
        ok := PushEscapedChar(str[i]);
        if !ok { return; }
        Associates(done, Escaped(str[i]), EscapedAll(str[i + 1..]) + "\"");
        done := done + Escaped(str[i]);
        i := i + 1;
      }
      QuotedStop(str, i);
      ok := PushByte('\"');
    }

    /** `cursor_push_tag`: succeeds exactly if the whole list fits. */
    method PushTag(strs: seq<string>) returns (ok: bool)
      requires Valid()
      modifies this, buf
      ensures Valid() && ok == (old(p) + |TagText(strs)| <= end)
      ensures old(Contents()) <= Contents()
      ensures ok ==> Contents() == old(Contents()) + TagText(strs)
    {
      hide Quoted, Tail, List, QuotedAll, Separated;
      ghost var before, done, texts := Contents(), "[", QuotedAll(strs);
      QuotedAllAt(strs);
      ListStart(texts);
      ok := PushByte('[');
      if !ok { return; }
      var i := 0;
      while i < |strs|
        invariant 0 <= i <= |strs| && Valid()
        invariant List(texts) == done + Tail(texts[i..])
        invariant Contents() == before + done
      {
        ListOn(texts, i, before, done);
        ok := PushJsonStr(strs[i]);
        if !ok { return; }
        done := done + texts[i];
        if i != |strs| - 1 {
          ok := PushByte(',');
          if !ok { return; }
          done := done + ",";
        }
        i := i + 1;
      }
      ListStop(texts, i);
      ok := PushByte(']');
    }

    /** The list that `cursor_push_tags` prints: succeeds exactly if all of it fits. */
    method PushTagList(tags: seq<seq<string>>) returns (ok: bool)
      requires Valid()
      modifies this, buf
      ensures Valid() && ok == (old(p) + |List(TagTexts(tags))| <= end)
      ensures old(Contents()) <= Contents()
      ensures ok ==> Contents() == old(Contents()) + List(TagTexts(tags))
    {
      hide TagText, Tail, List, TagTexts, Separated;
      ghost var before, done, texts := Contents(), "[", TagTexts(tags);
      TagTextsAt(tags);
      ListStart(texts);
      ok := PushByte('[');
      if !ok { return; }
      var i := 0;
      while i < |tags|
        invariant 0 <= i <= |tags| && Valid()
        invariant List(texts) == done + Tail(texts[i..])
        invariant Contents() == before + done
      {
        ListOn(texts, i, before, done);
        ok := PushTag(tags[i]);
        if !ok { return; }
        done := done + texts[i];
        if i != |tags| - 1 {
          ok := PushStr(",");
          if !ok { return; }
          done := done + ",";
        }
        i := i + 1;
      }
      ListStop(texts, i);
      ok := PushByte(']');
    }

    /** `cursor_push_tags`: explicit tags are pushed as they are. */
    method PushTags(ev: Event) returns (ok: bool)
      requires Valid()
      modifies this, buf
      ensures Valid() && ok == (old(p) + |TagsText(ev)| + (if ev.explicitTags.Some? then 1 else 0) <= end)
      ensures old(Contents()) <= Contents()
      ensures ok ==> Contents() == old(Contents()) + TagsText(ev)
    {
      if ev.explicitTags.Some? {
        ok := PushStr(ev.explicitTags.value);
      } else {
        ok := PushTagList(ev.tags);
      }
    }

    /** After a chain of pushes of `text`: either all of it stands in the buffer or it has no room. */
    ghost predicate Chain(ok: bool, text: string)
      reads this, buf
    {
      Valid() && (if ok then Contents() == text else |text| >= end)
    }

    lemma ChainStart()
      requires Valid() && p == 0
      ensures Chain(true, "")
    {
    }

    lemma ChainEnd(ok: bool, text: string)
      requires Chain(ok, text)
      ensures Valid() && if ok then buf[..p] == text else |text| >= end
    {
    }

    /** `before && cursor_push_str(&cur, str)` */
    method AndPushStr(before: bool, str: string, ghost text: string) returns (ok: bool)
      requires Chain(before, text)
      modifies this, buf
      ensures Chain(ok, text + str) && (ok ==> |text + str| < end)
    {
      ok := before;
      if before { ok := PushStr(str); }
    }

    /** `before && cursor_push_tags(&cur, ev)` */
    method AndPushTags(before: bool, ev: Event, ghost text: string) returns (ok: bool)
      requires Chain(before, text)
      modifies this, buf
      ensures Chain(ok, text + TagsText(ev))
    {
      ok := before;
      if before { ok := PushTags(ev); }
    }

    /** `before && cursor_push_jsonstr(&cur, str)` */
    method AndPushJsonStr(before: bool, str: string, ghost text: string) returns (ok: bool)
      requires Chain(before, text)
      modifies this, buf
      ensures Chain(ok, text + Quoted(str))
    {
      ok := before;
      if before { ok := PushJsonStr(str); }
    }
  }

  lemma QuotedStart(str: string)
    ensures Quoted(str) == "\"" + (EscapedAll(str[0..]) + "\"")
  {
    hide EscapedAll;
    assert str[0..] == str;
    Associates("\"", EscapedAll(str), "\"");
  }

  lemma QuotedStep(str: string, i: nat)
    requires i < |str|
    ensures EscapedAll(str[i..]) + "\"" == Escaped(str[i]) + (EscapedAll(str[i + 1..]) + "\"")
  {
    assert str[i..][0] == str[i] && str[i..][1..] == str[i + 1..];
    Associates(Escaped(str[i]), EscapedAll(str[i + 1..]), "\"");
  }

  lemma QuotedStop(str: string, i: nat)
    requires i == |str|
    ensures EscapedAll(str[i..]) + "\"" == "\""
  {
  }

  lemma QuotedAllAt(strs: seq<string>)
    ensures |QuotedAll(strs)| == |strs| && forall i :: 0 <= i < |strs| ==> QuotedAll(strs)[i] == Quoted(strs[i])
  {
  }

  lemma TagTextsAt(tags: seq<seq<string>>)
    ensures |TagTexts(tags)| == |tags| && forall i :: 0 <= i < |tags| ==> TagTexts(tags)[i] == TagText(tags[i])
  {
  }

  lemma ListStart(texts: seq<string>)
    ensures List(texts) == "[" + Tail(texts[0..])
  {
    hide Separated, Tail;
    assert texts[0..] == texts;
    TailIsList(texts);
    Associates("[", Separated(texts), "]");
  }

  lemma ListStep(texts: seq<string>, i: nat)
    requires i < |texts|
    ensures Tail(texts[i..]) == texts[i] + (if i == |texts| - 1 then "" else ",") + Tail(texts[i + 1..])
    ensures |Tail(texts[i + 1..])| >= 1
  {
    assert texts[i..][0] == texts[i] && texts[i..][1..] == texts[i + 1..];
  }

  /** One more text of the list, and the comma behind it. */
  lemma ListOn(texts: seq<string>, i: nat, before: string, done: string)
    requires i < |texts| && List(texts) == done + Tail(texts[i..])
    ensures before + done + texts[i] == before + (done + texts[i])
    ensures before + (done + texts[i]) + "," == before + (done + texts[i] + ",")
    ensures |done| + |texts[i]| + (if i == |texts| - 1 then 1 else 2) <= |List(texts)|
    ensures List(texts) == (if i == |texts| - 1 then done + texts[i] else done + texts[i] + ",") + Tail(texts[i + 1..])
  {
    hide List, Tail;
    ListStep(texts, i);
    var rest := Tail(texts[i + 1..]);
    Associates(done, texts[i], rest);
    Associates(done + texts[i], ",", rest);
    assert texts[i] + "" == texts[i];
    Associates(done, texts[i], "," + rest);
    Associates(texts[i], ",", rest);
  }

  lemma ListStop(texts: seq<string>, i: nat)
    requires i == |texts|
    ensures Tail(texts[i..]) == "]"
  {
  }

  /** `snprintf(buf, size, ...)`: what is left of the text. */
  function Snprintf(text: string, size: nat): string
    requires size > 0
  {
    if |text| >= size then text[..size - 1] else text
  }

  lemma KindFits(kind: int)
    requires -0x8000_0000 <= kind < 0x8000_0000
    ensures Snprintf(Signed(kind), 16) == Signed(kind)
  {
    assert Pow10(10) == 100_0000_0000;
    DecimalLength(if kind < 0 then -kind else kind, 10);
  }

  /** `event_commitment`: the length of the text, or 0 if the buffer has no room for it and one more
      character. */
  method EventCommitment(ev: Event, buf: array<char>) returns (len: nat)
    requires |ev.pubkey| == 32 && -0x8000_0000 <= ev.kind < 0x8000_0000
    modifies buf
    ensures len == if |Commitment(ev)| < buf.Length then |Commitment(ev)| else 0
    ensures len > 0 ==> buf[..len] == Commitment(ev)
  {
    hide Hex.Encode, Signed, TagsText, Quoted, Decimal, Cursor.Chain, TimeText, Snprintf, Commitment;
    var pubkey := new char[65];
    var encoded := Hex.HexEncode(ev.pubkey, pubkey);
    var hex := pubkey[..64];
    var cur := new Cursor(buf, buf.Length);
    var time, kind := Snprintf(Decimal(ev.createdAt), 16), Snprintf(Signed(ev.kind), 16);
    KindFits(ev.kind);
    StartOf(ev, time);
    ghost var t := "";
    ghost var tags, content := TagsText(ev), Quoted(ev.content);
    cur.ChainStart();
    var ok := cur.AndPushStr(true, "[0,\"", t);
    t := t + "[0,\"";
    ok := cur.AndPushStr(ok, hex, t);
    t := t + hex;
    ok := cur.AndPushStr(ok, "\",", t);
    t := t + "\",";
    ok := cur.AndPushStr(ok, time, t);
    t := t + time;
    ok := cur.AndPushStr(ok, ",", t);
    t := t + ",";
    ok := cur.AndPushStr(ok, kind, t);
    t := t + kind;
    ok := cur.AndPushStr(ok, ",", t);
    t := t + ",";
    ok := cur.AndPushTags(ok, ev, t);
    t := t + tags;
    ok := cur.AndPushStr(ok, ",", t);
    t := t + ",";
    ok := cur.AndPushJsonStr(ok, ev.content, t);
    t := t + content;
    ok := cur.AndPushStr(ok, "]", t);
    t := t + "]";
    cur.ChainEnd(ok, t);
    return if ok then cur.p else 0;
  }

  lemma StartOf(ev: Event, time: string)
    requires time == Snprintf(Decimal(ev.createdAt), 16)
    ensures Commitment(ev) == "" + "[0,\"" + Hex.Encode(ev.pubkey) + "\"," + time + "," + Signed(ev.kind) + "," +
      TagsText(ev) + "," + Quoted(ev.content) + "]"
  {
    hide Hex.Encode, Signed, TagsText, Quoted, Decimal;
    assert "" + "[0,\"" == "[0,\"";
  }
}
