/** A reader of one-hunk patches, as text: what `git apply` takes for the file header, the chunk header and
    the lines of the hunk. */
module PatchReader {
  import opened Common
  import opened ChunkHeader

  /** The place of the first newline, or the length. */
  function LineEnd(text: string): (k: nat)
    ensures k <= |text| && (k < |text| ==> text[k] == '\n')
    ensures forall j :: 0 <= j < k ==> text[j] != '\n'
  {
    if text == "" || text[0] == '\n' then 0 else 1 + LineEnd(text[1..])
  }

  /** The lines of a text, without their newlines. */
  function SplitLines(text: string): seq<string>
    decreases |text|
  {
    if text == "" then []
    else
      var k := LineEnd(text);
      if k == |text| then [text] else [text[..k]] + SplitLines(text[k + 1..])
  }

  predicate IsChunk(line: string)
  {
    "@@" <= line
  }

  /** The first chunk header, or the number of lines. */
  function FirstChunk(lines: seq<string>): (k: nat)
    ensures k <= |lines| && (k < |lines| ==> IsChunk(lines[k]))
    ensures forall j :: 0 <= j < k ==> !IsChunk(lines[j])
  {
    if lines == [] || IsChunk(lines[0]) then 0 else 1 + FirstChunk(lines[1..])
  }

  datatype Patch = Patch(file: seq<string>, h: Header, lines: seq<string>)

  function ReadPatch(text: string): Option<Patch>
  {
    var lines := SplitLines(text);
    var k := FirstChunk(lines);
    if k == |lines| || Parse(lines[k]).None? then None
    else Some(Patch(lines[..k], Parse(lines[k]).value, lines[k + 1..]))
  }

  predicate OneLine(line: string)
  {
    '\n' !in line
  }

  predicate OneLineEach(lines: seq<string>)
  {
    forall i :: 0 <= i < |lines| ==> OneLine(lines[i])
  }

  lemma FirstLine(line: string, rest: string)
    requires OneLine(line)
    ensures SplitLines(line + "\n" + rest) == [line] + SplitLines(rest)
  {
    var text := line + "\n" + rest;
    assert text[|line|] == '\n';
    assert forall j :: 0 <= j < |line| ==> text[j] == line[j];
    assert LineEnd(text) == |line|;
    assert text[..|line|] == line && text[|line| + 1..] == rest;
  }

  lemma ChunkBehind(file: seq<string>, chunk: string, lines: seq<string>)
    requires IsChunk(chunk) && forall i :: 0 <= i < |file| ==> !IsChunk(file[i])
    ensures FirstChunk(file + [chunk] + lines) == |file|
  {
    var all := file + [chunk] + lines;
    assert forall i :: 0 <= i < |file| ==> all[i] == file[i];
    assert all[|file|] == chunk;
  }

  /** Lines that spell a patch are read as that patch. */
  lemma ReadsLines(text: string, file: seq<string>, h: Header, lines: seq<string>)
    requires SplitLines(text) == file + [Format(h)] + lines && Fits(h)
    requires forall i :: 0 <= i < |file| ==> !IsChunk(file[i])
    ensures ReadPatch(text) == Some(Patch(file, h, lines))
  {
    hide SplitLines, Parse, Fits;
    assert Format(h) + "" == Format(h);
    HeaderRoundTrip(h, "");
    FormatIsChunk(h);
    hide Format;
    ChunkBehind(file, Format(h), lines);
    var all := file + [Format(h)] + lines;
    assert all[..|file|] == file && all[|file|] == Format(h) && all[|file| + 1..] == lines;
  }

  lemma FormatIsChunk(h: Header)
    ensures IsChunk(Format(h))
  {
    hide SideText;
  }

  lemma FormatIsOneLine(h: Header)
    ensures OneLine(Format(h))
  {
    SideTextChars(h.oldSide);
    SideTextChars(h.newSide);
    hide SideText;
  }
}
