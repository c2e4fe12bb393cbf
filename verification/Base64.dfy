/** Base 64 over an arbitrary alphabet: base64.c:47-204. */
module Base64 {
  import opened Common

  const PAD: Byte := 61   // '='
  const FILL: Byte := 65  // 'A'

  // ----- the maps -----

  /** The first n letters, searched from the last one back: the value of a letter, or -1. */
  function ValueIn(alphabet: seq<Byte>, n: nat, letter: Byte): (v: int)
    requires n <= |alphabet|
    ensures -1 <= v < n && (v >= 0 ==> alphabet[v] == letter)
    ensures v == -1 ==> forall i :: 0 <= i < n ==> alphabet[i] != letter
    ensures forall i :: v < i < n ==> alphabet[i] != letter
  {
    if n == 0 then -1 else if alphabet[n - 1] == letter then n - 1 else ValueIn(alphabet, n - 1, letter)
  }

  /** `sixbit_to_b64` */
  function Letter(alphabet: seq<Byte>, sixbit: Byte): Byte
    requires |alphabet| == 64 && sixbit < 64
  {
    alphabet[sixbit as int]
  }

  /** `sixbit_from_b64` */
  function Value(alphabet: seq<Byte>, letter: Byte): (v: Option<Byte>)
    requires |alphabet| == 64
    ensures v.Some? ==> v.value < 64
  {
    var n := ValueIn(alphabet, 64, letter);
    if n == -1 then None else Some(n as Byte)
  }

  // ----- groups of bits -----

  function Six0(a: Byte): (s: Byte)
    ensures s < 64
  {
    (a & 0xfc) >> 2
  }

  function Six1(a: Byte, b: Byte): (s: Byte)
    ensures s < 64
  {
    ((a & 0x3) << 4) | ((b & 0xf0) >> 4)
  }

  function Six2(b: Byte, c: Byte): (s: Byte)
    ensures s < 64
  {
    ((c & 0xc0) >> 6) | ((b & 0xf) << 2)
  }

  function Six3(c: Byte): (s: Byte)
    ensures s < 64
  {
    c & 0x3f
  }

  function Out0(a: Byte, b: Byte): Byte
  {
    (a << 2) | (b >> 4)
  }

  function Out1(b: Byte, c: Byte): Byte
  {
    ((b & 0xf) << 4) | (c >> 2)
  }

  function Out2(c: Byte, d: Byte): Byte
  {
    ((c & 0x3) << 6) | d
  }

  lemma BitsBack(a: Byte, b: Byte, c: Byte)
    ensures Out0(Six0(a), Six1(a, b)) == a && Out1(Six1(a, b), Six2(b, c)) == b && Out2(Six2(b, c), Six3(c)) == c
  {
  }

  // ----- encoding and decoding as functions -----

  /** Four letters for three bytes. */
  function Triplet(alphabet: seq<Byte>, a: Byte, b: Byte, c: Byte): (text: seq<Byte>)
    requires |alphabet| == 64
    ensures |text| == 4
  {
    [Letter(alphabet, Six0(a)), Letter(alphabet, Six1(a, b)), Letter(alphabet, Six2(b, c)), Letter(alphabet, Six3(c))]
  }

  /** Byte i of the tail, or the zero it is filled up with. */
  function TailByte(s: seq<Byte>, i: nat): Byte
  {
    if i < |s| then s[i] else 0
  }

  /** Four letters for at most three bytes, the missing ones replaced by padding. */
  function TailText(alphabet: seq<Byte>, s: seq<Byte>): (text: seq<Byte>)
    requires |alphabet| == 64 && |s| <= 3
    ensures |text| == 4
  {
    Triplet(alphabet, TailByte(s, 0), TailByte(s, 1), TailByte(s, 2))[..1 + |s|] + Padding(3 - |s|)
  }

  function Padding(n: nat): seq<Byte>
  {
    seq(n, _ => PAD)
  }

  function EncodeText(alphabet: seq<Byte>, s: seq<Byte>): (text: seq<Byte>)
    requires |alphabet| == 64
    ensures |text| == EncodedLength(|s|)
  {
    if |s| >= 3 then Triplet(alphabet, s[0], s[1], s[2]) + EncodeText(alphabet, s[3..])
    else if |s| > 0 then TailText(alphabet, s)
    else []
  }

  /** Three bytes for four letters of the alphabet. */
  function Quartet(alphabet: seq<Byte>, t: seq<Byte>): (bytes: Option<seq<Byte>>)
    requires |alphabet| == 64 && |t| == 4
    ensures bytes.Some? ==> |bytes.value| == 3
  {
    var a, b, c, d := Value(alphabet, t[0]), Value(alphabet, t[1]), Value(alphabet, t[2]), Value(alphabet, t[3]);
    if a.None? || b.None? || c.None? || d.None? then None
    else Some([Out0(a.value, b.value), Out1(b.value, c.value), Out2(c.value, d.value)])
  }

  /** The length without the padding at the end. */
  function Unpadded(t: seq<Byte>, n: nat): (m: nat)
    requires n <= |t|
    ensures m <= n && (m > 0 ==> t[m - 1] != PAD)
    ensures forall i :: m <= i < n ==> t[i] == PAD
  {
    if n > 0 && t[n - 1] == PAD then Unpadded(t, n - 1) else n
  }

  function Fill(n: nat): seq<Byte>
  {
    seq(n, _ => FILL)
  }

  function DecodeTail(alphabet: seq<Byte>, t: seq<Byte>): (bytes: Option<seq<Byte>>)
    requires |alphabet| == 64 && |t| <= 4
  {
    var n := Unpadded(t, |t|);
    if n == 0 then Some([])
    else if n == 1 then None
    else
      var q := Quartet(alphabet, t[..n] + Fill(4 - n));
      if q.None? then None else Some(q.value[..n - 1])
  }

  function DecodeText(alphabet: seq<Byte>, t: seq<Byte>): (bytes: Option<seq<Byte>>)
    requires |alphabet| == 64
    ensures bytes.Some? ==> |bytes.value| <= DecodedLength(|t|)
  {
    if |t| > 4 then
      var q := Quartet(alphabet, t[..4]);
      if q.None? then None
      else
        var rest := DecodeText(alphabet, t[4..]);
        if rest.None? then None else Some(q.value + rest.value)
    else DecodeTail(alphabet, t)
  }

  /** `base64_encoded_length` */
  function EncodedLength(n: nat): nat
  {
    (n + 2) / 3 * 4
  }

  /** `base64_decoded_length` */
  function DecodedLength(n: nat): nat
  {
    (n + 3) / 4 * 3
  }

  // ----- the round trip -----

  ghost predicate Distinct(alphabet: seq<Byte>)
  {
    forall i, j :: 0 <= i < j < |alphabet| ==> alphabet[i] != alphabet[j]
  }

  /** Alphabets for which decoding undoes encoding. */
  ghost predicate Good(alphabet: seq<Byte>)
  {
    Distinct(alphabet) && FILL in alphabet && PAD !in alphabet
  }

  lemma LetterBack(alphabet: seq<Byte>, sixbit: Byte)
    requires |alphabet| == 64 && Distinct(alphabet) && sixbit < 64
    ensures Value(alphabet, Letter(alphabet, sixbit)) == Some(sixbit)
  {
  }

  /** Three bytes to the base 256 and their four digits to the base 64 are the same number. */
  lemma SameNumber(a: Byte, b: Byte, c: Byte)
    ensures ((a as bv32) * 256 + b as bv32) * 256 + c as bv32 ==
      (((Six0(a) as bv32) * 64 + Six1(a, b) as bv32) * 64 + Six2(b, c) as bv32) * 64 + Six3(c) as bv32
  {
  }

  lemma QuartetOfTriplet(alphabet: seq<Byte>, a: Byte, b: Byte, c: Byte)
    requires |alphabet| == 64 && Distinct(alphabet)
    ensures Quartet(alphabet, Triplet(alphabet, a, b, c)) == Some([a, b, c])
  {
    hide Letter, Value, Six0, Six1, Six2, Six3, Out0, Out1, Out2, Distinct;
    LetterBack(alphabet, Six0(a));
    LetterBack(alphabet, Six1(a, b));
    LetterBack(alphabet, Six2(b, c));
    LetterBack(alphabet, Six3(c));
    BitsBack(a, b, c);
  }

  lemma NotPadding(alphabet: seq<Byte>, a: Byte, b: Byte, c: Byte)
    requires |alphabet| == 64 && PAD !in alphabet
    ensures forall i :: 0 <= i < 4 ==> Triplet(alphabet, a, b, c)[i] != PAD
  {
    hide Six0, Six1, Six2, Six3;
  }

  /** What is decoded of a padded tail: its bytes, unless there are none. */
  lemma TailBack(alphabet: seq<Byte>, s: seq<Byte>)
    requires |alphabet| == 64 && Good(alphabet) && |s| <= 3
    ensures DecodeTail(alphabet, TailText(alphabet, s)) == if s == [] then None else Some(s)
  {
    hide Letter, Value, Six0, Six1, Six2, Six3, Out0, Out1, Out2, ValueIn;
    var a, b, c := TailByte(s, 0), TailByte(s, 1), TailByte(s, 2);
    var t, n := TailText(alphabet, s), 1 + |s|;
    NotPadding(alphabet, a, b, c);
    assert t[|s|] == Triplet(alphabet, a, b, c)[|s|];
    assert forall i :: n <= i < 4 ==> t[i] == PAD;
    assert Unpadded(t, 4) == n;
    if s != [] {
      LetterBack(alphabet, Six0(a));
      LetterBack(alphabet, Six1(a, b));
      LetterBack(alphabet, Six2(b, c));
      LetterBack(alphabet, Six3(c));
      FillValue(alphabet);
      BitsBack(a, b, c);
      var q := Quartet(alphabet, t[..n] + Fill(4 - n));
      assert q.Some? && q.value[0] == a && (|s| >= 2 ==> q.value[1] == b) && (|s| == 3 ==> q.value[2] == c);
      assert q.value[..|s|] == s;
    }
  }

  lemma FillValue(alphabet: seq<Byte>)
    requires |alphabet| == 64 && FILL in alphabet
    ensures Value(alphabet, FILL).Some?
  {
  }

  lemma {:induction false} RoundTrip(alphabet: seq<Byte>, s: seq<Byte>)
    requires |alphabet| == 64 && Good(alphabet)
    ensures DecodeText(alphabet, EncodeText(alphabet, s)) == Some(s)
  {
    hide Triplet, Quartet, TailText, DecodeTail, Letter, Value, ValueIn;
    if |s| >= 3 {
      var t := Triplet(alphabet, s[0], s[1], s[2]);
      var rest := EncodeText(alphabet, s[3..]);
      QuartetOfTriplet(alphabet, s[0], s[1], s[2]);
      assert (t + rest)[..4] == t && (t + rest)[4..] == rest;
      if |s| > 3 {
        RoundTrip(alphabet, s[3..]);
        assert [s[0], s[1], s[2]] + s[3..] == s;
      } else {
        TailBack(alphabet, s);
        WholeTail(alphabet, s);
        assert t + rest == t;
      }
    } else if |s| > 0 {
      TailBack(alphabet, s);
    } else {
      EmptyTail(alphabet);
    }
  }

  lemma WholeTail(alphabet: seq<Byte>, s: seq<Byte>)
    requires |alphabet| == 64 && |s| == 3
    ensures TailText(alphabet, s) == Triplet(alphabet, s[0], s[1], s[2])
  {
    hide Letter, Six0, Six1, Six2, Six3;
  }

  lemma EmptyTail(alphabet: seq<Byte>)
    requires |alphabet| == 64
    ensures DecodeTail(alphabet, []) == Some([])
  {
  }

  /** The letter for i in the alphabet of section 4 of RFC 4648. */
  function RfcLetter(i: Byte): Byte
    requires i < 64
  {
    if i < 26 then 65 + i else if i < 52 then 71 + i else if i < 62 then i - 4 else if i == 62 then 43 else 47
  }

  function Rfc4648(): (alphabet: seq<Byte>)
    ensures |alphabet| == 64
  {
    seq(64, i requires 0 <= i < 64 => if (i as Byte) < 64 then RfcLetter(i as Byte) else 0)
  }

  /** The byte of an ASCII character. */
  function Ascii(c: char): Byte
    requires c < '\U{0080}'
  {
    c as int as Byte
  }

  /** The padding is the equals sign, and bytes are filled up with the letter of zero. */
  lemma PaddingCharacters()
    ensures PAD == Ascii('=') && FILL == Ascii('A') == Rfc4648()[0]
  {
  }

  /** The alphabet of section 4 of RFC 4648: A to Z, a to z, 0 to 9, + and /. */
  lemma Alphabet(i: nat)
    requires i < 64
    ensures var letter := Rfc4648()[i] as int;
      if i < 26 then letter == 'A' as int + i
      else if i < 52 then letter == 'a' as int + (i - 26)
      else if i < 62 then letter == '0' as int + (i - 52)
      else if i == 62 then letter == '+' as int
      else letter == '/' as int
  {
    SmallByte(i);
    LetterNumber(i as Byte);
  }

  lemma LetterNumber(x: Byte)
    requires x < 64
    ensures RfcLetter(x) as int ==
      if x < 26 then x as int + 65 else if x < 52 then x as int + 71 else if x < 62 then x as int - 4
      else if x == 62 then 43 else 47
  {
  }

  lemma LettersApart(x: Byte, y: Byte)
    requires x < 64 && y < 64 && x != y
    ensures RfcLetter(x) != RfcLetter(y)
  {
  }

  lemma LetterNotPad(x: Byte)
    requires x < 64
    ensures RfcLetter(x) != PAD
  {
  }

  lemma RfcIsGood()
    ensures Good(Rfc4648())
  {
    hide RfcLetter;
    var a := Rfc4648();
    assert a[0] == FILL by { FirstIsFill(); }
    forall i, j | 0 <= i < j < 64
      ensures a[i] != a[j]
    {
      SmallByte(i);
      SmallByte(j);
      LettersApart(i as Byte, j as Byte);
    }
    forall i | 0 <= i < 64
      ensures a[i] != PAD
    {
      SmallByte(i);
      LetterNotPad(i as Byte);
    }
  }

  lemma FirstIsFill()
    ensures Rfc4648()[0] == FILL
  {
  }

  /** Without one of the conditions some bytes are not restored. */
  lemma RoundTripFails(alphabet: seq<Byte>) returns (s: seq<Byte>)
    requires |alphabet| == 64 && !Good(alphabet)
    ensures DecodeText(alphabet, EncodeText(alphabet, s)) != Some(s)
  {
    if !Distinct(alphabet) {
      var i: nat, j: nat :| i < j < 64 && alphabet[i] == alphabet[j];
      SameText(alphabet, i, j);
      s := [0, 0, i as Byte];
      if DecodeText(alphabet, EncodeText(alphabet, s)) == Some(s) { s := [0, 0, j as Byte]; }
    } else if PAD in alphabet {
      var v: nat :| v < 64 && alphabet[v] == PAD;
      s := [0, 0, v as Byte];
      LastIs(alphabet, v);
      PaddedTail(alphabet, EncodeText(alphabet, s));
    } else {
      s := [0];
      NoFill(alphabet);
    }
  }

  lemma LastIs(alphabet: seq<Byte>, v: nat)
    requires |alphabet| == 64 && v < 64
    ensures EncodeText(alphabet, [0, 0, v as Byte]) ==
      [Letter(alphabet, Six0(0)), Letter(alphabet, Six1(0, 0)), Letter(alphabet, 0), alphabet[v]]
  {
    SmallByte(v);
    hide Letter, Six0, Six1;
    assert EncodeText(alphabet, []) == [];
  }

  lemma SmallByte(v: nat)
    requires v < 64
    ensures Six2(0, v as Byte) == 0 && Six3(v as Byte) == v as Byte && (v as Byte) < 64 && (v as Byte) as int == v
  {
  }

  lemma SameText(alphabet: seq<Byte>, i: nat, j: nat)
    requires |alphabet| == 64 && i < j < 64 && alphabet[i] == alphabet[j]
    ensures EncodeText(alphabet, [0, 0, i as Byte]) == EncodeText(alphabet, [0, 0, j as Byte])
    ensures [0, 0, i as Byte] != [0, 0, j as Byte]
  {
    hide EncodeText, Letter;
    LastIs(alphabet, i);
    LastIs(alphabet, j);
    SmallByte(i);
    SmallByte(j);
    assert [0, 0, i as Byte][2] as int != [0, 0, j as Byte][2] as int;
  }

  /** Padding in the fourth place leaves at most two bytes. */
  lemma PaddedTail(alphabet: seq<Byte>, t: seq<Byte>)
    requires |alphabet| == 64 && |t| == 4 && t[3] == PAD
    ensures DecodeText(alphabet, t).Some? ==> |DecodeText(alphabet, t).value| <= 2
  {
    hide Quartet;
  }

  lemma NoFill(alphabet: seq<Byte>)
    requires |alphabet| == 64 && FILL !in alphabet
    ensures DecodeText(alphabet, EncodeText(alphabet, [0])) != Some([0])
  {
    hide Letter, Six0, Six1, Six2, Six3;
    var t := EncodeText(alphabet, [0]);
    assert t == TailText(alphabet, [0]);
    assert Value(alphabet, FILL).None?;
    var n := Unpadded(t, 4);
    assert n <= 2;
    if n == 2 { assert (t[..2] + Fill(2))[3] == FILL; }
  }

  /** Decoding undoes encoding for all bytes exactly if the alphabet has 64 different letters, 'A' among
      them and '=' not. */
  lemma RoundTripExactly(alphabet: seq<Byte>)
    requires |alphabet| == 64
    ensures Good(alphabet) <==> forall s: seq<Byte> :: DecodeText(alphabet, EncodeText(alphabet, s)) == Some(s)
  {
    if Good(alphabet) {
      forall s: seq<Byte>
        ensures DecodeText(alphabet, EncodeText(alphabet, s)) == Some(s)
      {
        RoundTrip(alphabet, s);
      }
    } else {
      var s := RoundTripFails(alphabet);
    }
  }

  /** `base64_maps_t` */
  class Maps {
    const encodeMap: array<Byte>
    const decodeMap: array<int>

    ghost predicate For(alphabet: seq<Byte>)
      reads encodeMap, decodeMap
    {
      && encodeMap.Length == |alphabet| == 64 && decodeMap.Length == 256
      && encodeMap[..] == alphabet
      && forall b: Byte :: decodeMap[b as int] == ValueIn(alphabet, 64, b)
    }

    /** The buffer is neither of the maps. */
    ghost predicate Apart(dest: array<Byte>)
    {
      var o: object := dest;
      o != encodeMap && o != decodeMap
    }

    /** `base64_init_maps`: where a letter occurs twice, its last place counts. */
    constructor (alphabet: seq<Byte>)
      requires |alphabet| == 64
      ensures For(alphabet) && fresh(encodeMap) && fresh(decodeMap)
    {
      encodeMap := new Byte[64](i requires 0 <= i < 64 => alphabet[i]);
      var map256 := new int[256](_ => -1);
      decodeMap := map256;
      new;
      for i := 0 to 64
        invariant forall b: Byte :: decodeMap[b as int] == ValueIn(alphabet, i, b)
        invariant encodeMap[..] == alphabet
      {
        decodeMap[alphabet[i] as int] := i;
      }
    }
  }

  // ----- the functions on buffers -----

  method SixbitToB64(maps: Maps, ghost alphabet: seq<Byte>, sixbit: Byte) returns (letter: Byte)
    requires |alphabet| == 64 && maps.For(alphabet) && sixbit < 64
    ensures letter == Letter(alphabet, sixbit)
  {
    letter := maps.encodeMap[sixbit as int];
  }

  method SixbitFromB64(maps: Maps, ghost alphabet: seq<Byte>, letter: Byte) returns (v: Option<Byte>)
    requires |alphabet| == 64 && maps.For(alphabet)
    ensures v == Value(alphabet, letter)
  {
    hide ValueIn;
    assert maps.decodeMap[letter as int] == ValueIn(alphabet, 64, letter);
    var n := maps.decodeMap[letter as int];
    v := if n == -1 then None else Some(n as Byte);
  }

  /** Writes the bytes into the buffer from `at` on. */
  method Store(maps: Maps, ghost alphabet: seq<Byte>, dest: array<Byte>, at: nat, bytes: seq<Byte>)
    requires |alphabet| == 64 && maps.For(alphabet) && maps.Apart(dest) && at + |bytes| <= dest.Length
    modifies dest
    ensures maps.For(alphabet)
    ensures dest[..] == old(dest[..at]) + bytes + old(dest[at + |bytes|..])
  {
    forall i | 0 <= i < |bytes| { dest[at + i] := bytes[i]; }
  }

  /** `base64_encode_triplet_using_maps` into dest[at..at + 4]. */
  method EncodeTriplet(maps: Maps, ghost alphabet: seq<Byte>, dest: array<Byte>, at: nat, a: Byte, b: Byte, c: Byte)
    requires |alphabet| == 64 && maps.For(alphabet) && at + 4 <= dest.Length && maps.Apart(dest)
    modifies dest
    ensures maps.For(alphabet)
    ensures dest[..] == old(dest[..at]) + Triplet(alphabet, a, b, c) + old(dest[at + 4..])
  {
    hide Six0, Six1, Six2, Six3, Letter, Maps.For;
    var l0 := SixbitToB64(maps, alphabet, Six0(a));
    var l1 := SixbitToB64(maps, alphabet, Six1(a, b));
    var l2 := SixbitToB64(maps, alphabet, Six2(b, c));
    var l3 := SixbitToB64(maps, alphabet, Six3(c));
    Store(maps, alphabet, dest, at, [l0, l1, l2, l3]);
  }

  /** `base64_encode_tail_using_maps` */
  method EncodeTail(maps: Maps, ghost alphabet: seq<Byte>, dest: array<Byte>, at: nat, src: seq<Byte>)
    requires |alphabet| == 64 && maps.For(alphabet) && at + 4 <= dest.Length && maps.Apart(dest) && |src| <= 3
    modifies dest
    ensures maps.For(alphabet)
    ensures dest[..] == old(dest[..at]) + TailText(alphabet, src) + old(dest[at + 4..])
  {
    hide Triplet, Maps.For;
    EncodeTriplet(maps, alphabet, dest, at, TailByte(src, 0), TailByte(src, 1), TailByte(src, 2));
    Store(maps, alphabet, dest, at + 1 + |src|, Padding(3 - |src|));
  }

  /** `base64_encode_using_maps`: the length of the text, or -1 if the buffer is too small.  The rest of
      the buffer is zeroed. */
  method Encode(maps: Maps, ghost alphabet: seq<Byte>, dest: array<Byte>, src: seq<Byte>) returns (n: int)
    requires |alphabet| == 64 && maps.For(alphabet) && maps.Apart(dest)
    modifies dest
    ensures n == if dest.Length < EncodedLength(|src|) then -1 else EncodedLength(|src|)
    ensures n == -1 ==> dest[..] == old(dest[..])
    ensures n >= 0 ==> dest[..n] == EncodeText(alphabet, src) && forall i :: n <= i < dest.Length ==> dest[i] == 0
  {
    hide Triplet, TailText, Maps.For, Letter, EncodeText, EncodedLength;
    if dest.Length < EncodedLength(|src|) { return -1; }
    var srcOffset, destOffset := 0, 0;
    assert src[0..] == src && [] + EncodeText(alphabet, src) == EncodeText(alphabet, src);
    while |src| - srcOffset >= 3
      invariant maps.For(alphabet)
      invariant srcOffset <= |src| && destOffset + EncodedLength(|src| - srcOffset) == EncodedLength(|src|)
      invariant EncodeText(alphabet, src) == dest[..destOffset] + EncodeText(alphabet, src[srcOffset..])
    {
      ghost var done, rest := dest[..destOffset], src[srcOffset..];
      EncodeStep(alphabet, done, rest);
      EncodeTriplet(maps, alphabet, dest, destOffset, src[srcOffset], src[srcOffset + 1], src[srcOffset + 2]);
      assert rest[3..] == src[srcOffset + 3..];
      assert dest[..destOffset + 4] == done + Triplet(alphabet, rest[0], rest[1], rest[2]);
      srcOffset, destOffset := srcOffset + 3, destOffset + 4;
    }
    ghost var done, rest := dest[..destOffset], src[srcOffset..];
    EncodeStop(alphabet, done, rest);
    if srcOffset < |src| {
      EncodeTail(maps, alphabet, dest, destOffset, src[srcOffset..]);
      assert dest[..destOffset + 4] == done + TailText(alphabet, rest);
      destOffset := destOffset + 4;
    }
    ghost var text := dest[..destOffset];
    forall i | destOffset <= i < dest.Length { dest[i] := 0; }
    assert dest[..destOffset] == text;
    return destOffset;
  }

  lemma EncodeStep(alphabet: seq<Byte>, done: seq<Byte>, rest: seq<Byte>)
    requires |alphabet| == 64 && |rest| >= 3
    ensures done + EncodeText(alphabet, rest) == done + Triplet(alphabet, rest[0], rest[1], rest[2]) +
      EncodeText(alphabet, rest[3..])
    ensures EncodedLength(|rest|) == 4 + EncodedLength(|rest| - 3) && EncodedLength(|rest| - 3) >= 0
  {
    hide Triplet;
  }

  lemma EncodeStop(alphabet: seq<Byte>, done: seq<Byte>, rest: seq<Byte>)
    requires |alphabet| == 64 && |rest| < 3
    ensures done + EncodeText(alphabet, rest) == if rest == [] then done else done + TailText(alphabet, rest)
    ensures EncodedLength(|rest|) == if rest == [] then 0 else 4
  {
    hide TailText;
  }

  /** `base64_decode_quartet_using_maps` into dest[at..at + 3]. */
  method DecodeQuartet(maps: Maps, ghost alphabet: seq<Byte>, dest: array<Byte>, at: nat, src: seq<Byte>)
    returns (ok: bool)
    requires |alphabet| == 64 && maps.For(alphabet) && at + 3 <= dest.Length && |src| == 4 && maps.Apart(dest)
    modifies dest
    ensures maps.For(alphabet)
    ensures ok == Quartet(alphabet, src).Some?
    ensures dest[..] == if ok then old(dest[..at]) + Quartet(alphabet, src).value + old(dest[at + 3..])
      else old(dest[..])
  {
    hide Value, Out0, Out1, Out2, Maps.For;
    var a := SixbitFromB64(maps, alphabet, src[0]);
    var b := SixbitFromB64(maps, alphabet, src[1]);
    var c := SixbitFromB64(maps, alphabet, src[2]);
    var d := SixbitFromB64(maps, alphabet, src[3]);
    if a.None? || b.None? || c.None? || d.None? { return false; }
    Store(maps, alphabet, dest, at, [Out0(a.value, b.value), Out1(b.value, c.value), Out2(c.value, d.value)]);
    return true;
  }

  /** `base64_decode_tail_using_maps`: the number of bytes, or -1. */
  method DecodeTailInto(maps: Maps, ghost alphabet: seq<Byte>, dest: array<Byte>, at: nat, src: seq<Byte>)
    returns (n: int)
    requires |alphabet| == 64 && maps.For(alphabet) && |src| <= 4 && maps.Apart(dest)
    requires src != [] ==> at + 3 <= dest.Length
    requires at <= dest.Length
    modifies dest
    ensures maps.For(alphabet)
    ensures n == -1 <==> DecodeTail(alphabet, src).None?
    ensures n != -1 ==> n == |DecodeTail(alphabet, src).value| && at + n <= dest.Length
    ensures n != -1 ==> dest[..at + n] == old(dest[..at]) + DecodeTail(alphabet, src).value
  {
    hide Quartet, Maps.For;
    var insize: nat := |src|;
    while insize != 0 && src[insize - 1] == PAD
      invariant insize <= |src| && Unpadded(src, insize) == Unpadded(src, |src|)
    {
      insize := insize - 1;
    }
    if insize == 0 {
      assert old(dest[..at]) + [] == dest[..at];
      return 0;
    }
    if insize == 1 { return -1; }
    var longsrc := src[..insize] + Fill(4 - insize);
    var ok := DecodeQuartet(maps, alphabet, dest, at, longsrc);
    if !ok { return -1; }
    assert dest[..at + (insize - 1)] == old(dest[..at]) + Quartet(alphabet, longsrc).value[..insize - 1];
    return insize - 1;
  }

  /** `base64_decode_using_maps`: the number of bytes, or -1 if the buffer is too small or the text is not
      base 64.  The rest of the buffer is zeroed. */
  method Decode(maps: Maps, ghost alphabet: seq<Byte>, dest: array<Byte>, src: seq<Byte>) returns (n: int)
    requires |alphabet| == 64 && maps.For(alphabet) && maps.Apart(dest)
    modifies dest
    ensures n == -1 <==> dest.Length < DecodedLength(|src|) || DecodeText(alphabet, src).None?
    ensures n != -1 ==> n == |DecodeText(alphabet, src).value| && n <= dest.Length
    ensures n != -1 ==>
      dest[..n] == DecodeText(alphabet, src).value && forall i :: n <= i < dest.Length ==> dest[i] == 0
  {
    hide Quartet, DecodeTail, DecodeText, DecodedLength, Maps.For;
    if dest.Length < DecodedLength(|src|) { return -1; }
    var destOffset, i := 0, 0;
    assert src[0..] == src;
    DecodeStart(alphabet, src);
    while |src| - i > 4
      invariant maps.For(alphabet)
      invariant i <= |src| && destOffset + DecodedLength(|src| - i) == DecodedLength(|src|)
      invariant DecodeText(alphabet, src) == Prepend(dest[..destOffset], DecodeText(alphabet, src[i..]))
    {
      ghost var done, rest := dest[..destOffset], src[i..];
      assert src[i..i + 4] == rest[..4] && rest[4..] == src[i + 4..];
      DecodeStep(alphabet, done, rest);
      var ok := DecodeQuartet(maps, alphabet, dest, destOffset, src[i..i + 4]);
      if !ok { return -1; }
      assert dest[..destOffset + 3] == done + Quartet(alphabet, rest[..4]).value;
      destOffset, i := destOffset + 3, i + 4;
    }
    DecodeStop(alphabet, src[i..]);
    ghost var done := dest[..destOffset];
    var more := DecodeTailInto(maps, alphabet, dest, destOffset, src[i..]);
    if more == -1 { return -1; }
    destOffset := destOffset + more;
    ghost var bytes := dest[..destOffset];
    forall k | destOffset <= k < dest.Length { dest[k] := 0; }
    assert dest[..destOffset] == bytes;
    return destOffset;
  }

  function Prepend(done: seq<Byte>, rest: Option<seq<Byte>>): Option<seq<Byte>>
  {
    if rest.None? then None else Some(done + rest.value)
  }

  lemma DecodeStart(alphabet: seq<Byte>, src: seq<Byte>)
    requires |alphabet| == 64
    ensures DecodeText(alphabet, src) == Prepend([], DecodeText(alphabet, src))
  {
    hide DecodeText;
    var t := DecodeText(alphabet, src);
    assert t.Some? ==> [] + t.value == t.value;
  }

  lemma DecodedLengthStep(n: nat)
    requires n > 4
    ensures DecodedLength(n) == 3 + DecodedLength(n - 4)
  {
  }

  lemma DecodeStep(alphabet: seq<Byte>, done: seq<Byte>, rest: seq<Byte>)
    requires |alphabet| == 64 && |rest| > 4
    ensures var q := Quartet(alphabet, rest[..4]);
      Prepend(done, DecodeText(alphabet, rest)) == if q.None? then None
        else Prepend(done + q.value, DecodeText(alphabet, rest[4..]))
    ensures DecodedLength(|rest|) == 3 + DecodedLength(|rest| - 4)
  {
    hide Quartet, DecodeTail, DecodedLength;
    DecodedLengthStep(|rest|);
    var q, r := Quartet(alphabet, rest[..4]), DecodeText(alphabet, rest[4..]);
    if q.Some? && r.Some? { Associates(done, q.value, r.value); }
  }

  lemma DecodeStop(alphabet: seq<Byte>, rest: seq<Byte>)
    requires |alphabet| == 64 && |rest| <= 4
    ensures DecodeText(alphabet, rest) == DecodeTail(alphabet, rest)
    ensures DecodedLength(|rest|) == if rest == [] then 0 else 3
  {
    hide DecodeTail;
  }

  /** Encoding into one buffer and decoding from it into another gives the bytes back. */
  method EncodeAndDecode(maps: Maps, ghost alphabet: seq<Byte>, src: seq<Byte>, text: array<Byte>, dest: array<Byte>)
    returns (n: int, m: int)
    requires |alphabet| == 64 && maps.For(alphabet) && Good(alphabet) && maps.Apart(text) && maps.Apart(dest) &&
      text != dest
    requires text.Length >= EncodedLength(|src|) && dest.Length >= DecodedLength(EncodedLength(|src|))
    modifies text, dest
    ensures n == (|src| + 2) / 3 * 4 && m == |src| <= dest.Length && dest[..m] == src
    ensures forall i :: m <= i < dest.Length ==> dest[i] == 0
  {
    hide EncodeText, DecodeText, Good, Maps.For, DecodedLength;
    n := Encode(maps, alphabet, text, src);
    RoundTrip(alphabet, src);
    m := Decode(maps, alphabet, dest, text[..n]);
  }
}
