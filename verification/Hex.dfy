/** Hexadecimal text of hex.h:2-68. */
module Hex {
  import opened Common

  /** An `unsigned char`; `c >> 4`, `c & 0xF` and `(v1 << 4) | v2` are division, remainder and sum. */
  type Octet = x: int | 0 <= x < 256

  /** `hexchar` */
  function HexChar(v: nat): char
    requires v < 16
  {
    if v < 10 then '0' + v as char else 'a' + (v - 10) as char
  }

  /** The digits are those of the text. */
  lemma HexDigits(v: nat)
    requires v < 16
    ensures HexChar(v) == "0123456789abcdef"[v]
  {
  }

  /** `char_to_hex` */
  function CharToHex(c: char): (r: Option<nat>)
    ensures r.Some? ==> r.value < 16
  {
    if '0' <= c <= '9' then Some(c as int - '0' as int)
    else if 'a' <= c <= 'f' then Some(c as int - 'a' as int + 10)
    else if 'A' <= c <= 'F' then Some(c as int - 'A' as int + 10)
    else None
  }

  predicate IsHex(text: string)
  {
    forall i :: 0 <= i < |text| ==> CharToHex(text[i]).Some?
  }

  /** The digit of the high half of the byte at even places and of the low half at odd ones. */
  function DigitAt(bytes: seq<Octet>, i: nat): char
    requires i < 2 * |bytes|
  {
    HexChar(if i % 2 == 0 then bytes[i / 2] / 16 else bytes[i / 2] % 16)
  }

  function Encode(bytes: seq<Octet>): (text: string)
    ensures |text| == 2 * |bytes|
  {
    seq(2 * |bytes|, i requires 0 <= i < 2 * |bytes| => DigitAt(bytes, i))
  }

  /** The byte of two digits. */
  function Pair(c1: char, c2: char): Octet
    requires CharToHex(c1).Some? && CharToHex(c2).Some?
  {
    16 * CharToHex(c1).value + CharToHex(c2).value
  }

  function Decode(text: string): (bytes: seq<Octet>)
    requires |text| % 2 == 0 && IsHex(text)
    ensures |bytes| == |text| / 2
  {
    seq(|text| / 2, k requires 0 <= k < |text| / 2 => Pair(text[2 * k], text[2 * k + 1]))
  }

  lemma PairOfDigits(c: Octet)
    ensures CharToHex(HexChar(c / 16)).Some? && CharToHex(HexChar(c % 16)).Some?
    ensures Pair(HexChar(c / 16), HexChar(c % 16)) == c
  {
  }

  /** Decoding undoes encoding. */
  lemma DecodeEncode(bytes: seq<Octet>)
    ensures IsHex(Encode(bytes)) && Decode(Encode(bytes)) == bytes
  {
    hide HexChar, CharToHex, Pair;
    var text := Encode(bytes);
    forall i | 0 <= i < |text|
      ensures CharToHex(text[i]).Some?
    {
      PairOfDigits(bytes[i / 2]);
    }
    forall k | 0 <= k < |bytes|
      ensures Decode(text)[k] == bytes[k]
    {
      PairOfDigits(bytes[k]);
      assert text[2 * k] == HexChar(bytes[k] / 16) && text[2 * k + 1] == HexChar(bytes[k] % 16);
    }
  }

  /** The digit with its letter in lower case. */
  function Lower(c: char): char
  {
    if 'A' <= c <= 'F' then 'a' + (c as int - 'A' as int) as char else c
  }

  lemma DigitsOfPair(c1: char, c2: char)
    requires CharToHex(c1).Some? && CharToHex(c2).Some?
    ensures HexChar(Pair(c1, c2) / 16) == Lower(c1) && HexChar(Pair(c1, c2) % 16) == Lower(c2)
  {
    assert Pair(c1, c2) / 16 == CharToHex(c1).value;
  }

  /** Encoding undoes decoding up to the case of letters. */
  lemma EncodeDecode(text: string)
    requires |text| % 2 == 0 && IsHex(text)
    ensures |Encode(Decode(text))| == |text|
    ensures forall i :: 0 <= i < |text| ==> Encode(Decode(text))[i] == Lower(text[i])
  {
    hide HexChar, CharToHex, Pair, Lower;
    forall i | 0 <= i < |text|
      ensures Encode(Decode(text))[i] == Lower(text[i])
    {
      var k := i / 2;
      DigitsOfPair(text[2 * k], text[2 * k + 1]);
      assert Decode(text)[k] == Pair(text[2 * k], text[2 * k + 1]);
    }
  }

  /** `hex_encode` into `dest`, with the final NUL; false if the buffer is too small. */
  method HexEncode(bytes: seq<Octet>, dest: array<char>) returns (ok: bool)
    modifies dest
    ensures ok == (dest.Length >= 2 * |bytes| + 1)
    ensures ok ==> dest[..2 * |bytes|] == Encode(bytes) && dest[2 * |bytes|] == '\0'
    ensures forall k :: (if ok then 2 * |bytes| + 1 else 0) <= k < dest.Length ==> dest[k] == old(dest[k])
  {
    if dest.Length < 2 * |bytes| + 1 { return false; }
    for i := 0 to |bytes|
      invariant forall k :: 0 <= k < 2 * i ==> dest[k] == DigitAt(bytes, k)
      invariant forall k :: 2 * i <= k < dest.Length ==> dest[k] == old(dest[k])
    {
      var c := bytes[i];
      assert (2 * i) / 2 == (2 * i + 1) / 2 == i;
      dest[2 * i] := HexChar(c / 16);
      dest[2 * i + 1] := HexChar(c % 16);
    }
    dest[2 * |bytes|] := '\0';
    return true;
  }

  /** `hex_decode`: succeeds exactly on hexadecimal text for as many bytes as the buffer holds. */
  method HexDecode(text: string, buf: array<Octet>) returns (ok: bool)
    modifies buf
    ensures ok == (|text| == 2 * buf.Length && IsHex(text))
    ensures ok ==> buf[..] == Decode(text)
  {
    var p, i := 0, 0;
    while |text| - i > 1
      invariant i == 2 * p && i <= |text| && p <= buf.Length
      invariant IsHex(text[..i])
      invariant forall k :: 0 <= k < p ==> CharToHex(text[2 * k]).Some? && CharToHex(text[2 * k + 1]).Some?
      invariant forall k :: 0 <= k < p ==> buf[k] == Pair(text[2 * k], text[2 * k + 1])
      decreases |text| - i
    {
      var v1 := CharToHex(text[i]);
      if v1.None? { return false; }
      var v2 := CharToHex(text[i + 1]);
      if v2.None? || p == buf.Length { return false; }
      buf[p] := 16 * v1.value + v2.value;
      p, i := p + 1, i + 2;
    }
    ok := i == |text| && p == buf.Length;
    assert ok ==> text[..i] == text;
  }
}
