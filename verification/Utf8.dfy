/** UTF-8 reading, writing and in-place re-encoding (compat/utf8proc.c:125-201, 722-744),
    against section 3 of RFC 3629. */
module Utf8 {
  import opened Common

  /** A `utf8proc_int32_t`, as its 32 bits; values from 0x80000000 up are the negative ones. */
  type Code = bv32

  // ----- one code point -----

  /** `utf8proc_codepoint_valid`: unsigned wrap-around folds the two range tests into one. */
  predicate CodepointValid(uc: Code)
  {
    uc - 0xd800 > 0x07ff && uc < 0x11_0000
  }

  /** A Unicode scalar value. */
  predicate Scalar(uc: Code)
  {
    uc < 0xd800 || 0xe000 <= uc < 0x11_0000
  }

  lemma ValidIsScalar(uc: Code)
    ensures CodepointValid(uc) <==> Scalar(uc)
  {
  }

  /** A continuation byte carrying the low six bits of x, and those bits read back. */
  function Tail(x: Code): Byte { (0x80 + (x & 0x3F)) as Byte }

  function Bits(b: Byte): Code { (b & 0x3f) as Code }

  function Lead2(uc: Code): Byte requires uc < 0x800 { (0xC0 + (uc >> 6)) as Byte }

  function Lead3(uc: Code): Byte requires uc < 0x1_0000 { (0xE0 + (uc >> 12)) as Byte }

  function Lead4(uc: Code): Byte requires uc < 0x11_0000 { (0xF0 + (uc >> 18)) as Byte }

  function Lead2Bits(b: Byte): Code { (b & 0x1f) as Code }

  function Lead3Bits(b: Byte): Code { (b & 0xf) as Code }

  function Lead4Bits(b: Byte): Code { (b & 7) as Code }

  /** The bytes `utf8proc_encode_char` writes; none for values out of range. */
  function Encode(uc: Code): (r: seq<Byte>)
    ensures |r| <= 4
  {
    if uc >= 0x8000_0000 then []
    else if uc < 0x80 then [uc as Byte]
    else if uc < 0x800 then [Lead2(uc), Tail(uc)]
    else if uc < 0x1_0000 then [Lead3(uc), Tail(uc >> 6), Tail(uc)]
    else if uc < 0x11_0000 then [Lead4(uc), Tail(uc >> 12), Tail(uc >> 6), Tail(uc)]
    else []
  }

  /** `utf_cont` */
  predicate Continues(b: Byte)
  {
    b & 0xc0 == 0x80
  }

  datatype Step = Done | Invalid | Read(length: nat, uc: Code)

  /** How many bytes a sequence has that starts with a; no sequence starts with the others. */
  function LeadLength(a: Byte): nat
  {
    if a < 0x80 then 1
    else if a - 0xc2 > 0xf4 - 0xc2 then 0
    else if a < 0xe0 then 2
    else if a < 0xf0 then 3
    else 4
  }

  /** Second bytes that lead to a surrogate, to an overlong form or above 10FFFF. */
  predicate Refused(a: Byte, b: Byte)
  {
    (a == 0xed && b > 0x9f) || (a == 0xf0 && b < 0x90) || (a == 0xf4 && b > 0x8f)
  }

  predicate Overlong(x: Code)
  {
    x < 0x800
  }

  /** `utf8proc_iterate` on a string of known length. */
  function Iterate(s: seq<Byte>): (r: Step)
    ensures r.Read? ==> 1 <= r.length <= |s|
  {
    if |s| == 0 then Done
    else match LeadLength(s[0])
      case 0 => Invalid
      case 1 => Read(1, s[0] as Code)
      case 2 =>
        if |s| < 2 || !Continues(s[1]) then Invalid
        else Read(2, Two(s[0], s[1]))
      case 3 =>
        if |s| < 3 || !Continues(s[1]) || !Continues(s[2]) then Invalid
        else if Refused(s[0], s[1]) || Overlong(Three(s[0], s[1], s[2])) then Invalid
        else Read(3, Three(s[0], s[1], s[2]))
      case _ =>
        if |s| < 4 || !Continues(s[1]) || !Continues(s[2]) || !Continues(s[3]) then Invalid
        else if Refused(s[0], s[1]) then Invalid
        else Read(4, Four(s[0], s[1], s[2], s[3]))
  }

  function Two(a: Byte, b: Byte): Code {
    (Lead2Bits(a) << 6) | Bits(b)
  }

  function Three(a: Byte, b: Byte, c: Byte): Code {
    (Lead3Bits(a) << 12) | (Bits(b) << 6) | Bits(c)
  }

  function Four(a: Byte, b: Byte, c: Byte, d: Byte): Code {
    (Lead4Bits(a) << 18) | (Bits(b) << 12) | (Bits(c) << 6) | Bits(d)
  }

  // ----- bytes and bits -----

  lemma TailBits(x: Code)
    ensures Continues(Tail(x)) && Bits(Tail(x)) == x & 0x3F
  {
  }

  lemma BitsTail(b: Byte, x: Code)
    requires Continues(b) && x & 0x3F == Bits(b)
    ensures Tail(x) == b
  {
  }

  lemma Split2(uc: Code)
    requires 0x80 <= uc < 0x800
    ensures 0xc2 <= Lead2(uc) < 0xe0 && Lead2Bits(Lead2(uc)) == uc >> 6
    ensures ((uc >> 6) << 6) | (uc & 0x3F) == uc
  {
  }

  lemma Split3(uc: Code)
    requires 0x800 <= uc < 0x1_0000
    ensures 0xe0 <= Lead3(uc) < 0xf0 && Lead3Bits(Lead3(uc)) == uc >> 12
    ensures ((uc >> 12) << 12) | (((uc >> 6) & 0x3F) << 6) | (uc & 0x3F) == uc
  {
  }

  lemma Surrogate3(uc: Code)
    requires 0x800 <= uc < 0x1_0000
    ensures Lead3(uc) == 0xed && Tail(uc >> 6) > 0x9f <==> !Scalar(uc)
  {
  }

  lemma Split4(uc: Code)
    requires 0x1_0000 <= uc < 0x11_0000
    ensures 0xf0 <= Lead4(uc) <= 0xf4 && Lead4Bits(Lead4(uc)) == uc >> 18
    ensures ((uc >> 18) << 18) | (((uc >> 12) & 0x3F) << 12) | (((uc >> 6) & 0x3F) << 6) | (uc & 0x3F) == uc
  {
  }

  lemma Range4(uc: Code)
    requires 0x1_0000 <= uc < 0x11_0000
    ensures Lead4(uc) == 0xf0 ==> Tail(uc >> 12) >= 0x90
    ensures Lead4(uc) == 0xf4 ==> Tail(uc >> 12) <= 0x8f
  {
  }

  lemma Join2(a: Byte, b: Byte)
    requires 0xc2 <= a < 0xe0
    ensures var uc := Two(a, b); 0x80 <= uc < 0x800 && Lead2(uc) == a && uc & 0x3F == Bits(b)
  {
  }

  lemma Join3(a: Byte, b: Byte, c: Byte)
    requires 0xe0 <= a < 0xf0
    ensures var uc := Three(a, b, c);
            uc < 0x1_0000 && Lead3(uc) == a && (uc >> 6) & 0x3F == Bits(b) && uc & 0x3F == Bits(c)
  {
  }

  lemma Join4(a: Byte, b: Byte, c: Byte, d: Byte)
    requires 0xf0 <= a <= 0xf4 && Continues(b) && (a == 0xf0 ==> b >= 0x90) && (a == 0xf4 ==> b <= 0x8f)
    ensures var uc := Four(a, b, c, d);
            && 0x1_0000 <= uc < 0x11_0000 && Lead4(uc) == a
            && (uc >> 12) & 0x3F == Bits(b) && (uc >> 6) & 0x3F == Bits(c) && uc & 0x3F == Bits(d)
  {
  }

  // ----- writing and reading one code point -----

  lemma Read1(uc: Code, s: seq<Byte>)
    requires uc < 0x80 && |s| >= 1 && s[0] == uc as Byte
    ensures Iterate(s) == Read(1, uc)
  {
  }

  lemma Value2(uc: Code)
    requires 0x80 <= uc < 0x800
    ensures Two(Lead2(uc), Tail(uc)) == uc
  {
    hide Tail, Bits, Lead2, Lead2Bits;
    Split2(uc);
    TailBits(uc);
  }

  lemma Value3(uc: Code)
    requires 0x800 <= uc < 0x1_0000
    ensures Three(Lead3(uc), Tail(uc >> 6), Tail(uc)) == uc
  {
    hide Tail, Bits, Lead3, Lead3Bits;
    Split3(uc);
    TailBits(uc >> 6);
    TailBits(uc);
  }

  lemma Value4(uc: Code)
    requires 0x1_0000 <= uc < 0x11_0000
    ensures Four(Lead4(uc), Tail(uc >> 12), Tail(uc >> 6), Tail(uc)) == uc
  {
    hide Tail, Bits, Lead4, Lead4Bits;
    Split4(uc);
    TailBits(uc >> 12);
    TailBits(uc >> 6);
    TailBits(uc);
  }

  lemma Read2(uc: Code, s: seq<Byte>)
    requires 0x80 <= uc < 0x800 && |s| >= 2 && s[0] == Lead2(uc) && s[1] == Tail(uc)
    ensures Iterate(s) == Read(2, uc)
  {
    hide Continues, Tail, Lead2, Two;
    Split2(uc);
    TailBits(uc);
    Value2(uc);
  }

  lemma Read3(uc: Code, s: seq<Byte>)
    requires 0x800 <= uc < 0x1_0000 && Scalar(uc)
    requires |s| >= 3 && s[0] == Lead3(uc) && s[1] == Tail(uc >> 6) && s[2] == Tail(uc)
    ensures Iterate(s) == Read(3, uc)
  {
    hide Continues, Tail, Lead3, Three, Scalar;
    Split3(uc);
    Surrogate3(uc);
    TailBits(uc >> 6);
    TailBits(uc);
    Value3(uc);
  }

  lemma Read4(uc: Code, s: seq<Byte>)
    requires 0x1_0000 <= uc < 0x11_0000
    requires |s| >= 4 && s[0] == Lead4(uc) && s[1] == Tail(uc >> 12) && s[2] == Tail(uc >> 6) && s[3] == Tail(uc)
    ensures Iterate(s) == Read(4, uc)
  {
    hide Continues, Tail, Lead4, Four;
    Split4(uc);
    Range4(uc);
    TailBits(uc >> 12);
    TailBits(uc >> 6);
    TailBits(uc);
    Value4(uc);
  }

  /** Reading what was written for a scalar value gives it back, whatever follows. */
  lemma EncodeThenIterate(uc: Code, rest: seq<Byte>)
    requires Scalar(uc)
    ensures Iterate(Encode(uc) + rest) == Read(|Encode(uc)|, uc)
  {
    hide Continues, Tail, Bits, Lead2, Lead3, Lead4, Two, Three, Four, Iterate;
    var s := Encode(uc) + rest;
    if uc < 0x80 {
      Read1(uc, s);
    } else if uc < 0x800 {
      Read2(uc, s);
    } else if uc < 0x1_0000 {
      Read3(uc, s);
    } else {
      Read4(uc, s);
    }
  }

  lemma EncodeShape(uc: Code)
    ensures uc >= 0x8000_0000 ==> Encode(uc) == []
    ensures uc < 0x80 ==> Encode(uc) == [uc as Byte]
    ensures 0x80 <= uc < 0x800 ==> Encode(uc) == [Lead2(uc), Tail(uc)]
    ensures 0x800 <= uc < 0x1_0000 ==> Encode(uc) == [Lead3(uc), Tail(uc >> 6), Tail(uc)]
    ensures 0x1_0000 <= uc < 0x11_0000 ==> Encode(uc) == [Lead4(uc), Tail(uc >> 12), Tail(uc >> 6), Tail(uc)]
    ensures 0x11_0000 <= uc < 0x8000_0000 ==> Encode(uc) == []
  {
    hide Tail, Lead2, Lead3, Lead4;
  }

  lemma Shape2(s: seq<Byte>)
    requires Iterate(s).Read? && Iterate(s).length == 2
    ensures 0xc2 <= s[0] < 0xe0 && Continues(s[1]) && Iterate(s).uc == Two(s[0], s[1])
  {
    hide Continues, Two, Three, Four;
  }

  lemma Shape3(s: seq<Byte>)
    requires Iterate(s).Read? && Iterate(s).length == 3
    ensures 0xe0 <= s[0] < 0xf0 && Continues(s[1]) && Continues(s[2])
    ensures Iterate(s).uc == Three(s[0], s[1], s[2]) && Iterate(s).uc >= 0x800
    ensures s[0] == 0xed ==> s[1] <= 0x9f
  {
    hide Continues, Two, Three, Four;
  }

  lemma Write2(s: seq<Byte>)
    requires Iterate(s).Read? && Iterate(s).length == 2
    ensures Scalar(Iterate(s).uc) && Encode(Iterate(s).uc) == [s[0], s[1]]
  {
    hide Continues, Tail, Bits, Lead2, Two, Iterate;
    Shape2(s);
    Join2(s[0], s[1]);
    BitsTail(s[1], Two(s[0], s[1]));
  }

  lemma Back3(a: Byte, b: Byte, c: Byte)
    requires 0xe0 <= a < 0xf0 && Continues(b) && Continues(c)
    ensures var uc := Three(a, b, c); uc < 0x1_0000 && Lead3(uc) == a && Tail(uc >> 6) == b && Tail(uc) == c
  {
    hide Continues, Tail, Bits, Lead3, Three;
    Join3(a, b, c);
    BitsTail(b, Three(a, b, c) >> 6);
    BitsTail(c, Three(a, b, c));
  }

  lemma Write3(s: seq<Byte>)
    requires Iterate(s).Read? && Iterate(s).length == 3
    ensures Scalar(Iterate(s).uc) && Encode(Iterate(s).uc) == [s[0], s[1], s[2]]
  {
    hide Continues, Tail, Lead3, Three, Scalar, Iterate, Encode;
    Shape3(s);
    Back3(s[0], s[1], s[2]);
    EncodeShape(Three(s[0], s[1], s[2]));
    Surrogate3(Three(s[0], s[1], s[2]));
  }

  lemma FourBytes(uc: Code, a: Byte, b: Byte, c: Byte, d: Byte)
    requires 0x1_0000 <= uc < 0x11_0000 && Lead4(uc) == a && Continues(b) && Continues(c) && Continues(d)
    requires (uc >> 12) & 0x3F == Bits(b) && (uc >> 6) & 0x3F == Bits(c) && uc & 0x3F == Bits(d)
    ensures Scalar(uc) && Encode(uc) == [a, b, c, d]
  {
    hide Continues, Tail, Bits, Lead4, Encode;
    EncodeShape(uc);
    BitsTail(b, uc >> 12);
    BitsTail(c, uc >> 6);
    BitsTail(d, uc);
  }

  lemma Back4(a: Byte, b: Byte, c: Byte, d: Byte)
    requires 0xf0 <= a <= 0xf4 && Continues(b) && (a == 0xf0 ==> b >= 0x90) && (a == 0xf4 ==> b <= 0x8f)
    requires Continues(c) && Continues(d)
    ensures var uc := Four(a, b, c, d);
            Scalar(uc) && Encode(uc) == [a, b, c, d]
  {
    hide Continues, Tail, Bits, Lead4, Four, Encode, Scalar;
    Join4(a, b, c, d);
    FourBytes(Four(a, b, c, d), a, b, c, d);
  }

  lemma Shape4(s: seq<Byte>)
    requires Iterate(s).Read? && Iterate(s).length == 4
    ensures 0xf0 <= s[0] <= 0xf4 && (s[0] == 0xf0 ==> s[1] >= 0x90) && (s[0] == 0xf4 ==> s[1] <= 0x8f)
    ensures Continues(s[1]) && Continues(s[2]) && Continues(s[3])
    ensures Iterate(s).uc == Four(s[0], s[1], s[2], s[3])
  {
    hide Continues, Two, Three, Four;
  }

  lemma Write4(s: seq<Byte>)
    requires Iterate(s).Read? && Iterate(s).length == 4
    ensures Scalar(Iterate(s).uc) && Encode(Iterate(s).uc) == [s[0], s[1], s[2], s[3]]
  {
    hide Continues, Tail, Lead4, Four, Scalar, Iterate, Encode;
    Shape4(s);
    Back4(s[0], s[1], s[2], s[3]);
  }

  lemma IterateLengths(s: seq<Byte>)
    requires Iterate(s).Read?
    ensures 1 <= Iterate(s).length <= 4
    ensures Iterate(s).length == 1 ==> Scalar(Iterate(s).uc) && Encode(Iterate(s).uc) == [s[0]]
  {
    hide Continues, Two, Three, Four;
  }

  /** Whatever is accepted is the encoding of a scalar value: no overlong form, no surrogate,
      nothing above 10FFFF. */
  lemma IterateThenEncode(s: seq<Byte>)
    requires Iterate(s).Read?
    ensures Scalar(Iterate(s).uc) && s[..Iterate(s).length] == Encode(Iterate(s).uc)
  {
    hide Iterate, Encode, Scalar;
    IterateLengths(s);
    if Iterate(s).length == 2 { Write2(s); }
    if Iterate(s).length == 3 { Write3(s); }
    if Iterate(s).length == 4 { Write4(s); }
  }

  /** What a byte adds to a number to the base 64. */
  function Digit(b: Byte, lead: Byte): Code
  {
    b as Code - lead as Code
  }

  /** The value read is the number whose digits to the base 64 the bytes are, the marks of section 3 of
      RFC 3629 taken off: C0, E0 or F0 from the first byte and 80 from the others. */
  lemma ReadsDigits(s: seq<Byte>)
    requires Iterate(s).Read?
    ensures Iterate(s).uc == Numeral(s, Iterate(s).length)
  {
    hide Iterate, Numeral;
    IterateLengths(s);
    if Iterate(s).length == 1 { Shape1(s); }
    if Iterate(s).length == 2 { Shape2(s); TwoDigits(s); }
    if Iterate(s).length == 3 { Shape3(s); ThreeDigits(s); }
    if Iterate(s).length == 4 { Shape4(s); FourDigits(s); }
  }

  /** The number to the base 64 that the first n bytes stand for. */
  function Numeral(s: seq<Byte>, n: nat): Code
    requires 1 <= n <= 4 && n <= |s|
  {
    if n == 1 then Digit(s[0], 0)
    else if n == 2 then Digit(s[0], 0xc0) * 64 + Digit(s[1], 0x80)
    else if n == 3 then (Digit(s[0], 0xe0) * 64 + Digit(s[1], 0x80)) * 64 + Digit(s[2], 0x80)
    else ((Digit(s[0], 0xf0) * 64 + Digit(s[1], 0x80)) * 64 + Digit(s[2], 0x80)) * 64 + Digit(s[3], 0x80)
  }

  lemma Shape1(s: seq<Byte>)
    requires Iterate(s).Read? && Iterate(s).length == 1
    ensures Iterate(s).uc == Numeral(s, 1)
  {
    hide Continues, Two, Three, Four;
  }

  lemma TwoDigits(s: seq<Byte>)
    requires |s| >= 2 && 0xc0 <= s[0] < 0xe0 && Continues(s[1])
    ensures Two(s[0], s[1]) == Numeral(s, 2)
  {
  }

  lemma ThreeDigits(s: seq<Byte>)
    requires |s| >= 3 && 0xe0 <= s[0] < 0xf0 && Continues(s[1]) && Continues(s[2])
    ensures Three(s[0], s[1], s[2]) == Numeral(s, 3)
  {
  }

  lemma FourDigits(s: seq<Byte>)
    requires |s| >= 4 && 0xf0 <= s[0] <= 0xf4 && Continues(s[1]) && Continues(s[2]) && Continues(s[3])
    ensures Four(s[0], s[1], s[2], s[3]) == Numeral(s, 4)
  {
  }

  /** The reader accepts a string exactly when it starts with a well-formed sequence. */
  lemma AcceptsExactly(s: seq<Byte>)
    ensures Iterate(s).Read? <==> exists uc :: Scalar(uc) && Encode(uc) <= s
  {
    hide Iterate, Encode, Scalar;
    if Iterate(s).Read? {
      IterateThenEncode(s);
      assert Encode(Iterate(s).uc) <= s;
    }
    if uc :| Scalar(uc) && Encode(uc) <= s {
      EncodeThenIterate(uc, s[|Encode(uc)|..]);
      assert Encode(uc) + s[|Encode(uc)|..] == s;
    }
  }

  /** Of the values the writer accepts, exactly the surrogates cannot be read back. */
  lemma SurrogatesOnly(uc: Code)
    requires uc < 0x11_0000
    ensures Iterate(Encode(uc)) == Read(|Encode(uc)|, uc) <==> CodepointValid(uc)
  {
    hide Iterate, Encode;
    ValidIsScalar(uc);
    if Scalar(uc) {
      EncodeThenIterate(uc, []);
      assert Encode(uc) + [] == Encode(uc);
    } else if Iterate(Encode(uc)) == Read(|Encode(uc)|, uc) {
      IterateThenEncode(Encode(uc));
    }
  }

  // ----- whole strings -----

  /** `UTF8PROC_CHARBOUND` puts -1 in front of every grapheme. */
  const MARK: Code := 0xffff_ffff

  /** What `charbound_encode_char` writes, or `utf8proc_encode_char` without that option. */
  function Written(uc: Code, charbound: bool): (r: seq<Byte>)
    ensures |r| <= 4
  {
    if charbound && uc == MARK then [0xff] else Encode(uc)
  }

  function EncodeAll(cs: seq<Code>, charbound: bool := false): (r: seq<Byte>)
    ensures |r| <= 4 * |cs|
  {
    if |cs| == 0 then [] else EncodeAll(cs[..|cs| - 1], charbound) + Written(cs[|cs| - 1], charbound)
  }

  datatype Decoded = Malformed | Text(codes: seq<Code>)

  /** The reading loop at the head of `utf8proc_decompose_custom`, without its options. */
  function DecodeFrom(s: seq<Byte>, rpos: nat, codes: seq<Code>): Decoded
    requires rpos <= |s|
    decreases |s| - rpos
  {
    if rpos == |s| then Text(codes)
    else match Iterate(s[rpos..])
      case Read(n, uc) => DecodeFrom(s, rpos + n, codes + [uc])
      case _ => Malformed
  }

  method Decode(str: array<Byte>) returns (r: Decoded)
    ensures r == DecodeFrom(str[..], 0, [])
  {
    var rpos := 0;
    var codes := [];
    while true
      invariant rpos <= str.Length
      invariant DecodeFrom(str[..], rpos, codes) == DecodeFrom(str[..], 0, [])
      decreases str.Length - rpos
    {
      if rpos >= str.Length { break; }
      var step := Iterate(str[rpos..]);
      assert str[..][rpos..] == str[rpos..];
      if !step.Read? { return Malformed; }
      rpos := rpos + step.length;
      codes := codes + [step.uc];
    }
    return Text(codes);
  }

  // ----- strings that end at a NUL -----

  function FirstNul(m: seq<Byte>, i: nat): (z: nat)
    requires i <= |m|
    ensures i <= z <= |m| && (z < |m| ==> m[z] == 0)
    ensures forall j :: i <= j < z ==> m[j] != 0
    decreases |m| - i
  {
    if i == |m| || m[i] == 0 then i else FirstNul(m, i + 1)
  }

  /** `utf8proc_iterate` at m[at..] with a negative length: no byte is looked at before the one in front
      of it is known not to be the NUL. */
  function IterateOpen(m: seq<Byte>, at: nat, ghost z: nat): (r: Step)
    requires at <= z < |m| && m[z] == 0
  {
    match LeadLength(m[at])
    case 0 => Invalid
    case 1 => Read(1, m[at] as Code)
    case 2 =>
      if !Continues(m[at + 1]) then Invalid
      else Read(2, Two(m[at], m[at + 1]))
    case 3 =>
      if !Continues(m[at + 1]) || !Continues(m[at + 2]) then Invalid
      else if Refused(m[at], m[at + 1]) || Overlong(Three(m[at], m[at + 1], m[at + 2])) then Invalid
      else Read(3, Three(m[at], m[at + 1], m[at + 2]))
    case _ =>
      if !Continues(m[at + 1]) || !Continues(m[at + 2]) || !Continues(m[at + 3]) then Invalid
      else if Refused(m[at], m[at + 1]) then Invalid
      else Read(4, Four(m[at], m[at + 1], m[at + 2], m[at + 3]))
  }

  lemma Window(m: seq<Byte>, at: nat, z: nat)
    requires at < z < |m|
    ensures var s := m[at..z];
      && |s| == z - at && s[0] == m[at] && (|s| > 1 ==> s[1] == m[at + 1])
      && (|s| > 2 ==> s[2] == m[at + 2]) && (|s| > 3 ==> s[3] == m[at + 3])
  {
  }

  /** Without a length a NUL is what the end is with one. */
  lemma OpenIsBounded(m: seq<Byte>, at: nat, z: nat)
    requires at <= z < |m| && m[z] == 0
    ensures IterateOpen(m, at, z) == if at == z then Read(1, 0) else Iterate(m[at..z])
  {
    hide LeadLength, Refused, Overlong, Two, Three, Four, Continues;
    if at == z {
      NulLeads();
    } else {
      NulEnds();
      Window(m, at, z);
    }
  }

  lemma NulLeads()
    ensures LeadLength(0) == 1 && 0 as Code == 0
  {
  }

  lemma NulEnds()
    ensures !Continues(0)
  {
  }

  lemma NulIsNul(s: seq<Byte>)
    requires Iterate(s) == Read(1, 0)
    ensures |s| > 0 && s[0] == 0
  {
  }

  lemma OnlyNulIsZero(s: seq<Byte>)
    requires Iterate(s).Read? && Iterate(s).uc == 0
    ensures |s| > 0 && s[0] == 0
  {
    hide Iterate;
    IterateThenEncode(s);
    NulIsNul(s) by { assert |Encode(0)| == 1; }
  }

  /** The reading loop with `UTF8PROC_NULLTERM`: decodes what stands in front of the NUL. */
  method DecodeNulTerminated(str: array<Byte>) returns (r: Decoded)
    requires FirstNul(str[..], 0) < str.Length
    ensures r == DecodeFrom(str[..FirstNul(str[..], 0)], 0, [])
  {
    hide IterateOpen, Iterate;
    var rpos := 0;
    var codes := [];
    ghost var z := FirstNul(str[..], 0);
    while true
      invariant rpos <= z
      invariant DecodeFrom(str[..z], rpos, codes) == DecodeFrom(str[..z], 0, [])
      decreases z - rpos
    {
      OpenIsBounded(str[..], rpos, z);
      var step := IterateOpen(str[..], rpos, z);
      assert str[..][rpos..z] == str[..z][rpos..];
      if !step.Read? { return Malformed; }
      if step.uc == 0 {
        if rpos < z { OnlyNulIsZero(str[rpos..z]); }
        break;
      }
      rpos := rpos + step.length;
      codes := codes + [step.uc];
    }
    return Text(codes);
  }

  predicate AllScalar(cs: seq<Code>)
  {
    forall i :: 0 <= i < |cs| ==> Scalar(cs[i])
  }

  /** Accepted bytes re-encode to themselves, and what is decoded is all scalar values. */
  lemma {:induction false} DecodeThenEncode(s: seq<Byte>, rpos: nat, codes: seq<Code>)
    requires rpos <= |s| && EncodeAll(codes) == s[..rpos] && AllScalar(codes)
    requires DecodeFrom(s, rpos, codes).Text?
    ensures EncodeAll(DecodeFrom(s, rpos, codes).codes) == s && AllScalar(DecodeFrom(s, rpos, codes).codes)
    decreases |s| - rpos
  {
    hide Iterate, Encode, Scalar;
    if rpos == |s| {
      assert s[..rpos] == s;
    } else {
      var step := Iterate(s[rpos..]);
      IterateThenEncode(s[rpos..]);
      var more := codes + [step.uc];
      assert more[..|codes|] == codes;
      assert s[..rpos] + s[rpos..][..step.length] == s[..rpos + step.length];
      DecodeThenEncode(s, rpos + step.length, more);
    }
  }

  lemma EncodeAllLast(cs: seq<Code>, charbound: bool)
    ensures |cs| == 0 ==> EncodeAll(cs, charbound) == []
    ensures |cs| > 0 ==>
      EncodeAll(cs, charbound) == EncodeAll(cs[..|cs| - 1], charbound) + Written(cs[|cs| - 1], charbound)
  {
    hide Written;
  }

  lemma Associates(a: seq<Byte>, b: seq<Byte>, c: seq<Byte>)
    ensures (a + b) + c == a + (b + c)
  {
  }

  lemma {:induction false} EncodeAllSplit(a: seq<Code>, b: seq<Code>, charbound: bool)
    ensures EncodeAll(a + b, charbound) == EncodeAll(a, charbound) + EncodeAll(b, charbound)
  {
    hide Written, EncodeAll;
    EncodeAllLast(b, charbound);
    if |b| == 0 {
      assert a + b == a;
    } else {
      var n := |b| - 1;
      EncodeAllLast(a + b, charbound);
      assert (a + b)[..|a| + n] == a + b[..n];
      EncodeAllSplit(a, b[..n], charbound);
      Associates(EncodeAll(a, charbound), EncodeAll(b[..n], charbound), Written(b[n], charbound));
    }
  }

  /** Decoding an encoded text returns it. */
  lemma {:induction false} EncodeThenDecode(cs: seq<Code>, i: nat)
    requires i <= |cs| && AllScalar(cs)
    ensures |EncodeAll(cs[..i])| <= |EncodeAll(cs)|
    ensures DecodeFrom(EncodeAll(cs), |EncodeAll(cs[..i])|, cs[..i]) == Text(cs)
    decreases |cs| - i
  {
    hide Iterate, Encode, Scalar, EncodeAll;
    var s := EncodeAll(cs);
    assert cs == cs[..i] + cs[i..];
    EncodeAllSplit(cs[..i], cs[i..], false);
    if i == |cs| {
      assert cs[..i] == cs;
    } else {
      var r := |EncodeAll(cs[..i])|;
      EncodeThenDecode(cs, i + 1);
      assert cs[..i + 1] == cs[..i] + [cs[i]];
      assert cs[i..] == [cs[i]] + cs[i + 1..];
      EncodeAllSplit(cs[..i], [cs[i]], false);
      EncodeAllSplit([cs[i]], cs[i + 1..], false);
      EncodeOne(cs[i], false);
      EncodeThenIterate(cs[i], EncodeAll(cs[i + 1..]));
      assert s[r..] == Encode(cs[i]) + EncodeAll(cs[i + 1..]);
    }
  }

  lemma EncodeOne(uc: Code, charbound: bool)
    ensures EncodeAll([uc], charbound) == Written(uc, charbound)
  {
    hide Written;
    var none := [uc][..0];
    assert none == [] && EncodeAll(none, charbound) == [];
  }

  // ----- grapheme marks -----

  /** What decomposing leaves in the buffer: scalar values, and marks if they are asked for. */
  predicate AllWritable(cs: seq<Code>, charbound: bool)
  {
    forall i :: 0 <= i < |cs| ==> Scalar(cs[i]) || (charbound && cs[i] == MARK)
  }

  lemma MarkStandsOut(uc: Code, rest: seq<Byte>, rest': seq<Byte>)
    requires Scalar(uc)
    ensures Encode(uc) + rest != [0xff] + rest'
  {
    hide Iterate, Encode;
    EncodeThenIterate(uc, rest);
    NoSuchLead([0xff] + rest');
  }

  lemma NoSuchLead(s: seq<Byte>)
    requires |s| > 0 && s[0] == 0xff
    ensures Iterate(s) == Invalid
  {
  }

  lemma WrittenOnce(x: Code, rest: seq<Byte>, y: Code, rest': seq<Byte>, charbound: bool)
    requires AllWritable([x], charbound) && AllWritable([y], charbound)
    requires Written(x, charbound) + rest == Written(y, charbound) + rest'
    ensures x == y && rest == rest'
  {
    hide Iterate, Encode, Scalar;
    assert Scalar([x][0]) || x == MARK;
    assert Scalar([y][0]) || y == MARK;
    var s := Written(x, charbound) + rest;
    assert s[|Written(x, charbound)|..] == rest && s[|Written(y, charbound)|..] == rest';
    NotScalar();
    if x == MARK && y != MARK {
      MarkStandsOut(y, rest', rest);
    } else if x != MARK && y == MARK {
      MarkStandsOut(x, rest, rest');
    } else if x != MARK {
      EncodeThenIterate(x, rest);
      EncodeThenIterate(y, rest');
    }
  }

  lemma NotScalar()
    ensures !Scalar(MARK)
  {
  }

  /** The bytes tell the code points and where the marks stood. */
  lemma {:induction false} WrittenApart(a: seq<Code>, b: seq<Code>, charbound: bool)
    requires AllWritable(a, charbound) && AllWritable(b, charbound) &&
      EncodeAll(a, charbound) == EncodeAll(b, charbound)
    ensures a == b
    decreases |a|
  {
    hide Written, EncodeAll, Scalar;
    WrittenLength(a, charbound);
    WrittenLength(b, charbound);
    if |a| > 0 && |b| > 0 {
      assert a == [a[0]] + a[1..] && b == [b[0]] + b[1..];
      EncodeAllSplit([a[0]], a[1..], charbound);
      EncodeAllSplit([b[0]], b[1..], charbound);
      EncodeOne(a[0], charbound);
      EncodeOne(b[0], charbound);
      WrittenOnce(a[0], EncodeAll(a[1..], charbound), b[0], EncodeAll(b[1..], charbound), charbound);
      WrittenApart(a[1..], b[1..], charbound);
    }
  }

  lemma WrittenLength(cs: seq<Code>, charbound: bool)
    requires AllWritable(cs, charbound)
    ensures EncodeAll(cs, charbound) == [] <==> cs == []
  {
    hide Encode, Scalar;
    if |cs| > 0 {
      var uc := cs[|cs| - 1];
      if uc != MARK { EncodeLength(uc); }
      NotScalar();
    }
  }

  lemma EncodeLength(uc: Code)
    requires Scalar(uc)
    ensures |Encode(uc)| > 0
  {
  }

  // ----- re-encoding in place -----

  function Combine(a: Byte, b: Byte, c: Byte, d: Byte): Code
  {
    ((a as Code) << 24) | ((b as Code) << 16) | ((c as Code) << 8) | (d as Code)
  }

  /** One `utf8proc_int32_t` of the buffer, seen through its four bytes in either byte order. */
  function Load(mem: seq<Byte>, index: nat, bigEndian: bool): Code
    requires 4 * index + 4 <= |mem|
  {
    var i := 4 * index;
    if bigEndian then Combine(mem[i], mem[i + 1], mem[i + 2], mem[i + 3])
    else Combine(mem[i + 3], mem[i + 2], mem[i + 1], mem[i])
  }

  function Codes(mem: seq<Byte>, length: nat, bigEndian: bool): (r: seq<Code>)
    requires 4 * length <= |mem|
    ensures |r| == length
  {
    if length == 0 then [] else Codes(mem, length - 1, bigEndian) + [Load(mem, length - 1, bigEndian)]
  }

  lemma Spliced(before: seq<Byte>, after: seq<Byte>, dst: nat, part: seq<Byte>)
    requires |before| == |after| && dst + |part| <= |before|
    requires forall k :: 0 <= k < |before| ==>
      after[k] == if dst <= k < dst + |part| then part[k - dst] else before[k]
    ensures after == before[..dst] + part + before[dst + |part|..]
  {
  }

  /** `utf8proc_encode_char` into the buffer at `dst`. */
  method EncodeChar(uc: Code, mem: array<Byte>, dst: nat) returns (n: nat)
    requires dst + |Encode(uc)| <= mem.Length
    modifies mem
    ensures n == |Encode(uc)|
    ensures mem[..] == old(mem[..dst]) + Encode(uc) + old(mem[dst + n..])
  {
    hide Tail, Lead2, Lead3, Lead4, Encode;
    EncodeShape(uc);
    ghost var before := mem[..];
    if uc >= 0x8000_0000 {
      n := 0;
    } else if uc < 0x80 {
      mem[dst] := uc as Byte;
      n := 1;
    } else if uc < 0x800 {
      mem[dst], mem[dst + 1] := Lead2(uc), Tail(uc);
      n := 2;
    } else if uc < 0x1_0000 {
      mem[dst], mem[dst + 1], mem[dst + 2] := Lead3(uc), Tail(uc >> 6), Tail(uc);
      n := 3;
    } else if uc < 0x11_0000 {
      mem[dst], mem[dst + 1], mem[dst + 2], mem[dst + 3] := Lead4(uc), Tail(uc >> 12), Tail(uc >> 6), Tail(uc);
      n := 4;
    } else {
      n := 0;
    }
    Spliced(before, mem[..], dst, Encode(uc));
  }

  lemma LoadAgrees(m: seq<Byte>, n: seq<Byte>, index: nat, bigEndian: bool)
    requires 4 * index + 4 <= |m| && |m| == |n| && m[4 * index..] == n[4 * index..]
    ensures Load(m, index, bigEndian) == Load(n, index, bigEndian)
  {
    hide Combine;
    var i := 4 * index;
    assert forall k :: 0 <= k < 4 ==> m[i + k] == m[i..][k] == n[i..][k] == n[i + k];
    assert m[i] == m[i + 0] == n[i + 0] == n[i];
  }

  lemma EncodeNone(mem: seq<Byte>, bigEndian: bool, charbound: bool)
    ensures EncodeAll(Codes(mem, 0, bigEndian), charbound) == []
  {
  }

  lemma EncodeNext(mem: seq<Byte>, index: nat, bigEndian: bool, charbound: bool)
    requires 4 * index + 4 <= |mem|
    ensures EncodeAll(Codes(mem, index + 1, bigEndian), charbound) ==
            EncodeAll(Codes(mem, index, bigEndian), charbound) + Written(Load(mem, index, bigEndian), charbound)
  {
    hide Written, Load;
    var cs := Codes(mem, index, bigEndian);
    assert (cs + [Load(mem, index, bigEndian)])[..index] == cs;
  }

  /** `charbound_encode_char` */
  method CharboundEncodeChar(uc: Code, mem: array<Byte>, dst: nat) returns (n: nat)
    requires dst + |Written(uc, true)| <= mem.Length
    modifies mem
    ensures n == |Written(uc, true)|
    ensures mem[..] == old(mem[..dst]) + Written(uc, true) + old(mem[dst + n..])
  {
    hide Encode;
    if uc == MARK {
      mem[dst] := 0xff;
      return 1;
    }
    n := EncodeChar(uc, mem, dst);
  }

  /** `utf8proc_reencode` without a normalising option: the bytes are written over the array the code
      points are still being read from. */
  method Reencode(mem: array<Byte>, length: nat, charbound: bool, bigEndian: bool) returns (wpos: nat)
    requires 4 * length + 1 <= mem.Length
    modifies mem
    ensures wpos <= 4 * length
    ensures mem[..wpos] == EncodeAll(Codes(old(mem[..]), length, bigEndian), charbound)
    ensures mem[wpos] == 0
    ensures mem[4 * length + 1..] == old(mem[4 * length + 1..])
  {
    hide Written, Load, EncodeAll, Codes;
    ghost var was := mem[..];
    wpos := 0;
    var rpos := 0;
    EncodeNone(was, bigEndian, charbound);
    while rpos < length
      invariant rpos <= length && wpos <= 4 * rpos
      invariant mem[..wpos] == EncodeAll(Codes(was, rpos, bigEndian), charbound)
      invariant mem[4 * rpos..] == was[4 * rpos..]
    {
      var uc := Load(mem[..], rpos, bigEndian);
      LoadAgrees(mem[..], was, rpos, bigEndian);
      ghost var before := mem[..];
      var n := WriteChar(uc, charbound, mem, wpos);
      EncodeNext(was, rpos, bigEndian, charbound);
      assert mem[..wpos + n] == before[..wpos] + Written(uc, charbound);
      assert mem[4 * (rpos + 1)..] == before[4 * (rpos + 1)..] == was[4 * (rpos + 1)..] by {
        assert before[4 * rpos..][4..] == was[4 * rpos..][4..];
      }
      wpos := wpos + n;
      rpos := rpos + 1;
    }
    ghost var before := mem[..];
    mem[wpos] := 0;
    assert mem[..wpos] == before[..wpos];
    assert mem[4 * length + 1..] == before[4 * length..][1..];
  }

  /** The body of either loop. */
  method WriteChar(uc: Code, charbound: bool, mem: array<Byte>, dst: nat) returns (n: nat)
    requires dst + |Written(uc, charbound)| <= mem.Length
    modifies mem
    ensures n == |Written(uc, charbound)|
    ensures mem[..] == old(mem[..dst]) + Written(uc, charbound) + old(mem[dst + n..])
  {
    if charbound {
      n := CharboundEncodeChar(uc, mem, dst);
    } else {
      n := EncodeChar(uc, mem, dst);
    }
  }

  /** Writing out decoded text in place restores the bytes it was decoded from. */
  lemma {:induction false} DecodeReencodeRoundTrip(s: seq<Byte>, mem: seq<Byte>, length: nat, bigEndian: bool)
    requires 4 * length <= |mem| && DecodeFrom(s, 0, []) == Text(Codes(mem, length, bigEndian))
    ensures EncodeAll(Codes(mem, length, bigEndian)) == s
  {
    DecodeThenEncode(s, 0, []);
  }
}
