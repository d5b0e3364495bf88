/** `char32_to_utf8` (textgame.cpp): the UTF-8 encoding of section 3 of
    RFC 3629 for one code point, with U+FFFD standing in for surrogates and
    for values above U+10FFFF. `Decode` is an independent reference decoder
    for one well-formed sequence, following the byte patterns and the
    overlong and surrogate exclusions of section 4 of RFC 3629. */
module Utf8 {
  import opened Wrappers

  type byte = bv8


  /** U+FFFD REPLACEMENT CHARACTER and its encoding EF BF BD. */
  const ReplacementChar: bv32 := 0xFFFD
  const Replacement: seq<byte> := [0xEF, 0xBF, 0xBD]

  /** A Unicode scalar value: a code point that is not a surrogate. */
  predicate IsScalar(c: bv32)
  {
    c <= 0x10FFFF && !(0xD800 <= c <= 0xDFFF)
  }

  /** A continuation byte, 10xxxxxx. */
  predicate IsContinuation(x: byte)
  {
    x & 0xC0 == 0x80
  }

  /** The number of bytes section 3 of RFC 3629 assigns to a scalar value. */
  function EncodedLength(c: bv32): nat
  {
    if c < 0x80 then 1 else if c < 0x800 then 2 else if c < 0x10000 then 3 else 4
  }

  /** `char32_to_utf8`: the bytes it writes into its buffer; their count is its result. */
  function Encode(c: bv32): (r: seq<byte>)
    ensures 1 <= |r| <= 4
    ensures !IsScalar(c) ==> r == Replacement
    ensures IsScalar(c) ==> |r| == EncodedLength(c)
    ensures forall i :: 1 <= i < |r| ==> IsContinuation(r[i])
  {
    if c > 0x10FFFF || (c >= 0xD800 && c <= 0xDFFF) then
      [0xEF, 0xBF, 0xBD]
    else if c < 0x80 then
      [c as byte]
    else if c < 0x800 then
      [(0xC0 | (c >> 6)) as byte,
       (0x80 | (c & 0x3F)) as byte]
    else if c < 0x10000 then
      [(0xE0 | (c >> 12)) as byte,
       (0x80 | ((c >> 6) & 0x3F)) as byte,
       (0x80 | (c & 0x3F)) as byte]
    else
      [(0xF0 | (c >> 18)) as byte,
       (0x80 | ((c >> 12) & 0x3F)) as byte,
       (0x80 | ((c >> 6) & 0x3F)) as byte,
       (0x80 | (c & 0x3F)) as byte]
  }

  /** The payload bits of a continuation byte. */
  function Low6(x: byte): bv32
  {
    (x & 0x3F) as bv32
  }

  /** The code point carried by a two-, three- or four-byte sequence. */
  function Value2(b0: byte, b1: byte): bv32
  {
    (((b0 & 0x1F) as bv32) << 6) | Low6(b1)
  }

  function Value3(b0: byte, b1: byte, b2: byte): bv32
  {
    (((b0 & 0x0F) as bv32) << 12) | (Low6(b1) << 6) | Low6(b2)
  }

  function Value4(b0: byte, b1: byte, b2: byte, b3: byte): bv32
  {
    (((b0 & 0x07) as bv32) << 18) | (Low6(b1) << 12) | (Low6(b2) << 6) | Low6(b3)
  }

  /** Decodes exactly one UTF-8 sequence; `None` for anything ill-formed,
      overlong, a surrogate or above U+10FFFF. */
  function Decode(s: seq<byte>): Option<bv32>
  {
    if |s| == 1 && s[0] < 0x80 then
      Some(s[0] as bv32)
    else if |s| == 2 && s[0] & 0xE0 == 0xC0 && IsContinuation(s[1]) then
      var c := Value2(s[0], s[1]);
      if c >= 0x80 then Some(c) else None
    else if |s| == 3 && s[0] & 0xF0 == 0xE0 && IsContinuation(s[1]) && IsContinuation(s[2]) then
      var c := Value3(s[0], s[1], s[2]);
      if c >= 0x800 && !(0xD800 <= c <= 0xDFFF) then Some(c) else None
    else if |s| == 4 && s[0] & 0xF8 == 0xF0 && IsContinuation(s[1]) && IsContinuation(s[2])
            && IsContinuation(s[3]) then
      var c := Value4(s[0], s[1], s[2], s[3]);
      if 0x10000 <= c <= 0x10FFFF then Some(c) else None
    else
      None
  }

  /** The bytes of `Encode` for a two-byte scalar, decoded bit by bit. */
  lemma TwoByteBits(c: bv32)
    requires 0x80 <= c < 0x800
    ensures var b0, b1 := (0xC0 | (c >> 6)) as byte, (0x80 | (c & 0x3F)) as byte;
      b0 & 0xE0 == 0xC0 && IsContinuation(b1)
      && Value2(b0, b1) == c
  {
  }

  lemma ThreeByteBits(c: bv32)
    requires 0x800 <= c < 0x10000
    ensures var b0, b1, b2 := (0xE0 | (c >> 12)) as byte, (0x80 | ((c >> 6) & 0x3F)) as byte,
                              (0x80 | (c & 0x3F)) as byte;
      b0 & 0xF0 == 0xE0 && IsContinuation(b1) && IsContinuation(b2)
      && Value3(b0, b1, b2) == c
  {
  }

  lemma FourByteBits(c: bv32)
    requires 0x10000 <= c <= 0x10FFFF
    ensures var b0, b1 := (0xF0 | (c >> 18)) as byte, (0x80 | ((c >> 12) & 0x3F)) as byte;
            var b2, b3 := (0x80 | ((c >> 6) & 0x3F)) as byte, (0x80 | (c & 0x3F)) as byte;
      b0 & 0xF8 == 0xF0 && IsContinuation(b1) && IsContinuation(b2) && IsContinuation(b3)
      && Value4(b0, b1, b2, b3) == c
  {
  }

  /** Decoding what was encoded gives back the code point, or U+FFFD for an
      input that is not a scalar value. */
  lemma DecodeEncode(c: bv32)
    ensures Decode(Encode(c)) == Some(if IsScalar(c) then c else ReplacementChar)
  {
    if !IsScalar(c) {
      assert Encode(c) == Replacement;
      assert Decode(Replacement) == Some(ReplacementChar);
    } else if c < 0x80 {
      assert Encode(c) == [c as byte];
    } else if c < 0x800 {
      var b0, b1 := (0xC0 | (c >> 6)) as byte, (0x80 | (c & 0x3F)) as byte;
      assert Encode(c) == [b0, b1];
      TwoByteBits(c);
      assert Decode([b0, b1]) == Some(c);
    } else if c < 0x10000 {
      var b0, b1, b2 := (0xE0 | (c >> 12)) as byte, (0x80 | ((c >> 6) & 0x3F)) as byte,
                        (0x80 | (c & 0x3F)) as byte;
      assert Encode(c) == [b0, b1, b2];
      ThreeByteBits(c);
      assert Decode([b0, b1, b2]) == Some(c);
    } else {
      var b0, b1 := (0xF0 | (c >> 18)) as byte, (0x80 | ((c >> 12) & 0x3F)) as byte;
      var b2, b3 := (0x80 | ((c >> 6) & 0x3F)) as byte, (0x80 | (c & 0x3F)) as byte;
      assert Encode(c) == [b0, b1, b2, b3];
      FourByteBits(c);
      assert Decode([b0, b1, b2, b3]) == Some(c);
    }
  }

  /** Every well-formed sequence is the encoding of what it decodes to, so
      `Encode` reaches every well-formed sequence exactly once. */
  lemma EncodeDecode(s: seq<byte>, c: bv32)
    requires Decode(s) == Some(c)
    ensures IsScalar(c) && Encode(c) == s
  {
    if |s| == 1 {
      assert Encode(c) == [s[0]];
    } else if |s| == 2 {
      assert c == Value2(s[0], s[1]) && 0x80 <= c;
      TwoByteCanonical(s[0], s[1]);
      assert s == [s[0], s[1]];
    } else if |s| == 3 {
      assert c == Value3(s[0], s[1], s[2]) && 0x800 <= c && !(0xD800 <= c <= 0xDFFF);
      ThreeByteCanonical(s[0], s[1], s[2]);
      assert s == [s[0], s[1], s[2]];
    } else {
      assert |s| == 4 && c == Value4(s[0], s[1], s[2], s[3]) && 0x10000 <= c <= 0x10FFFF;
      FourByteCanonical(s[0], s[1], s[2], s[3]);
      assert s == [s[0], s[1], s[2], s[3]];
    }
  }

  lemma TwoByteCanonical(b0: byte, b1: byte)
    requires b0 & 0xE0 == 0xC0 && IsContinuation(b1) && Value2(b0, b1) >= 0x80
    ensures IsScalar(Value2(b0, b1)) && Encode(Value2(b0, b1)) == [b0, b1]
  {
    var c := Value2(b0, b1);
    TwoByteFields(b0, b1);
    EncodeTwoBytes(c);
  }

  lemma TwoByteFields(b0: byte, b1: byte)
    requires b0 & 0xE0 == 0xC0 && IsContinuation(b1)
    ensures var c := Value2(b0, b1);
      c < 0x800 && (0xC0 | (c >> 6)) as byte == b0 && (0x80 | (c & 0x3F)) as byte == b1
  {
  }

  lemma EncodeTwoBytes(c: bv32)
    requires 0x80 <= c < 0x800
    ensures Encode(c) == [(0xC0 | (c >> 6)) as byte, (0x80 | (c & 0x3F)) as byte]
  {
  }

  lemma ThreeByteCanonical(b0: byte, b1: byte, b2: byte)
    requires b0 & 0xF0 == 0xE0 && IsContinuation(b1) && IsContinuation(b2)
    requires Value3(b0, b1, b2) >= 0x800 && !(0xD800 <= Value3(b0, b1, b2) <= 0xDFFF)
    ensures IsScalar(Value3(b0, b1, b2)) && Encode(Value3(b0, b1, b2)) == [b0, b1, b2]
  {
    ThreeByteFields(b0, b1, b2);
    EncodeThreeBytes(Value3(b0, b1, b2), b0, b1, b2);
  }

  lemma ThreeByteFields(b0: byte, b1: byte, b2: byte)
    requires b0 & 0xF0 == 0xE0 && IsContinuation(b1) && IsContinuation(b2)
    ensures var c := Value3(b0, b1, b2);
      c < 0x10000
      && (0xE0 | (c >> 12)) as byte == b0 && (0x80 | ((c >> 6) & 0x3F)) as byte == b1
      && (0x80 | (c & 0x3F)) as byte == b2
  {
  }

  lemma EncodeThreeBytes(c: bv32, b0: byte, b1: byte, b2: byte)
    requires 0x800 <= c < 0x10000 && !(0xD800 <= c <= 0xDFFF)
    requires (0xE0 | (c >> 12)) as byte == b0 && (0x80 | ((c >> 6) & 0x3F)) as byte == b1
    requires (0x80 | (c & 0x3F)) as byte == b2
    ensures IsScalar(c) && Encode(c) == [b0, b1, b2]
  {
  }

  lemma FourByteCanonical(b0: byte, b1: byte, b2: byte, b3: byte)
    requires b0 & 0xF8 == 0xF0 && IsContinuation(b1) && IsContinuation(b2) && IsContinuation(b3)
    requires 0x10000 <= Value4(b0, b1, b2, b3) <= 0x10FFFF
    ensures IsScalar(Value4(b0, b1, b2, b3)) && Encode(Value4(b0, b1, b2, b3)) == [b0, b1, b2, b3]
  {
    var c := Value4(b0, b1, b2, b3);
    EncodeFourBytes(c);
    FourByteFields(b0, b1, b2, b3);
  }

  lemma FourByteFields(b0: byte, b1: byte, b2: byte, b3: byte)
    requires b0 & 0xF8 == 0xF0 && IsContinuation(b1) && IsContinuation(b2) && IsContinuation(b3)
    ensures var c := Value4(b0, b1, b2, b3);
      (0xF0 | (c >> 18)) as byte == b0 && (0x80 | ((c >> 12) & 0x3F)) as byte == b1
      && (0x80 | ((c >> 6) & 0x3F)) as byte == b2 && (0x80 | (c & 0x3F)) as byte == b3
  {
  }

  lemma EncodeFourBytes(c: bv32)
    requires 0x10000 <= c <= 0x10FFFF
    ensures Encode(c) == [(0xF0 | (c >> 18)) as byte, (0x80 | ((c >> 12) & 0x3F)) as byte,
                          (0x80 | ((c >> 6) & 0x3F)) as byte, (0x80 | (c & 0x3F)) as byte]
  {
  }

  /** Distinct scalar values have distinct encodings. */
  lemma EncodeInjective(c: bv32, d: bv32)
    requires IsScalar(c) && IsScalar(d) && Encode(c) == Encode(d)
    ensures c == d
  {
    DecodeEncode(c);
    DecodeEncode(d);
  }

  /** The length of a sequence as announced by its lead byte: 0xxxxxxx,
      110xxxxx, 1110xxxx or 11110xxx; 0 for a byte that cannot lead. */
  function SequenceLength(lead: byte): nat
  {
    if lead & 0x80 == 0x00 then 1
    else if lead & 0xE0 == 0xC0 then 2
    else if lead & 0xF0 == 0xE0 then 3
    else if lead & 0xF8 == 0xF0 then 4
    else 0
  }

  /** The first byte of every encoding announces the encoding's length. */
  lemma LeadByteGivesLength(c: bv32)
    ensures SequenceLength(Encode(c)[0]) == |Encode(c)|
  {
    if IsScalar(c) && 0x80 <= c < 0x800 {
      TwoByteBits(c);
    } else if IsScalar(c) && 0x800 <= c < 0x10000 {
      ThreeByteBits(c);
    } else if IsScalar(c) && 0x10000 <= c {
      FourByteBits(c);
    }
  }
}
