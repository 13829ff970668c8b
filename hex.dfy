/**
 * The diagnostic name renderer `Hexlify`: "0x" followed by the lowercase
 * hexadecimal of the string's ASCII encoding, with its inverse for reading
 * a rendered name back.
 */
module Hex {
  import opened Results

  type Byte = b: int | 0 <= b < 0x100

  /** The byte the ASCII encoder substitutes for a character it cannot encode ('?'). */
  const QuestionMark: Byte := 0x3F

  predicate IsAscii(s: string) {
    forall i :: 0 <= i < |s| ==> s[i] as int < 0x80
  }

  /** Encoding.ASCII for one character: ASCII characters map to their code, all others to '?'. */
  function AsciiByte(c: char): Byte {
    if c as int < 0x80 then c as int else QuestionMark
  }

  /** Encoding.ASCII.GetBytes: exactly one 7-bit byte per character. */
  function AsciiBytes(s: string): (bytes: seq<Byte>)
    ensures |bytes| == |s|
    ensures forall i :: 0 <= i < |s| ==> bytes[i] < 0x80
    ensures forall i :: 0 <= i < |s| && s[i] as int < 0x80 ==> bytes[i] == s[i] as int
    ensures forall i :: 0 <= i < |s| && s[i] as int >= 0x80 ==> bytes[i] == QuestionMark
  {
    seq(|s|, i requires 0 <= i < |s| => AsciiByte(s[i]))
  }

  /** Reads ASCII bytes back as characters. */
  function AsciiString(bytes: seq<Byte>): string {
    seq(|bytes|, i requires 0 <= i < |bytes| => bytes[i] as char)
  }

  /** On ASCII strings the encoding loses nothing. */
  lemma AsciiRoundTrip(s: string)
    requires IsAscii(s)
    ensures AsciiString(AsciiBytes(s)) == s
  {
  }

  /** A lowercase hexadecimal digit, the only characters after the "0x" prefix. */
  predicate IsLowerHexDigit(c: char) {
    '0' <= c <= '9' || 'a' <= c <= 'f'
  }

  /** The lowercase hexadecimal digit of a value below 16. */
  function HexDigit(d: nat): (c: char)
    requires d < 16
    ensures IsLowerHexDigit(c)
  {
    if d < 10 then ('0' as int + d) as char else ('a' as int + d - 10) as char
  }

  /** The value of a lowercase hexadecimal digit, or None for any other character. */
  function HexDigitValue(c: char): (v: Option<nat>)
    ensures v.Some? <==> IsLowerHexDigit(c)
    ensures v.Some? ==> v.value < 16 && HexDigit(v.value) == c
  {
    if '0' <= c <= '9' then Some(c as int - '0' as int)
    else if 'a' <= c <= 'f' then Some(c as int - 'a' as int + 10)
    else None
  }

  /** Convert.ToHexString followed by ToLower: two lowercase digits per byte, high nibble first. */
  function HexEncode(bytes: seq<Byte>): (r: string)
    ensures |r| == 2 * |bytes|
    ensures forall i :: 0 <= i < |r| ==> IsLowerHexDigit(r[i])
  {
    if bytes == [] then ""
    else [HexDigit(bytes[0] / 16), HexDigit(bytes[0] % 16)] + HexEncode(bytes[1..])
  }

  /** Byte i of the input is rendered at positions 2i and 2i + 1. */
  lemma {:induction false} HexEncodeAt(bytes: seq<Byte>, i: nat)
    requires i < |bytes|
    ensures HexEncode(bytes)[2 * i] == HexDigit(bytes[i] / 16)
    ensures HexEncode(bytes)[2 * i + 1] == HexDigit(bytes[i] % 16)
  {
    if i > 0 {
      HexEncodeAt(bytes[1..], i - 1);
    }
  }

  /** Parses pairs of lowercase hexadecimal digits; None on an odd length or any other character. */
  function HexDecode(s: string): Option<seq<Byte>>
    decreases |s|
  {
    if s == [] then Some([])
    else if |s| == 1 then None
    else
      match (HexDigitValue(s[0]), HexDigitValue(s[1]), HexDecode(s[2..]))
      case (Some(hi), Some(lo), Some(rest)) => Some([hi * 16 + lo] + rest)
      case _ => None
  }

  /** Decoding undoes encoding for every byte sequence. */
  lemma {:induction false} HexRoundTrip(bytes: seq<Byte>)
    ensures HexDecode(HexEncode(bytes)) == Some(bytes)
  {
    if bytes != [] {
      var r := HexEncode(bytes);
      var hi, lo := bytes[0] / 16, bytes[0] % 16;
      assert r == [HexDigit(hi), HexDigit(lo)] + HexEncode(bytes[1..]);
      assert r[2..] == HexEncode(bytes[1..]);
      HexRoundTrip(bytes[1..]);
      assert HexDigitValue(r[0]) == Some(hi);
      assert HexDigitValue(r[1]) == Some(lo);
      assert HexDecode(r) == Some([hi * 16 + lo] + bytes[1..]);
      assert bytes == [bytes[0]] + bytes[1..];
    }
  }

  /** `Hexlify`: the prefix "0x", then two lowercase hexadecimal digits per character. */
  function Hexlify(s: string): (r: string)
    ensures |r| == 2 + 2 * |s|
    ensures r[..2] == "0x"
    ensures forall i :: 2 <= i < |r| ==> IsLowerHexDigit(r[i])
  {
    "0x" + HexEncode(AsciiBytes(s))
  }

  /** Reads a rendered name back into the bytes it encodes. */
  function Unhexlify(r: string): Option<seq<Byte>> {
    if |r| >= 2 && r[..2] == "0x" then HexDecode(r[2..]) else None
  }

  /** Every rendering reads back as the ASCII encoding of the original string. */
  lemma HexlifyRoundTrip(s: string)
    ensures Unhexlify(Hexlify(s)) == Some(AsciiBytes(s))
  {
    assert Hexlify(s)[2..] == HexEncode(AsciiBytes(s));
    HexRoundTrip(AsciiBytes(s));
  }

  /** Distinct ASCII names get distinct renderings. */
  lemma HexlifyInjectiveOnAscii(s: string, t: string)
    requires IsAscii(s) && IsAscii(t)
    requires Hexlify(s) == Hexlify(t)
    ensures s == t
  {
    HexlifyRoundTrip(s);
    HexlifyRoundTrip(t);
    AsciiRoundTrip(s);
    AsciiRoundTrip(t);
  }

  /** A character outside ASCII renders as "3f", the code of '?'. */
  lemma HexlifyNonAscii(s: string, i: nat)
    requires i < |s| && s[i] as int >= 0x80
    ensures Hexlify(s)[2 + 2 * i] == '3' && Hexlify(s)[3 + 2 * i] == 'f'
  {
    HexEncodeAt(AsciiBytes(s), i);
  }
}
