/** Percent-encoding of header parameter values. JavaScript's `encodeURIComponent`
    writes every character outside a small unreserved set as the UTF-8 octets of the
    character, each as `%` and two upper-case hex digits. Section 3.2.1 of RFC 8187
    defines the `value-chars` of an ext-value, which allow fewer characters unescaped. */
module PercentEncoding {
  import opened Wrappers

  type Byte = b: nat | b < 256

  /** Which characters an encoder leaves as they are. */
  datatype Unreserved =
    | UriComponent  // what encodeURIComponent leaves: A-Z a-z 0-9 - _ . ! ~ * ' ( )
    | ExtValue      // the same minus * ' ( ), so that only RFC 8187 attr-chars remain

  predicate IsAsciiAlphaNum(c: char) {
    'A' <= c <= 'Z' || 'a' <= c <= 'z' || '0' <= c <= '9'
  }

  /** The marks encodeURIComponent leaves that RFC 8187 does not allow unescaped. */
  predicate KeptOnlyByUriComponent(c: char) {
    c == '*' || c == '\'' || c == '(' || c == ')'
  }

  predicate Keeps(u: Unreserved, c: char) {
    || IsAsciiAlphaNum(c)
    || c == '-' || c == '_' || c == '.' || c == '!' || c == '~'
    || (u == UriComponent && KeptOnlyByUriComponent(c))
  }

  /** attr-char of section 3.2.1 of RFC 8187. */
  predicate IsAttrChar(c: char) {
    || IsAsciiAlphaNum(c)
    || c == '!' || c == '#' || c == '$' || c == '&' || c == '+' || c == '-' || c == '.'
    || c == '^' || c == '_' || c == '`' || c == '|' || c == '~'
  }

  /** A printable ASCII character other than space. */
  predicate IsVisibleAscii(c: char) {
    '!' <= c <= '~'
  }

  predicate IsHexDigit(c: char) {
    '0' <= c <= '9' || 'A' <= c <= 'F' || 'a' <= c <= 'f'
  }

  function HexValue(c: char): (v: nat)
    requires IsHexDigit(c)
    ensures v < 16
  {
    if '0' <= c <= '9' then c as int - '0' as int
    else if 'A' <= c <= 'F' then c as int - 'A' as int + 10
    else c as int - 'a' as int + 10
  }

  /** Upper-case hex digit, as encodeURIComponent writes them. */
  function HexDigit(v: nat): (c: char)
    requires v < 16
    ensures IsHexDigit(c) && HexValue(c) == v
    ensures !('a' <= c <= 'f')
  {
    if v < 10 then ('0' as int + v) as char else ('A' as int + v - 10) as char
  }

  /** The UTF-8 encoding of one Unicode scalar value. */
  function Utf8(c: char): (bs: seq<Byte>)
    ensures 1 <= |bs| <= 4
    ensures (|bs| == 1) == (c as int < 0x80)
  {
    var n := c as int;
    if n < 0x80 then [n]
    else if n < 0x800 then [0xC0 + n / 0x40, 0x80 + n % 0x40]
    else if n < 0x1_0000 then [0xE0 + n / 0x1000, 0x80 + n / 0x40 % 0x40, 0x80 + n % 0x40]
    else [0xF0 + n / 0x4_0000, 0x80 + n / 0x1000 % 0x40, 0x80 + n / 0x40 % 0x40, 0x80 + n % 0x40]
  }

  function Utf8String(s: string): seq<Byte> {
    if s == [] then [] else Utf8(s[0]) + Utf8String(s[1..])
  }

  /** `%XY` for one octet. */
  function PercentTriple(b: Byte): (t: string)
    ensures |t| == 3 && t[0] == '%' && IsHexDigit(t[1]) && IsHexDigit(t[2])
    ensures 16 * HexValue(t[1]) + HexValue(t[2]) == b
  {
    ['%', HexDigit(b / 16), HexDigit(b % 16)]
  }

  function PercentTriples(bs: seq<Byte>): (t: string)
    ensures |t| == 3 * |bs|
    ensures forall i :: 0 <= i < |t| ==> IsVisibleAscii(t[i])
  {
    if bs == [] then [] else PercentTriple(bs[0]) + PercentTriples(bs[1..])
  }

  function EncodeChar(u: Unreserved, c: char): string {
    if Keeps(u, c) then [c] else PercentTriples(Utf8(c))
  }

  /** Percent-encoding of `s`; `Encode(UriComponent, s)` is encodeURIComponent(s).
      Whatever `s` holds, the result is visible ASCII and never shorter than `s`. */
  function Encode(u: Unreserved, s: string): (t: string)
    ensures |t| >= |s|
    ensures forall i :: 0 <= i < |t| ==> IsVisibleAscii(t[i])
  {
    if s == [] then [] else EncodeChar(u, s[0]) + Encode(u, s[1..])
  }

  /** The octets a percent-encoded ASCII text stands for; None if it is malformed. */
  function PercentDecode(t: string): (r: Option<seq<Byte>>)
  {
    if t == [] then Some([])
    else if t[0] == '%' then
      if |t| >= 3 && IsHexDigit(t[1]) && IsHexDigit(t[2]) then
        match PercentDecode(t[3..])
        case Some(rest) => Some([16 * HexValue(t[1]) + HexValue(t[2])] + rest)
        case None => None
      else None
    else if t[0] as int < 0x80 then
      match PercentDecode(t[1..])
      case Some(rest) => Some([t[0] as int] + rest)
      case None => None
    else None
  }

  /** value-chars of section 3.2.1 of RFC 8187: attr-chars and `%` HEXDIG HEXDIG. */
  predicate IsValueChars(t: string) {
    if t == [] then true
    else if t[0] == '%' then |t| >= 3 && IsHexDigit(t[1]) && IsHexDigit(t[2]) && IsValueChars(t[3..])
    else IsAttrChar(t[0]) && IsValueChars(t[1..])
  }

  lemma TripleThen(b: Byte, rest: string)
    ensures var t := PercentTriple(b) + rest;
      && |t| >= 3 && t[0] == '%' && IsHexDigit(t[1]) && IsHexDigit(t[2])
      && 16 * HexValue(t[1]) + HexValue(t[2]) == b && t[3..] == rest
  {
    var t := PercentTriple(b) + rest;
    assert t[..3] == PercentTriple(b);
  }

  lemma ConsAppend<T>(s: seq<T>, t: seq<T>)
    requires s != []
    ensures [s[0]] + (s[1..] + t) == s + t
  {
    assert s == [s[0]] + s[1..];
  }

  lemma DecodeTriple(b: Byte, rest: string, tail: seq<Byte>)
    requires PercentDecode(rest) == Some(tail)
    ensures PercentDecode(PercentTriple(b) + rest) == Some([b] + tail)
  {
    TripleThen(b, rest);
  }

  /** The triples of `bs`, then octets `rest` decodes to: one triple at a time. */
  lemma DecodeTriplesStep(bs: seq<Byte>, rest: string, tail: seq<Byte>)
    requires bs != []
    requires PercentDecode(PercentTriples(bs[1..]) + rest) == Some(bs[1..] + tail)
    ensures PercentDecode(PercentTriples(bs) + rest) == Some(bs + tail)
  {
    var more := PercentTriples(bs[1..]) + rest;
    assert PercentTriples(bs) + rest == PercentTriple(bs[0]) + more;
    DecodeTriple(bs[0], more, bs[1..] + tail);
    ConsAppend(bs, tail);
  }

  lemma {:induction false} DecodeTriples(bs: seq<Byte>, rest: string, tail: seq<Byte>)
    requires PercentDecode(rest) == Some(tail)
    ensures PercentDecode(PercentTriples(bs) + rest) == Some(bs + tail)
  {
    if bs == [] {
      assert PercentTriples(bs) + rest == rest && bs + tail == tail;
    } else {
      DecodeTriples(bs[1..], rest, tail);
      DecodeTriplesStep(bs, rest, tail);
    }
  }

  lemma ValueCharsTriple(b: Byte, rest: string)
    requires IsValueChars(rest)
    ensures IsValueChars(PercentTriple(b) + rest)
  {
    TripleThen(b, rest);
  }

  lemma ValueCharsTriplesStep(bs: seq<Byte>, rest: string)
    requires bs != []
    requires IsValueChars(PercentTriples(bs[1..]) + rest)
    ensures IsValueChars(PercentTriples(bs) + rest)
  {
    var more := PercentTriples(bs[1..]) + rest;
    assert PercentTriples(bs) + rest == PercentTriple(bs[0]) + more;
    ValueCharsTriple(bs[0], more);
  }

  lemma {:induction false} ValueCharsTriples(bs: seq<Byte>, rest: string)
    requires IsValueChars(rest)
    ensures IsValueChars(PercentTriples(bs) + rest)
  {
    if bs == [] {
      assert PercentTriples(bs) + rest == rest;
    } else {
      ValueCharsTriples(bs[1..], rest);
      ValueCharsTriplesStep(bs, rest);
    }
  }

  lemma KeptIsAscii(u: Unreserved, c: char)
    requires Keeps(u, c)
    ensures c as int < 0x80 && c != '%' && Utf8(c) == [c as int]
  {
  }

  /** Decoding an encoded text gives back the UTF-8 octets of the original, for
      either unreserved set: the encoding loses nothing. */
  lemma {:induction false} DecodeEncode(u: Unreserved, s: string)
    ensures PercentDecode(Encode(u, s)) == Some(Utf8String(s))
  {
    if s != [] {
      var c := s[0];
      DecodeEncode(u, s[1..]);
      var rest := Encode(u, s[1..]);
      if Keeps(u, c) {
        KeptIsAscii(u, c);
        var t := [c] + rest;
        assert t[1..] == rest;
      } else {
        DecodeTriples(Utf8(c), rest, Utf8String(s[1..]));
      }
    }
  }

  /** Encoding with the ExtValue set always yields RFC 8187 value-chars. */
  lemma {:induction false} ExtValueEncodingIsValueChars(s: string)
    ensures IsValueChars(Encode(ExtValue, s))
  {
    if s != [] {
      var c := s[0];
      var rest := Encode(ExtValue, s[1..]);
      ExtValueEncodingIsValueChars(s[1..]);
      if Keeps(ExtValue, c) {
        var t := [c] + rest;
        assert t[1..] == rest;
      } else {
        ValueCharsTriples(Utf8(c), rest);
      }
    }
  }

  /** The two encoders differ only on * ' ( ). */
  lemma {:induction false} EncodersAgree(s: string)
    requires forall i :: 0 <= i < |s| ==> !KeptOnlyByUriComponent(s[i])
    ensures Encode(ExtValue, s) == Encode(UriComponent, s)
  {
    if s != [] {
      EncodersAgree(s[1..]);
    }
  }

  /** Text made only of characters the encoder keeps comes out unchanged. */
  lemma {:induction false} EncodeKeepsUnreserved(u: Unreserved, s: string)
    requires forall i :: 0 <= i < |s| ==> Keeps(u, s[i])
    ensures Encode(u, s) == s
  {
    if s != [] {
      EncodeKeepsUnreserved(u, s[1..]);
      assert s == [s[0]] + s[1..];
    }
  }

  /** encodeURIComponent leaves an apostrophe as it is, which value-chars does not
      allow: "a'.zip" comes out unchanged and is not an RFC 8187 value. */
  lemma UriComponentNotValueChars()
    ensures Encode(UriComponent, "a'.zip") == "a'.zip"
    ensures !IsValueChars(Encode(UriComponent, "a'.zip"))
  {
    var s := "a'.zip";
    assert s == ['a', '\'', '.', 'z', 'i', 'p'];
    EncodeKeepsUnreserved(UriComponent, s);
    assert s[1..] == "'.zip";
    assert !IsAttrChar('\'');
  }
}
