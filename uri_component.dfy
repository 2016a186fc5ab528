/**
 * ECMAScript `encodeURIComponent` and its inverse `decodeURIComponent`.
 *
 * Every character outside the unreserved set of section 2.3 of RFC 2396
 * (letters, digits and `- _ . ! ~ * ' ( )`) is written as the `%XX` escapes
 * (upper-case hexadecimal, section 2.1 of RFC 3986) of its UTF-8 bytes
 * (section 3 of RFC 3629). Strings are sequences of Unicode scalar values,
 * so the URIError that lone surrogates raise cannot arise here.
 */
module UriComponent {
  import opened Wrappers

  type Byte = b: int | 0 <= b < 256

  /** Characters `encodeURIComponent` copies unchanged. */
  predicate IsUnescaped(c: char) {
    || 'A' <= c <= 'Z' || 'a' <= c <= 'z' || '0' <= c <= '9'
    || c == '-' || c == '_' || c == '.' || c == '!' || c == '~'
    || c == '*' || c == '\'' || c == '(' || c == ')'
  }

  predicate IsUpperHexDigit(c: char) {
    '0' <= c <= '9' || 'A' <= c <= 'F'
  }

  /** Characters that can appear in the output of `encodeURIComponent`. */
  predicate IsEncodedChar(c: char) {
    IsUnescaped(c) || c == '%' || IsUpperHexDigit(c)
  }

  function HexDigit(d: int): (c: char)
    requires 0 <= d < 16
    ensures IsUpperHexDigit(c)
  {
    if d < 10 then ('0' as int + d) as char else ('A' as int + d - 10) as char
  }

  /** The value of a hexadecimal digit of either case, as `decodeURIComponent` reads it. */
  function HexValue(c: char): Option<int> {
    if '0' <= c <= '9' then Some(c as int - '0' as int)
    else if 'A' <= c <= 'F' then Some(c as int - 'A' as int + 10)
    else if 'a' <= c <= 'f' then Some(c as int - 'a' as int + 10)
    else None
  }

  lemma HexRoundTrip(d: int)
    requires 0 <= d < 16
    ensures HexValue(HexDigit(d)) == Some(d)
  {
  }

  /** The UTF-8 encoding of one scalar value: one to four bytes. */
  function Utf8(c: char): (bs: seq<Byte>)
    ensures 1 <= |bs| <= 4
  {
    var v := c as int;
    if v < 0x80 then [v]
    else if v < 0x800 then [0xC0 + v / 64, 0x80 + v % 64]
    else if v < 0x10000 then [0xE0 + v / 4096, 0x80 + (v / 64) % 64, 0x80 + v % 64]
    else [0xF0 + v / 262144, 0x80 + (v / 4096) % 64, 0x80 + (v / 64) % 64, 0x80 + v % 64]
  }

  function PercentBytes(bs: seq<Byte>): (r: string)
    ensures |r| == 3 * |bs|
    ensures forall k :: 0 <= k < |r| ==> r[k] == '%' || IsUpperHexDigit(r[k])
  {
    if bs == [] then [] else ['%', HexDigit(bs[0] / 16), HexDigit(bs[0] % 16)] + PercentBytes(bs[1..])
  }

  function EncodeChar(c: char): string {
    if IsUnescaped(c) then [c] else PercentBytes(Utf8(c))
  }

  /** `encodeURIComponent(s)`. */
  function EncodeURIComponent(s: string): (r: string)
    ensures forall k :: 0 <= k < |r| ==> IsEncodedChar(r[k])
    ensures |s| <= |r|
  {
    if s == [] then [] else EncodeChar(s[0]) + EncodeURIComponent(s[1..])
  }

  /** The byte written as `%XX` at position `i` of `t`, if there is one. */
  function EscapedByteAt(t: string, i: nat): (r: Option<Byte>)
    ensures r.Some? ==> i + 3 <= |t|
  {
    if i + 3 <= |t| && t[i] == '%' && HexValue(t[i + 1]).Some? && HexValue(t[i + 2]).Some?
    then Some(HexValue(t[i + 1]).value * 16 + HexValue(t[i + 2]).value)
    else None
  }

  predicate IsContinuation(b: Byte) { 0x80 <= b < 0xC0 }

  /** A scalar value: not a surrogate, at most U+10FFFF. */
  predicate IsScalar(v: int) { 0 <= v < 0xD800 || 0xE000 <= v < 0x110000 }

  /** One escape sequence at the start of `t` (which begins with `%`): the
      character its one to four `%XX` bytes encode and how many characters
      of `t` they take; `None` where `decodeURIComponent` throws URIError
      (a bad escape, a byte that cannot start or continue a sequence, an
      overlong form, a surrogate, a value above U+10FFFF). */
  function DecodeEscape(t: string): (r: Option<(char, nat)>)
    ensures r.Some? ==> 3 <= r.value.1 <= |t|
  {
    match EscapedByteAt(t, 0)
    case None => None
    case Some(b0) =>
      if b0 < 0x80 then Some((b0 as char, 3))
      else if 0xC0 <= b0 < 0xE0 then
        match EscapedByteAt(t, 3)
        case Some(b1) =>
          var v := (b0 as int - 0xC0) * 64 + (b1 as int - 0x80);
          if IsContinuation(b1) && 0x80 <= v then Some((v as char, 6)) else None
        case None => None
      else if 0xE0 <= b0 < 0xF0 then
        match (EscapedByteAt(t, 3), EscapedByteAt(t, 6))
        case (Some(b1), Some(b2)) =>
          var v := (b0 as int - 0xE0) * 4096 + (b1 as int - 0x80) * 64 + (b2 as int - 0x80);
          if IsContinuation(b1) && IsContinuation(b2) && 0x800 <= v && IsScalar(v)
          then Some((v as char, 9)) else None
        case _ => None
      else if 0xF0 <= b0 < 0xF8 then
        match (EscapedByteAt(t, 3), EscapedByteAt(t, 6), EscapedByteAt(t, 9))
        case (Some(b1), Some(b2), Some(b3)) =>
          var v := (b0 as int - 0xF0) * 262144 + (b1 as int - 0x80) * 4096
                   + (b2 as int - 0x80) * 64 + (b3 as int - 0x80);
          if IsContinuation(b1) && IsContinuation(b2) && IsContinuation(b3) && 0x10000 <= v && IsScalar(v)
          then Some((v as char, 12)) else None
        case _ => None
      else None
  }

  /** `decodeURIComponent(t)`; `None` where it throws URIError. */
  function DecodeURIComponent(t: string): Option<string>
    decreases |t|
  {
    if t == [] then Some([])
    else if t[0] != '%' then
      match DecodeURIComponent(t[1..])
      case Some(rest) => Some([t[0]] + rest)
      case None => None
    else
      match DecodeEscape(t)
      case None => None
      case Some((c, used)) =>
        match DecodeURIComponent(t[used..])
        case Some(rest) => Some([c] + rest)
        case None => None
  }

  lemma PercentByteAt(bs: seq<Byte>, k: nat, rest: string)
    requires k < |bs|
    ensures EscapedByteAt(PercentBytes(bs) + rest, 3 * k) == Some(bs[k])
    decreases k
  {
    var t := PercentBytes(bs) + rest;
    if k == 0 {
      HexRoundTrip(bs[0] / 16);
      HexRoundTrip(bs[0] % 16);
    } else {
      PercentByteAt(bs[1..], k - 1, rest);
      assert t[3..] == PercentBytes(bs[1..]) + rest;
    }
  }

  lemma ThreeByteArithmetic(v: int)
    requires 0x800 <= v < 0x10000
    ensures (v / 4096) * 4096 + ((v / 64) % 64) * 64 + v % 64 == v
  {
    var q := v / 64;
    assert v == q * 64 + v % 64;
    assert q == (q / 64) * 64 + q % 64;
    assert q / 64 == v / 4096;
  }

  lemma FourByteArithmetic(v: int)
    requires 0x10000 <= v < 0x110000
    ensures (v / 262144) * 262144 + ((v / 4096) % 64) * 4096 + ((v / 64) % 64) * 64 + v % 64 == v
  {
    var q := v / 64;
    var p := q / 64;
    assert v == q * 64 + v % 64;
    assert q == p * 64 + q % 64;
    assert p == v / 4096;
    assert p == (p / 64) * 64 + p % 64;
    assert p / 64 == v / 262144;
  }

  lemma DecodeTwoBytes(c: char, rest: string)
    requires 0x80 <= c as int < 0x800
    ensures DecodeEscape(PercentBytes(Utf8(c)) + rest) == Some((c, 6))
  {
    var v, bs := c as int, Utf8(c);
    PercentByteAt(bs, 0, rest);
    PercentByteAt(bs, 1, rest);
    assert (v / 64) * 64 + v % 64 == v;
  }

  lemma ThreeEscapes(t: string, b0: Byte, b1: Byte, b2: Byte, c: char)
    requires EscapedByteAt(t, 0) == Some(b0) && EscapedByteAt(t, 3) == Some(b1) && EscapedByteAt(t, 6) == Some(b2)
    requires 0xE0 <= b0 < 0xF0 && IsContinuation(b1) && IsContinuation(b2)
    requires (b0 as int - 0xE0) * 4096 + (b1 as int - 0x80) * 64 + (b2 as int - 0x80) == c as int
    requires 0x800 <= c as int
    ensures DecodeEscape(t) == Some((c, 9))
  {
  }

  lemma DecodeThreeBytes(c: char, rest: string)
    requires 0x800 <= c as int < 0x10000
    ensures DecodeEscape(PercentBytes(Utf8(c)) + rest) == Some((c, 9))
  {
    var v, bs := c as int, Utf8(c);
    PercentByteAt(bs, 0, rest);
    PercentByteAt(bs, 1, rest);
    PercentByteAt(bs, 2, rest);
    ThreeByteArithmetic(v);
    ThreeEscapes(PercentBytes(bs) + rest, bs[0], bs[1], bs[2], c);
  }

  lemma FourEscapes(t: string, b0: Byte, b1: Byte, b2: Byte, b3: Byte, c: char)
    requires EscapedByteAt(t, 0) == Some(b0) && EscapedByteAt(t, 3) == Some(b1)
    requires EscapedByteAt(t, 6) == Some(b2) && EscapedByteAt(t, 9) == Some(b3)
    requires 0xF0 <= b0 < 0xF8 && IsContinuation(b1) && IsContinuation(b2) && IsContinuation(b3)
    requires (b0 as int - 0xF0) * 262144 + (b1 as int - 0x80) * 4096
             + (b2 as int - 0x80) * 64 + (b3 as int - 0x80) == c as int
    requires 0x10000 <= c as int
    ensures DecodeEscape(t) == Some((c, 12))
  {
  }

  lemma DecodeFourBytes(c: char, rest: string)
    requires 0x10000 <= c as int
    ensures DecodeEscape(PercentBytes(Utf8(c)) + rest) == Some((c, 12))
  {
    var v, bs := c as int, Utf8(c);
    PercentByteAt(bs, 0, rest);
    PercentByteAt(bs, 1, rest);
    PercentByteAt(bs, 2, rest);
    PercentByteAt(bs, 3, rest);
    FourByteArithmetic(v);
    FourEscapes(PercentBytes(bs) + rest, bs[0], bs[1], bs[2], bs[3], c);
  }

  /** The escapes of a character decode to that character. */
  lemma DecodeEncodedChar(c: char, rest: string)
    requires !IsUnescaped(c)
    ensures DecodeEscape(PercentBytes(Utf8(c)) + rest) == Some((c, 3 * |Utf8(c)|))
  {
    var v := c as int;
    if v < 0x80 {
      PercentByteAt(Utf8(c), 0, rest);
    } else if v < 0x800 {
      DecodeTwoBytes(c, rest);
    } else if v < 0x10000 {
      DecodeThreeBytes(c, rest);
    } else {
      DecodeFourBytes(c, rest);
    }
  }

  /** `decodeURIComponent(encodeURIComponent(s)) == s`. */
  lemma {:induction false} DecodeEncode(s: string)
    ensures DecodeURIComponent(EncodeURIComponent(s)) == Some(s)
  {
    if s != [] {
      var c := s[0];
      var tail := EncodeURIComponent(s[1..]);
      DecodeEncode(s[1..]);
      var t := EncodeChar(c) + tail;
      assert EncodeURIComponent(s) == t;
      if IsUnescaped(c) {
        assert t[1..] == tail;
      } else {
        DecodeEncodedChar(c, tail);
        assert t[3 * |Utf8(c)|..] == tail;
      }
      assert s == [c] + s[1..];
    }
  }

  /** Distinct inputs encode to distinct outputs. */
  lemma EncodeInjective(s: string, s': string)
    requires EncodeURIComponent(s) == EncodeURIComponent(s')
    ensures s == s'
  {
    DecodeEncode(s);
    DecodeEncode(s');
  }

  /** Text made only of unreserved characters is copied unchanged. */
  lemma {:induction false} EncodeUnescaped(s: string)
    requires forall k :: 0 <= k < |s| ==> IsUnescaped(s[k])
    ensures EncodeURIComponent(s) == s
  {
    if s != [] {
      EncodeUnescaped(s[1..]);
      assert s == [s[0]] + s[1..];
    }
  }
}
