/**
 * `encodeURIComponent` of the JavaScript standard library: every character
 * outside `A-Z a-z 0-9 - _ . ! ~ * ' ( )` is written as the UTF-8 bytes of
 * its code point (RFC 3629, section 3), each byte percent-encoded with two
 * upper-case hexadecimal digits (RFC 3986, section 2.1). A decoder in the
 * manner of `decodeURIComponent` is the partner: decoding an encoding gives
 * the original text back.
 */
module UriComponent {
  import opened Wrappers

  type Byte = b: int | 0 <= b < 256

  /** The characters `encodeURIComponent` copies unchanged. */
  predicate IsUnreserved(c: char) {
    'A' <= c <= 'Z' || 'a' <= c <= 'z' || '0' <= c <= '9'
    || c == '-' || c == '_' || c == '.' || c == '!' || c == '~'
    || c == '*' || c == '\'' || c == '(' || c == ')'
  }

  /** The UTF-8 encoding of one code point, written with successive
      divisions by 64 (six payload bits per continuation byte). */
  function Utf8(c: char): (bs: seq<Byte>)
    ensures 1 <= |bs| <= 4
    ensures |bs| == 1 <==> c as int < 0x80
  {
    var n := c as int;
    var n1 := n / 64;
    var n2 := n1 / 64;
    var n3 := n2 / 64;
    if n < 0x80 then [n]
    else if n < 0x800 then [0xC0 + n1, 0x80 + n % 64]
    else if n < 0x10000 then [0xE0 + n2, 0x80 + n1 % 64, 0x80 + n % 64]
    else [0xF0 + n3, 0x80 + n2 % 64, 0x80 + n1 % 64, 0x80 + n % 64]
  }

  function HexDigit(d: nat): (h: char)
    requires d < 16
    ensures IsUnreserved(h) && HexValue(h) == Some(d)
  {
    if d < 10 then ('0' as int + d) as char else ('A' as int + d - 10) as char
  }

  /** The value of a hexadecimal digit of either case. */
  function HexValue(h: char): (v: Option<nat>)
    ensures v.Some? ==> v.value < 16
  {
    if '0' <= h <= '9' then Some(h as int - '0' as int)
    else if 'A' <= h <= 'F' then Some(h as int - 'A' as int + 10)
    else if 'a' <= h <= 'f' then Some(h as int - 'a' as int + 10)
    else None
  }

  /** `%XY` for one byte. */
  function PercentByte(b: Byte): (t: string)
    ensures |t| == 3 && t[0] == '%' && IsUnreserved(t[1]) && IsUnreserved(t[2])
  {
    ['%', HexDigit(b / 16), HexDigit(b % 16)]
  }

  function PercentBytes(bs: seq<Byte>): (t: string)
    ensures |t| == 3 * |bs|
    ensures forall i :: 0 <= i < |t| ==> t[i] == '%' || IsUnreserved(t[i])
  {
    if bs == [] then [] else PercentByte(bs[0]) + PercentBytes(bs[1..])
  }

  function EncodeChar(c: char): (t: string)
    ensures t != []
    ensures forall i :: 0 <= i < |t| ==> t[i] == '%' || IsUnreserved(t[i])
  {
    if IsUnreserved(c) then [c] else PercentBytes(Utf8(c))
  }

  /** `encodeURIComponent(s)`: only unreserved characters and `%` remain. */
  function EncodeUriComponent(s: string): (t: string)
    ensures forall i :: 0 <= i < |t| ==> t[i] == '%' || IsUnreserved(t[i])
    ensures |s| <= |t| <= 12 * |s|
  {
    if s == [] then [] else EncodeChar(s[0]) + EncodeUriComponent(s[1..])
  }

  /** None of the characters that would end or split the query text
      of a URL survives the encoding. */
  lemma EncodedHasNoSeparators(s: string)
    ensures forall i :: 0 <= i < |EncodeUriComponent(s)| ==>
      EncodeUriComponent(s)[i] !in {' ', '\n', '\r', '&', '#', '?', '=', '+', '/'}
  {
  }

  // ---- Decoding ----

  /** The byte written as `%XY` at the start of `t`. */
  function LeadingByte(t: string): (b: Option<Byte>)
  {
    if |t| >= 3 && t[0] == '%' then
      match (HexValue(t[1]), HexValue(t[2]))
      case (Some(hi), Some(lo)) => Some(16 * hi + lo)
      case _ => None
    else None
  }

  predicate IsContinuation(b: Option<Byte>) {
    b.Some? && 0x80 <= b.value < 0xC0
  }

  predicate IsScalarValue(n: int) {
    0 <= n < 0xD800 || 0xE000 <= n < 0x11_0000
  }

  /** One decoded character and the text after it, if `t` starts with
      either a character other than `%` or a well-formed, shortest UTF-8
      sequence of percent-encoded bytes for a scalar value. */
  function DecodeOne(t: string): (r: Option<(char, string)>)
    requires t != []
    ensures r.Some? ==> |r.value.1| < |t|
  {
    if t[0] != '%' then Some((t[0], t[1..]))
    else
      var b0 := LeadingByte(t);
      if b0.None? then None
      else if b0.value < 0x80 then Some((b0.value as char, t[3..]))
      else if 0xC0 <= b0.value < 0xE0 then
        var b1 := LeadingByte(t[3..]);
        if !IsContinuation(b1) then None
        else
          var n := (b0.value - 0xC0) * 64 + (b1.value - 0x80);
          if n < 0x80 then None else Some((n as char, t[6..]))
      else if 0xE0 <= b0.value < 0xF0 then
        var b1 := LeadingByte(t[3..]);
        var b2 := if |t| >= 6 then LeadingByte(t[6..]) else None;
        if !IsContinuation(b1) || !IsContinuation(b2) then None
        else
          var n := ((b0.value - 0xE0) * 64 + (b1.value - 0x80)) * 64 + (b2.value - 0x80);
          if n < 0x800 || !IsScalarValue(n) then None else Some((n as char, t[9..]))
      else if 0xF0 <= b0.value < 0xF8 then
        var b1 := LeadingByte(t[3..]);
        var b2 := if |t| >= 6 then LeadingByte(t[6..]) else None;
        var b3 := if |t| >= 9 then LeadingByte(t[9..]) else None;
        if !IsContinuation(b1) || !IsContinuation(b2) || !IsContinuation(b3) then None
        else
          var n := (((b0.value - 0xF0) * 64 + (b1.value - 0x80)) * 64 + (b2.value - 0x80)) * 64
                   + (b3.value - 0x80);
          if n < 0x10000 || !IsScalarValue(n) then None else Some((n as char, t[12..]))
      else None
  }

  /** `decodeURIComponent(t)`, with None where it would throw a URIError. */
  function DecodeUriComponent(t: string): (r: Option<string>)
    decreases |t|
  {
    if t == [] then Some([])
    else
      match DecodeOne(t)
      case None => None
      case Some((c, rest)) =>
        match DecodeUriComponent(rest)
        case None => None
        case Some(s) => Some([c] + s)
  }

  lemma LeadingPercentByte(b: Byte, rest: string)
    ensures LeadingByte(PercentByte(b) + rest) == Some(b)
  {
    var t := PercentByte(b) + rest;
    assert t[0] == '%' && t[1] == HexDigit(b / 16) && t[2] == HexDigit(b % 16);
  }

  /** The k-th triplet of a percent-encoded byte sequence reads back as the k-th byte. */
  lemma {:induction false} LeadingBytes(bs: seq<Byte>, rest: string, k: nat)
    requires k < |bs|
    ensures |PercentBytes(bs) + rest| >= 3 * k + 3
    ensures LeadingByte((PercentBytes(bs) + rest)[3 * k..]) == Some(bs[k])
  {
    var t := PercentBytes(bs) + rest;
    var tail := PercentBytes(bs[1..]) + rest;
    assert t == PercentByte(bs[0]) + tail;
    if k == 0 {
      LeadingPercentByte(bs[0], tail);
    } else {
      LeadingBytes(bs[1..], rest, k - 1);
      assert t[3 * k..] == tail[3 * (k - 1)..];
    }
  }

  lemma DecodeTwoBytes(c: char, rest: string)
    requires 0x80 <= c as int < 0x800
    ensures DecodeOne(PercentBytes(Utf8(c)) + rest) == Some((c, rest))
  {
    var bs := Utf8(c);
    var t := PercentBytes(bs) + rest;
    Utf8Two(c);
    LeadingBytes(bs, rest, 0);
    LeadingBytes(bs, rest, 1);
    DecodeOneTwo(t, bs[0], bs[1], c as int);
    PercentRest(bs, rest);
  }

  /** The text after the percent-encoded bytes is what followed them. */
  lemma PercentRest(bs: seq<Byte>, rest: string)
    ensures (PercentBytes(bs) + rest)[3 * |bs|..] == rest
  {
  }

  /** A two-byte sequence: a lead byte `110xxxxx`, a continuation byte, and the code point they carry. */
  lemma Utf8Two(c: char)
    requires 0x80 <= c as int < 0x800
    ensures var bs := Utf8(c);
      |bs| == 2 && 0xC0 <= bs[0] < 0xE0 && 0x80 <= bs[1] < 0xC0
      && (bs[0] as int - 0xC0) * 64 + (bs[1] as int - 0x80) == c as int
  {
    var n := c as int;
    var bs := Utf8(c);
    assert bs[0] == 0xC0 + n / 64 && bs[1] == 0x80 + n % 64;
  }

  /** A three-byte sequence: a lead byte `1110xxxx`, two continuation bytes, and the code point they carry. */
  lemma Utf8Three(c: char)
    requires 0x800 <= c as int < 0x10000
    ensures var bs := Utf8(c);
      |bs| == 3 && 0xE0 <= bs[0] < 0xF0 && 0x80 <= bs[1] < 0xC0 && 0x80 <= bs[2] < 0xC0
      && ((bs[0] as int - 0xE0) * 64 + (bs[1] as int - 0x80)) * 64 + (bs[2] as int - 0x80) == c as int
  {
    var n: nat := c as int;
    var bs := Utf8(c);
    assert bs[0] == 0xE0 + n / 64 / 64 && bs[1] == 0x80 + n / 64 % 64 && bs[2] == 0x80 + n % 64;
    Reassemble3(n);
  }

  /** A four-byte sequence: a lead byte `11110xxx`, three continuation bytes, and the code point they carry. */
  lemma Utf8Four(c: char)
    requires 0x10000 <= c as int
    ensures var bs := Utf8(c);
      |bs| == 4 && 0xF0 <= bs[0] < 0xF8 && 0x80 <= bs[1] < 0xC0 && 0x80 <= bs[2] < 0xC0 && 0x80 <= bs[3] < 0xC0
      && (((bs[0] as int - 0xF0) * 64 + (bs[1] as int - 0x80)) * 64 + (bs[2] as int - 0x80)) * 64 + (bs[3] as int - 0x80) == c as int
  {
    var n: nat := c as int;
    var bs := Utf8(c);
    assert bs[0] == 0xF0 + n / 64 / 64 / 64 && bs[1] == 0x80 + n / 64 / 64 % 64;
    assert bs[2] == 0x80 + n / 64 % 64 && bs[3] == 0x80 + n % 64;
    Reassemble4(n);
  }

  /** A well-formed two-byte sequence at the start of `t` decodes to its code point. */
  lemma DecodeOneTwo(t: string, b0: int, b1: int, n: int)
    requires |t| >= 6
    requires LeadingByte(t) == Some(b0) && LeadingByte(t[3..]) == Some(b1)
    requires 0xC0 <= b0 < 0xE0 && 0x80 <= b1 < 0xC0
    requires (b0 - 0xC0) * 64 + (b1 - 0x80) == n
    requires 0x80 <= n
    ensures DecodeOne(t) == Some((n as char, t[6..]))
  {
  }

  /** Six payload bits per byte: the decoder's Horner form rebuilds the code point. */
  lemma Reassemble3(n: nat)
    ensures ((n / 64 / 64) * 64 + n / 64 % 64) * 64 + n % 64 == n
  {
    var n1 := n / 64;
    assert n == n1 * 64 + n % 64;
    assert n1 == (n1 / 64) * 64 + n1 % 64;
  }

  lemma Reassemble4(n: nat)
    ensures (((n / 64 / 64 / 64) * 64 + n / 64 / 64 % 64) * 64 + n / 64 % 64) * 64 + n % 64 == n
  {
    var n1 := n / 64;
    var n2 := n1 / 64;
    assert n == n1 * 64 + n % 64;
    assert n1 == n2 * 64 + n1 % 64;
    assert n2 == (n2 / 64) * 64 + n2 % 64;
  }

  /** A well-formed three-byte sequence at the start of `t` decodes to its code point. */
  lemma DecodeOneThree(t: string, b0: int, b1: int, b2: int, n: int)
    requires |t| >= 9
    requires LeadingByte(t) == Some(b0) && LeadingByte(t[3..]) == Some(b1) && LeadingByte(t[6..]) == Some(b2)
    requires 0xE0 <= b0 < 0xF0 && 0x80 <= b1 < 0xC0 && 0x80 <= b2 < 0xC0
    requires ((b0 - 0xE0) * 64 + (b1 - 0x80)) * 64 + (b2 - 0x80) == n
    requires 0x800 <= n && IsScalarValue(n)
    ensures DecodeOne(t) == Some((n as char, t[9..]))
  {
  }

  /** A well-formed four-byte sequence at the start of `t` decodes to its code point. */
  lemma DecodeOneFour(t: string, b0: int, b1: int, b2: int, b3: int, n: int)
    requires |t| >= 12
    requires LeadingByte(t) == Some(b0) && LeadingByte(t[3..]) == Some(b1)
    requires LeadingByte(t[6..]) == Some(b2) && LeadingByte(t[9..]) == Some(b3)
    requires 0xF0 <= b0 < 0xF8 && 0x80 <= b1 < 0xC0 && 0x80 <= b2 < 0xC0 && 0x80 <= b3 < 0xC0
    requires (((b0 - 0xF0) * 64 + (b1 - 0x80)) * 64 + (b2 - 0x80)) * 64 + (b3 - 0x80) == n
    requires 0x10000 <= n && IsScalarValue(n)
    ensures DecodeOne(t) == Some((n as char, t[12..]))
  {
  }

  lemma DecodeThreeBytes(c: char, rest: string)
    requires 0x800 <= c as int < 0x10000
    ensures DecodeOne(PercentBytes(Utf8(c)) + rest) == Some((c, rest))
  {
    var bs := Utf8(c);
    var t := PercentBytes(bs) + rest;
    Utf8Three(c);
    LeadingBytes(bs, rest, 0);
    LeadingBytes(bs, rest, 1);
    LeadingBytes(bs, rest, 2);
    DecodeOneThree(t, bs[0], bs[1], bs[2], c as int);
    PercentRest(bs, rest);
  }

  lemma DecodeFourBytes(c: char, rest: string)
    requires 0x10000 <= c as int
    ensures DecodeOne(PercentBytes(Utf8(c)) + rest) == Some((c, rest))
  {
    var bs := Utf8(c);
    var t := PercentBytes(bs) + rest;
    Utf8Four(c);
    LeadingBytes(bs, rest, 0);
    LeadingBytes(bs, rest, 1);
    LeadingBytes(bs, rest, 2);
    LeadingBytes(bs, rest, 3);
    DecodeOneFour(t, bs[0], bs[1], bs[2], bs[3], c as int);
    PercentRest(bs, rest);
  }

  /** Decoding the encoding of one character gives that character and
      leaves what follows untouched. */
  lemma DecodeEncodeChar(c: char, rest: string)
    ensures DecodeOne(EncodeChar(c) + rest) == Some((c, rest))
  {
    var n := c as int;
    if IsUnreserved(c) {
    } else if n < 0x80 {
      LeadingBytes(Utf8(c), rest, 0);
      assert (PercentBytes(Utf8(c)) + rest)[3..] == rest;
    } else if n < 0x800 {
      DecodeTwoBytes(c, rest);
    } else if n < 0x10000 {
      DecodeThreeBytes(c, rest);
    } else {
      DecodeFourBytes(c, rest);
    }
  }

  /** The round trip: `decodeURIComponent(encodeURIComponent(s)) == s`. */
  lemma {:induction false} DecodeEncode(s: string)
    ensures DecodeUriComponent(EncodeUriComponent(s)) == Some(s)
  {
    if s != [] {
      var t := EncodeUriComponent(s);
      assert t == EncodeChar(s[0]) + EncodeUriComponent(s[1..]);
      DecodeEncodeChar(s[0], EncodeUriComponent(s[1..]));
      DecodeEncode(s[1..]);
      assert [s[0]] + s[1..] == s;
    }
  }
}
