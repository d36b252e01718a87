/**
 * JavaScript's `decodeURIComponent` (ECMA-262, abstract operation Decode with
 * an empty reserved set), the inverse the encoder is checked against: every
 * `%XY` run that spells a well-formed UTF-8 sequence becomes the code point
 * it encodes, and a malformed escape or sequence is a `URIError`, modelled as
 * `None`.
 */
module UriDecode {
  import opened Wrappers
  import opened Uri

  /** The value of one hexadecimal digit of either case. */
  function HexValue(c: char): (r: Option<nat>)
    ensures r.Some? ==> r.value < 16
  {
    if '0' <= c <= '9' then Some(c as int - '0' as int)
    else if 'A' <= c <= 'F' then Some(c as int - 'A' as int + 10)
    else if 'a' <= c <= 'f' then Some(c as int - 'a' as int + 10)
    else None
  }

  /** The byte escaped as `%XY` at position `k` of `s`, if one is there. */
  function PercentAt(s: string, k: nat): (r: Option<Byte>)
  {
    if k + 3 <= |s| && s[k] == '%' then
      match (HexValue(s[k + 1]), HexValue(s[k + 2]))
      case (Some(h), Some(l)) => Some(16 * h + l)
      case _ => None
    else None
  }

  /** The `n` escaped bytes at the start of `s`. */
  function ReadBytes(s: string, n: nat): (r: Option<seq<Byte>>)
    requires 3 * n <= |s|
    ensures r.Some? ==> |r.value| == n
  {
    if n == 0 then Some([])
    else
      match PercentAt(s, 0)
      case None => None
      case Some(b) =>
        match ReadBytes(s[3..], n - 1)
        case None => None
        case Some(rest) => Some([b] + rest)
  }

  /** The length of the UTF-8 sequence a lead byte announces; 0 for a byte that cannot lead one. */
  function SequenceLength(b: Byte): (n: nat)
    ensures n <= 4
  {
    if b < 0x80 then 1
    else if 0xC0 <= b < 0xE0 then 2
    else if 0xE0 <= b < 0xF0 then 3
    else if 0xF0 <= b < 0xF8 then 4
    else 0
  }

  predicate IsContinuation(b: Byte) {
    0x80 <= b < 0xC0
  }

  /** A code point a JavaScript string can hold as one character: not a surrogate, at most U+10FFFF. */
  predicate IsScalar(cp: nat) {
    cp < 0xD800 || (0xE000 <= cp < 0x11_0000)
  }

  /**
   * The code point of a complete UTF-8 sequence; `None` for a bad
   * continuation byte, an overlong form, a surrogate or a value above
   * U+10FFFF.
   */
  function Utf8Decode(bs: seq<Byte>): (r: Option<nat>)
    requires 1 <= |bs| <= 4 && SequenceLength(bs[0]) == |bs|
    ensures r.Some? ==> IsScalar(r.value)
  {
    if |bs| == 1 then Some(bs[0])
    else if exists i :: 1 <= i < |bs| && !IsContinuation(bs[i]) then None
    else if |bs| == 2 then
      var cp := (bs[0] as int - 0xC0) * 0x40 + (bs[1] as int - 0x80);
      if cp < 0x80 then None else Some(cp as nat)
    else if |bs| == 3 then
      var cp := (bs[0] as int - 0xE0) * 0x1000 + (bs[1] as int - 0x80) * 0x40 + (bs[2] as int - 0x80);
      if cp < 0x800 || (0xD800 <= cp < 0xE000) then None else Some(cp)
    else
      var cp := (bs[0] as int - 0xF0) * 0x4_0000 + (bs[1] as int - 0x80) * 0x1000 + (bs[2] as int - 0x80) * 0x40 + (bs[3] as int - 0x80);
      if cp < 0x1_0000 || cp >= 0x11_0000 then None else Some(cp)
  }

  /**
   * The character spelled by the escapes at the start of `s` (which starts
   * with `%`) and the number of characters they take up.
   */
  function DecodeEscape(s: string): (r: Option<(char, nat)>)
    requires |s| > 0 && s[0] == '%'
    ensures r.Some? ==> 3 <= r.value.1 <= |s|
  {
    match PercentAt(s, 0)
    case None => None
    case Some(b) =>
      var n := SequenceLength(b);
      if n == 0 || |s| < 3 * n then None
      else
        match ReadBytes(s, n)
        case None => None
        case Some(bs) =>
          assert bs[0] == b;
          match Utf8Decode(bs)
          case None => None
          case Some(cp) => Some((cp as char, 3 * n))
  }

  /** JavaScript's `decodeURIComponent(s)`; `None` where it throws a `URIError`. */
  function DecodeUriComponent(s: string): (r: Option<string>)
    ensures '%' !in s ==> r == Some(s)
    ensures r.Some? ==> |r.value| <= |s|
    ensures r.Some? && |r.value| == |s| ==> '%' !in s
    decreases |s|
  {
    if |s| == 0 then Some("")
    else if s[0] != '%' then
      assert '%' !in s ==> '%' !in s[1..] && s == [s[0]] + s[1..];
      match DecodeUriComponent(s[1..])
      case None => None
      case Some(t) => Some([s[0]] + t)
    else
      match DecodeEscape(s)
      case None => None
      case Some((c, n)) =>
        match DecodeUriComponent(s[n..])
        case None => None
        case Some(t) => Some([c] + t)
  }

  // ---------------------------------------------------------------------------
  // Decoding what the encoder wrote
  // ---------------------------------------------------------------------------

  lemma HexValueOfDigit(d: nat)
    requires d < 16
    ensures HexValue(HexDigit(d)) == Some(d)
  {
  }

  /** An escaped byte reads back as that byte. */
  lemma PercentAtByte(b: Byte, t: string)
    ensures PercentAt(PercentByte(b) + t, 0) == Some(b)
  {
    var x := PercentByte(b) + t;
    HexValueOfDigit(b / 16);
    HexValueOfDigit(b % 16);
    assert x[0] == '%' && x[1] == HexDigit(b / 16) && x[2] == HexDigit(b % 16);
  }

  /** Escaped bytes read back as those bytes. */
  lemma {:induction false} ReadPercentBytes(bs: seq<Byte>, t: string)
    ensures 3 * |bs| <= |PercentBytes(bs) + t|
    ensures ReadBytes(PercentBytes(bs) + t, |bs|) == Some(bs)
  {
    if |bs| > 0 {
      var x := PercentBytes(bs) + t;
      assert x == PercentByte(bs[0]) + (PercentBytes(bs[1..]) + t);
      PercentAtByte(bs[0], PercentBytes(bs[1..]) + t);
      assert x[3..] == PercentBytes(bs[1..]) + t;
      ReadPercentBytes(bs[1..], t);
      assert [bs[0]] + bs[1..] == bs;
    }
  }

  /** The UTF-8 encoding of a code point announces its own length and decodes back to it. */
  lemma Utf8RoundTrip(cp: nat)
    requires cp < 0x11_0000 && IsScalar(cp)
    ensures SequenceLength(Utf8(cp)[0]) == |Utf8(cp)|
    ensures Utf8Decode(Utf8(cp)) == Some(cp)
  {
    if cp < 0x80 {
    } else if cp < 0x800 {
      Utf8TwoBytes(cp);
    } else if cp < 0x1_0000 {
      Utf8ThreeBytes(cp);
    } else {
      Utf8FourBytes(cp);
    }
  }

  lemma Utf8TwoBytes(cp: nat)
    requires 0x80 <= cp < 0x800
    ensures SequenceLength(Utf8(cp)[0]) == 2
    ensures Utf8Decode(Utf8(cp)) == Some(cp)
  {
    assert Utf8(cp) == [0xC0 + cp / 0x40, 0x80 + cp % 0x40];
    assert cp == (cp / 0x40) * 0x40 + cp % 0x40;
  }

  lemma Utf8ThreeBytes(cp: nat)
    requires 0x800 <= cp < 0x1_0000 && IsScalar(cp)
    ensures SequenceLength(Utf8(cp)[0]) == 3
    ensures Utf8Decode(Utf8(cp)) == Some(cp)
  {
    assert Utf8(cp) == [0xE0 + cp / 0x1000, 0x80 + (cp / 0x40) % 0x40, 0x80 + cp % 0x40];
    assert cp == (cp / 0x40) * 0x40 + cp % 0x40;
    assert cp / 0x40 == (cp / 0x1000) * 0x40 + (cp / 0x40) % 0x40;
  }

  lemma Utf8FourBytes(cp: nat)
    requires 0x1_0000 <= cp < 0x11_0000
    ensures SequenceLength(Utf8(cp)[0]) == 4
    ensures Utf8Decode(Utf8(cp)) == Some(cp)
  {
    assert Utf8(cp) == [0xF0 + cp / 0x4_0000, 0x80 + (cp / 0x1000) % 0x40, 0x80 + (cp / 0x40) % 0x40, 0x80 + cp % 0x40];
    assert cp == (cp / 0x40) * 0x40 + cp % 0x40;
    assert cp / 0x40 == (cp / 0x1000) * 0x40 + (cp / 0x40) % 0x40;
    assert cp / 0x1000 == (cp / 0x4_0000) * 0x40 + (cp / 0x1000) % 0x40;
  }

  /** Decoding the encoding of one character followed by `t` yields that character, then the decoding of `t`. */
  lemma DecodeEncodedChar(c: char, t: string)
    ensures DecodeUriComponent(EncodeChar(c) + t) ==
      match DecodeUriComponent(t)
      case None => None
      case Some(u) => Some([c] + u)
  {
    if IsUnreserved(c) {
      var x := EncodeChar(c) + t;
      assert x[0] == c && x[1..] == t;
    } else {
      DecodeEscapedChar(c, t);
    }
  }

  /** The escaped case: the `%XY` run of a reserved character decodes back to it. */
  lemma DecodeEscapedChar(c: char, t: string)
    requires !IsUnreserved(c)
    ensures DecodeUriComponent(EncodeChar(c) + t) ==
      match DecodeUriComponent(t)
      case None => None
      case Some(u) => Some([c] + u)
  {
    var bs := Utf8(c as int);
    var x := EncodeChar(c) + t;
    assert x == PercentBytes(bs) + t;
    assert x == PercentByte(bs[0]) + (PercentBytes(bs[1..]) + t);
    DecodeEscapeOfChar(c, t);
    assert x[3 * |bs|..] == t;
  }

  /** The escapes of a reserved character decode to that character and take up all of its escapes. */
  lemma DecodeEscapeOfChar(c: char, t: string)
    requires !IsUnreserved(c)
    ensures var bs := Utf8(c as int);
      var x := PercentBytes(bs) + t;
      |x| > 0 && x[0] == '%' && DecodeEscape(x) == Some((c, 3 * |bs|))
  {
    var cp := c as int;
    assert IsScalar(cp);
    Utf8RoundTrip(cp);
    DecodeEscapeOfBytes(Utf8(cp), cp, t);
  }

  /** The escapes of a well-formed UTF-8 sequence decode to its code point. */
  lemma DecodeEscapeOfBytes(bs: seq<Byte>, cp: nat, t: string)
    requires 1 <= |bs| <= 4 && SequenceLength(bs[0]) == |bs|
    requires Utf8Decode(bs) == Some(cp)
    ensures var x := PercentBytes(bs) + t;
      |x| > 0 && x[0] == '%' && DecodeEscape(x) == Some((cp as char, 3 * |bs|))
  {
    var x := PercentBytes(bs) + t;
    ReadPercentBytes(bs, t);
    assert PercentAt(x, 0) == Some(bs[0]) by {
      assert x == PercentByte(bs[0]) + (PercentBytes(bs[1..]) + t);
      PercentAtByte(bs[0], PercentBytes(bs[1..]) + t);
    }
    assert ReadBytes(x, |bs|) == Some(bs);
  }

  /** `decodeURIComponent(encodeURIComponent(s)) === s` for every string. */
  lemma {:induction false} DecodeEncode(s: string)
    ensures DecodeUriComponent(EncodeUriComponent(s)) == Some(s)
  {
    if |s| > 0 {
      assert EncodeUriComponent(s) == EncodeChar(s[0]) + EncodeUriComponent(s[1..]);
      DecodeEncodedChar(s[0], EncodeUriComponent(s[1..]));
      DecodeEncode(s[1..]);
      assert [s[0]] + s[1..] == s;
    }
  }

  /** Different strings never encode to the same component. */
  lemma EncodeInjective(a: string, b: string)
    requires EncodeUriComponent(a) == EncodeUriComponent(b)
    ensures a == b
  {
    DecodeEncode(a);
    DecodeEncode(b);
  }
}
