/**
 * JavaScript's `encodeURIComponent` (ECMA-262, section "encodeURIComponent"
 * and its abstract operation Encode): characters of the unreserved set are
 * kept, every other code point is written as the percent-escaped bytes of its
 * UTF-8 encoding, with upper-case hexadecimal digits.
 */
module Uri {

  /** uriAlpha, DecimalDigit and uriMark: the characters `encodeURIComponent` leaves alone. */
  predicate IsUnreserved(c: char) {
    || ('A' <= c <= 'Z') || ('a' <= c <= 'z') || ('0' <= c <= '9')
    || c == '-' || c == '_' || c == '.' || c == '!' || c == '~'
    || c == '*' || c == '\'' || c == '(' || c == ')'
  }

  /** The characters an encoded component can contain. */
  predicate IsEncodedChar(c: char) {
    IsUnreserved(c) || c == '%'
  }

  type Byte = b: nat | b < 256

  /** The upper-case hexadecimal digit for `d`. */
  function HexDigit(d: nat): (c: char)
    requires d < 16
    ensures IsUnreserved(c)
  {
    if d < 10 then ('0' as int + d) as char else ('A' as int + d - 10) as char
  }

  /** `%XY` for one byte. */
  function PercentByte(b: Byte): (r: string)
    ensures |r| == 3 && r[0] == '%'
    ensures forall i :: 0 <= i < |r| ==> IsEncodedChar(r[i])
  {
    ['%', HexDigit(b / 16), HexDigit(b % 16)]
  }

  /** The UTF-8 encoding of a Unicode scalar value. */
  function Utf8(cp: nat): (r: seq<Byte>)
    requires cp < 0x11_0000
    ensures 1 <= |r| <= 4
    ensures |r| == 1 <==> cp < 0x80
  {
    if cp < 0x80 then [cp]
    else if cp < 0x800 then [0xC0 + cp / 0x40, 0x80 + cp % 0x40]
    else if cp < 0x1_0000 then [0xE0 + cp / 0x1000, 0x80 + (cp / 0x40) % 0x40, 0x80 + cp % 0x40]
    else [0xF0 + cp / 0x4_0000, 0x80 + (cp / 0x1000) % 0x40, 0x80 + (cp / 0x40) % 0x40, 0x80 + cp % 0x40]
  }

  /** The percent escapes of a byte sequence, three characters per byte. */
  function PercentBytes(bs: seq<Byte>): (r: string)
    ensures |r| == 3 * |bs|
    ensures forall i :: 0 <= i < |r| ==> IsEncodedChar(r[i])
  {
    if |bs| == 0 then "" else PercentByte(bs[0]) + PercentBytes(bs[1..])
  }

  /** The encoding of one character. */
  function EncodeChar(c: char): (r: string)
    ensures |r| >= 1
    ensures |r| == 1 <==> IsUnreserved(c)
    ensures IsUnreserved(c) ==> r == [c]
    ensures forall i :: 0 <= i < |r| ==> IsEncodedChar(r[i])
  {
    if IsUnreserved(c) then [c] else PercentBytes(Utf8(c as int))
  }

  /**
   * JavaScript's `encodeURIComponent(s)`. An encoded component never contains
   * `$`, so it cannot trigger a replacement pattern when used as the
   * replacement of `String.prototype.replace`.
   */
  function EncodeUriComponent(s: string): (r: string)
    ensures '$' !in r
    ensures forall i :: 0 <= i < |r| ==> IsEncodedChar(r[i])
    ensures |r| >= |s|
    ensures |r| == |s| ==> forall i :: 0 <= i < |s| ==> IsUnreserved(s[i])
    ensures (forall i :: 0 <= i < |s| ==> IsUnreserved(s[i])) ==> r == s
  {
    if |s| == 0 then ""
    else
      var head := EncodeChar(s[0]);
      var tail := EncodeUriComponent(s[1..]);
      assert forall i :: 1 <= i < |s| ==> s[i] == s[1..][i - 1];
      head + tail
  }

  /** A space is escaped as `%20`. */
  lemma EncodeSpaceChar()
    ensures EncodeChar(' ') == "%20"
  {
    assert !IsUnreserved(' ');
    assert Utf8(32) == [32];
    assert PercentBytes([32]) == PercentByte(32) + PercentBytes([]);
    assert PercentByte(32) == ['%', HexDigit(2), HexDigit(0)];
  }

  /** Encoding distributes over concatenation. */
  lemma {:induction false} EncodeConcat(a: string, b: string)
    ensures EncodeUriComponent(a + b) == EncodeUriComponent(a) + EncodeUriComponent(b)
  {
    if |a| > 0 {
      assert (a + b)[0] == a[0];
      assert (a + b)[1..] == a[1..] + b;
      EncodeConcat(a[1..], b);
      assert EncodeUriComponent(a + b) == EncodeChar(a[0]) + EncodeUriComponent(a[1..] + b);
    } else {
      assert a + b == b;
    }
  }

  /**
   * Between two words of unreserved characters a space becomes `%20`: for
   * instance `"hello world"` is encoded as `"hello%20world"`.
   */
  lemma EncodeSpaceBetweenWords(a: string, b: string)
    requires forall i :: 0 <= i < |a| ==> IsUnreserved(a[i])
    requires forall i :: 0 <= i < |b| ==> IsUnreserved(b[i])
    ensures EncodeUriComponent(a + " " + b) == a + "%20" + b
  {
    EncodeSpaceChar();
    var space := " ";
    assert EncodeUriComponent(space) == EncodeChar(' ') + EncodeUriComponent("") == "%20";
    assert EncodeUriComponent(a) == a;
    assert EncodeUriComponent(b) == b;
    EncodeConcat(a, space);
    EncodeConcat(a + space, b);
    assert EncodeUriComponent(a + space) == a + "%20";
  }
}
