/**
 * UTF-8 as the protocol's strings use it: the well-formedness rule of
 * section 4 of RFC 3629 ("Syntax of UTF-8 Byte Sequences"), which is what
 * Rust's `String::from_utf8` accepts, the encoder behind `str::as_bytes`,
 * and the char-boundary rule that byte slicing of a `str` enforces.
 */
module Utf8 {
  import opened Wire

  /** A continuation byte, UTF8-tail = %x80-BF. */
  predicate IsTail(b: byte)
  {
    0x80 <= b <= 0xBF
  }

  /**
   * The length of the well-formed character at the start of `s`,
   * or 0 when `s` does not start with one (RFC 3629, section 4).
   */
  function CharLength(s: seq<byte>): (n: nat)
    ensures n <= |s| && n <= 4
    ensures s != [] && s[0] < 0x80 ==> n == 1
    ensures n == 1 ==> s[0] < 0x80
  {
    if |s| == 0 then 0
    else
      var b0 := s[0];
      if b0 <= 0x7F then 1
      else if 0xC2 <= b0 <= 0xDF then
        if |s| >= 2 && IsTail(s[1]) then 2 else 0
      else if 0xE0 <= b0 <= 0xEF then
        var lo: byte := if b0 == 0xE0 then 0xA0 else 0x80;
        var hi: byte := if b0 == 0xED then 0x9F else 0xBF;
        if |s| >= 3 && lo <= s[1] <= hi && IsTail(s[2]) then 3 else 0
      else if 0xF0 <= b0 <= 0xF4 then
        var lo: byte := if b0 == 0xF0 then 0x90 else 0x80;
        var hi: byte := if b0 == 0xF4 then 0x8F else 0xBF;
        if |s| >= 4 && lo <= s[1] <= hi && IsTail(s[2]) && IsTail(s[3]) then 4 else 0
      else 0
  }

  /** UTF8-octets = *( UTF8-char ): `s` is a sequence of well-formed characters. */
  predicate IsUtf8(s: seq<byte>)
    decreases |s|
  {
    s == [] || (CharLength(s) > 0 && IsUtf8(s[CharLength(s)..]))
  }

  /** Byte index `i` of `s` starts a character or is the end (`str::is_char_boundary`). */
  predicate IsCharBoundary(s: seq<byte>, i: nat)
  {
    i == 0 || i == |s| || (i < |s| && !IsTail(s[i]))
  }

  /** The UTF-8 encoding of one Unicode scalar value. */
  function EncodeChar(c: char): (r: seq<byte>)
    ensures 1 <= |r| <= 4
    ensures (c as int < 0x80) <==> |r| == 1
    ensures !IsTail(r[0])
  {
    var v := c as int;
    if v < 0x80 then
      [v as byte]
    else if v < 0x800 then
      [(0xC0 + v / 0x40) as byte, (0x80 + v % 0x40) as byte]
    else if v < 0x1_0000 then
      [(0xE0 + v / 0x1000) as byte, (0x80 + (v / 0x40) % 0x40) as byte, (0x80 + v % 0x40) as byte]
    else
      [(0xF0 + v / 0x4_0000) as byte, (0x80 + (v / 0x1000) % 0x40) as byte,
       (0x80 + (v / 0x40) % 0x40) as byte, (0x80 + v % 0x40) as byte]
  }

  /** The bytes of a Rust `str` (`as_bytes`): the characters' encodings, in order. */
  function Encode(s: string): (r: seq<byte>)
    ensures |s| <= |r| <= 4 * |s|
  {
    if s == [] then [] else EncodeChar(s[0]) + Encode(s[1..])
  }

  /** The bytes of a concatenation are the bytes of its parts, one after the other. */
  lemma {:induction false} EncodeAppend(a: string, b: string)
    ensures Encode(a + b) == Encode(a) + Encode(b)
  {
    if a != [] {
      assert (a + b)[0] == a[0] && (a + b)[1..] == a[1..] + b;
      EncodeAppend(a[1..], b);
      AppendAssoc(EncodeChar(a[0]), Encode(a[1..]), Encode(b));
    } else {
      assert a + b == b;
    }
  }

  lemma EncodeCharLength2(c: char, rest: seq<byte>)
    requires 0x80 <= c as int < 0x800
    ensures CharLength(EncodeChar(c) + rest) == 2
  {
    var e := EncodeChar(c);
    var s := e + rest;
    assert s[0] == e[0] && s[1] == e[1];
  }

  lemma EncodeCharLength3(c: char, rest: seq<byte>)
    requires 0x800 <= c as int < 0x1_0000
    ensures CharLength(EncodeChar(c) + rest) == 3
  {
    var v := c as int;
    var e := EncodeChar(c);
    var s := e + rest;
    assert s[0] == e[0] && s[1] == e[1] && s[2] == e[2];
    assert 0xD800 <= v < 0xE000 ==> false;
  }

  lemma EncodeCharLength4(c: char, rest: seq<byte>)
    requires 0x1_0000 <= c as int
    ensures CharLength(EncodeChar(c) + rest) == 4
  {
    var e := EncodeChar(c);
    var s := e + rest;
    assert s[0] == e[0] && s[1] == e[1] && s[2] == e[2] && s[3] == e[3];
  }

  /** The encoding of a character is recognised as exactly one well-formed character. */
  lemma EncodeCharLength(c: char, rest: seq<byte>)
    ensures CharLength(EncodeChar(c) + rest) == |EncodeChar(c)|
  {
    var v := c as int;
    if v < 0x80 {
    } else if v < 0x800 {
      EncodeCharLength2(c, rest);
    } else if v < 0x1_0000 {
      EncodeCharLength3(c, rest);
    } else {
      EncodeCharLength4(c, rest);
    }
  }

  /** Every encoded string is well-formed UTF-8, so `String::from_utf8` of it succeeds. */
  lemma {:induction false} EncodeIsUtf8(s: string)
    ensures IsUtf8(Encode(s))
  {
    if s != [] {
      var e := EncodeChar(s[0]);
      EncodeCharLength(s[0], Encode(s[1..]));
      EncodeIsUtf8(s[1..]);
      assert (e + Encode(s[1..]))[|e|..] == Encode(s[1..]);
    }
  }

  /** An ASCII string's bytes are its characters' codes, one byte each. */
  lemma {:induction false} EncodeAscii(s: string)
    requires forall i :: 0 <= i < |s| ==> s[i] as int < 0x80
    ensures |Encode(s)| == |s|
    ensures forall i :: 0 <= i < |s| ==> Encode(s)[i] as int == s[i] as int
  {
    if s != [] {
      EncodeAscii(s[1..]);
    }
  }

  /** Byte 2 splits any string whose first two characters are ASCII. */
  lemma AsciiPrefixBoundary(s: string)
    requires |s| >= 2 && s[0] as int < 0x80 && s[1] as int < 0x80
    ensures |Encode(s)| >= 2 && IsCharBoundary(Encode(s), 2)
  {
    var t := s[2..];
    assert s == [s[0]] + ([s[1]] + t);
    assert Encode(s) == EncodeChar(s[0]) + (EncodeChar(s[1]) + Encode(t));
    var e := Encode(s);
    if |e| > 2 {
      assert e[2..] == Encode(t);
      if t != [] {
        assert Encode(t) == EncodeChar(t[0]) + Encode(t[1..]);
        assert e[2] == EncodeChar(t[0])[0];
      }
    }
  }
}
