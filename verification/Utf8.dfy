/** Well-formed UTF-8, by the grammar of section 4 of RFC 3629. */
module Utf8 {
  import opened WireFormat

  predicate IsTail(b: Byte) {
    0x80 <= b <= 0xBF
  }

  /** The length of the UTF8-char at the front of `s`, 0 if there is none. */
  function CharLength(s: Bytes): (n: nat)
    ensures n <= |s| && n <= 4
  {
    if s == [] then 0
    else if s[0] <= 0x7F then 1
    else if |s| >= 2 && 0xC2 <= s[0] <= 0xDF && IsTail(s[1]) then 2
    else if |s| >= 3 && IsTail(s[1]) && IsTail(s[2]) && (
         (s[0] == 0xE0 && 0xA0 <= s[1])
      || 0xE1 <= s[0] <= 0xEC
      || (s[0] == 0xED && s[1] <= 0x9F)
      || 0xEE <= s[0] <= 0xEF) then 3
    else if |s| >= 4 && IsTail(s[1]) && IsTail(s[2]) && IsTail(s[3]) && (
         (s[0] == 0xF0 && 0x90 <= s[1])
      || 0xF1 <= s[0] <= 0xF3
      || (s[0] == 0xF4 && s[1] <= 0x8F)) then 4
    else 0
  }

  predicate IsUtf8(s: Bytes)
    decreases |s|
  {
    s == [] || (CharLength(s) > 0 && IsUtf8(s[CharLength(s)..]))
  }

  // ---- The same by code points ----

  /** Unicode scalar values: code points without the surrogates. */
  predicate IsScalar(c: nat) {
    c <= 0x10FFFF && !(0xD800 <= c <= 0xDFFF)
  }

  /** The encoding of a scalar value: its bits in groups of six, by the table of section 3 of RFC 3629. */
  function EncodeScalar(c: nat): Bytes
    requires IsScalar(c)
  {
    if c < 0x80 then [c]
    else if c < 0x800 then [0xC0 + c / 64, 0x80 + c % 64]
    else if c < 0x1_0000 then [0xE0 + c / 4096, 0x80 + c / 64 % 64, 0x80 + c % 64]
    else [0xF0 + c / 262144, 0x80 + c / 4096 % 64, 0x80 + c / 64 % 64, 0x80 + c % 64]
  }

  predicate AllScalars(cs: seq<nat>) {
    forall i | 0 <= i < |cs| :: IsScalar(cs[i])
  }

  function EncodeScalars(cs: seq<nat>): Bytes
    requires AllScalars(cs)
  {
    if cs == [] then [] else EncodeScalar(cs[0]) + EncodeScalars(cs[1..])
  }

  /** Two, three and four bytes with the payload bits `a`, `b`, `d`, `e` are one character if that is not overlong. */
  lemma TwoBytes(a: nat, b: nat, rest: Bytes)
    requires a < 32 && b < 64
    ensures CharLength([0xC0 + a, 0x80 + b] + rest) == 2 <==> 0x80 <= a * 64 + b
  {
    var s: Bytes := [0xC0 + a, 0x80 + b] + rest;
    assert s[0] == 0xC0 + a && s[1] == 0x80 + b;
  }

  lemma ThreeBytes(a: nat, b: nat, d: nat, rest: Bytes)
    requires a < 16 && b < 64 && d < 64
    ensures var c := a * 4096 + b * 64 + d;
            CharLength([0xE0 + a, 0x80 + b, 0x80 + d] + rest) == 3 <==> 0x800 <= c && IsScalar(c)
  {
    var s: Bytes := [0xE0 + a, 0x80 + b, 0x80 + d] + rest;
    assert s[0] == 0xE0 + a && s[1] == 0x80 + b && s[2] == 0x80 + d;
  }

  lemma FourBytes(a: nat, b: nat, d: nat, e: nat, rest: Bytes)
    requires a < 8 && b < 64 && d < 64 && e < 64
    ensures var c := a * 262144 + b * 4096 + d * 64 + e;
            CharLength([0xF0 + a, 0x80 + b, 0x80 + d, 0x80 + e] + rest) == 4 <==> 0x1_0000 <= c && IsScalar(c)
  {
    var s: Bytes := [0xF0 + a, 0x80 + b, 0x80 + d, 0x80 + e] + rest;
    assert s[0] == 0xF0 + a && s[1] == 0x80 + b && s[2] == 0x80 + d && s[3] == 0x80 + e;
  }

  lemma Div64(q: nat, r: nat)
    requires r < 64
    ensures (64 * q + r) / 64 == q && (64 * q + r) % 64 == r
  {
  }

  lemma Div4096(q: nat, r: nat)
    requires r < 4096
    ensures (4096 * q + r) / 4096 == q && (4096 * q + r) % 4096 == r
  {
  }

  lemma Div262144(q: nat, r: nat)
    requires r < 262144
    ensures (262144 * q + r) / 262144 == q && (262144 * q + r) % 262144 == r
  {
  }

  /** The groups of six bits of a number. */
  lemma SixBits(a: nat, b: nat, d: nat, e: nat)
    requires b < 64 && d < 64 && e < 64
    ensures var c := a * 262144 + b * 4096 + d * 64 + e;
            && c % 64 == e && c / 64 == a * 4096 + b * 64 + d && c / 64 % 64 == d
            && c / 4096 == a * 64 + b && c / 4096 % 64 == b && c / 262144 == a
  {
    Div64(a * 4096 + b * 64 + d, e);
    Div64(a * 64 + b, d);
    Div64(a, b);
    Div4096(a * 64 + b, d * 64 + e);
    Div262144(a, b * 4096 + d * 64 + e);
  }

  lemma Split(c: nat)
    ensures c == c / 262144 * 262144 + c / 4096 % 64 * 4096 + c / 64 % 64 * 64 + c % 64
    ensures c / 64 == c / 262144 * 4096 + c / 4096 % 64 * 64 + c / 64 % 64
    ensures c / 4096 == c / 262144 * 64 + c / 4096 % 64
  {
    var e, c1 := c % 64, c / 64;
    var d, c2 := c1 % 64, c1 / 64;
    SixBits(c2 / 64, c2 % 64, d, e);
  }

  /** An encoded scalar value is read as one character. */
  lemma ScalarIsChar(c: nat, rest: Bytes)
    requires IsScalar(c)
    ensures CharLength(EncodeScalar(c) + rest) == |EncodeScalar(c)| > 0
  {
    Split(c);
    hide CharLength;
    if c < 0x80 {
      OneByte(c, rest);
    } else if c < 0x800 {
      TwoBytes(c / 64, c % 64, rest);
    } else if c < 0x1_0000 {
      ThreeBytes(c / 4096, c / 64 % 64, c % 64, rest);
    } else {
      FourBytes(c / 262144, c / 4096 % 64, c / 64 % 64, c % 64, rest);
    }
  }

  lemma OneByte(c: nat, rest: Bytes)
    requires c < 0x80
    ensures CharLength([c] + rest) == 1
  {
  }

  /** What can stand at the front of a character. */
  lemma LeadBytes(s: Bytes)
    ensures CharLength(s) == 1 ==> s[0] < 0x80
    ensures CharLength(s) == 2 ==> 0xC0 <= s[0] < 0xE0 && IsTail(s[1])
    ensures CharLength(s) == 3 ==> 0xE0 <= s[0] < 0xF0 && IsTail(s[1]) && IsTail(s[2])
    ensures CharLength(s) == 4 ==> 0xF0 <= s[0] < 0xF8 && IsTail(s[1]) && IsTail(s[2]) && IsTail(s[3])
  {
  }

  /** Each character that is read encodes a scalar value. */
  lemma CharIsScalar(s: Bytes) returns (c: nat)
    requires CharLength(s) > 0
    ensures IsScalar(c) && EncodeScalar(c) == s[..CharLength(s)]
  {
    LeadBytes(s);
    hide CharLength;
    var n := CharLength(s);
    if n == 1 {
      c := s[0];
    } else if n == 2 {
      var a: int, b: int := s[0] - 0xC0, s[1] - 0x80;
      c := a * 64 + b;
      assert s == [0xC0 + a, 0x80 + b] + s[2..];
      TwoBytes(a, b, s[2..]);
      SixBits(0, 0, a, b);
    } else if n == 3 {
      var a: int, b: int, d: int := s[0] - 0xE0, s[1] - 0x80, s[2] - 0x80;
      c := a * 4096 + b * 64 + d;
      assert s == [0xE0 + a, 0x80 + b, 0x80 + d] + s[3..];
      ThreeBytes(a, b, d, s[3..]);
      SixBits(0, a, b, d);
    } else {
      var a: int, b: int, d: int, e: int := s[0] - 0xF0, s[1] - 0x80, s[2] - 0x80, s[3] - 0x80;
      c := a * 262144 + b * 4096 + d * 64 + e;
      assert s == [0xF0 + a, 0x80 + b, 0x80 + d, 0x80 + e] + s[4..];
      FourBytes(a, b, d, e, s[4..]);
      SixBits(a, b, d, e);
    }
  }

  lemma {:induction false} EncodedIsUtf8(cs: seq<nat>)
    requires AllScalars(cs)
    ensures IsUtf8(EncodeScalars(cs))
    decreases |cs|
  {
    hide CharLength, IsScalar, EncodeScalar;
    if cs != [] {
      var first, rest := EncodeScalar(cs[0]), EncodeScalars(cs[1..]);
      ScalarIsChar(cs[0], rest);
      assert (first + rest)[|first|..] == rest;
      EncodedIsUtf8(cs[1..]);
    }
  }

  lemma {:induction false} Utf8IsEncoded(s: Bytes) returns (cs: seq<nat>)
    requires IsUtf8(s)
    ensures AllScalars(cs) && EncodeScalars(cs) == s
    decreases |s|
  {
    hide CharLength, IsScalar, EncodeScalar;
    if s == [] {
      cs := [];
    } else {
      var n := CharLength(s);
      var c := CharIsScalar(s);
      var rest := Utf8IsEncoded(s[n..]);
      cs := [c] + rest;
      assert cs[1..] == rest && s == s[..n] + s[n..];
    }
  }

  /** The bytes are the encodings of some sequence of scalar values, one after the other. */
  ghost predicate EncodesText(s: Bytes) {
    exists cs: seq<nat> :: AllScalars(cs) && EncodeScalars(cs) == s
  }

  /** Valid UTF-8 is exactly what encodes some sequence of scalar values. */
  lemma Utf8Meaning(s: Bytes)
    ensures IsUtf8(s) <==> EncodesText(s)
  {
    if IsUtf8(s) {
      var cs := Utf8IsEncoded(s);
    }
    forall cs: seq<nat> | AllScalars(cs) && EncodeScalars(cs) == s ensures IsUtf8(s) {
      EncodedIsUtf8(cs);
    }
  }
}
