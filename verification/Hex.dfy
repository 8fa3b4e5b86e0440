/** Hexadecimal text and bytes: `from_hex` and the stream printer (base 16 of section 8 of RFC 4648, lower case). */
module Hex {
  import opened Options
  import opened WireFormat

  // ---- Decoding ----

  function DecodeHexDigit(ch: char): (d: Option<nat>)
    ensures d.Some? ==> d.value < 16
  {
    if '0' <= ch <= '9' then Some((ch - '0') as nat)
    else if 'a' <= ch <= 'f' then Some((ch - 'a') as nat + 10)
    else if 'A' <= ch <= 'F' then Some((ch - 'A') as nat + 10)
    else None
  }

  predicate IsHex(s: string) {
    forall i | 0 <= i < |s| :: DecodeHexDigit(s[i]).Some?
  }

  predicate HasPrefix(s: string) {
    |s| >= 2 && s[0] == '0' && (s[1] == 'x' || s[1] == 'X')
  }

  /** The text without one optional 0x or 0X. */
  function Strip(s: string): string {
    if HasPrefix(s) then s[2..] else s
  }

  /** The text `from_hex` accepts. */
  predicate Accepts(s: string) {
    |Strip(s)| % 2 == 0 && IsHex(Strip(s))
  }

  /** The bytes of an even run of digits, two digits a byte. */
  function BytesOf(s: string): (b: Bytes)
    requires |s| % 2 == 0 && IsHex(s)
    ensures |b| == |s| / 2
    ensures forall i | 0 <= i < |b| :: b[i] == 16 * DecodeHexDigit(s[2 * i]).value + DecodeHexDigit(s[2 * i + 1]).value
  {
    seq(|s| / 2, i requires 0 <= i < |s| / 2 =>
      16 * DecodeHexDigit(s[2 * i]).value + DecodeHexDigit(s[2 * i + 1]).value)
  }

  /** The bitwise or of two unsigned values. */
  function BitOr(a: nat, b: nat): nat
    decreases a + b
  {
    if a == 0 && b == 0 then 0
    else (if a % 2 == 1 || b % 2 == 1 then 1 else 0) + 2 * BitOr(a / 2, b / 2)
  }

  lemma {:induction false} BitOrZero(a: nat)
    ensures BitOr(a, 0) == a
  {
    if a > 0 { BitOrZero(a / 2); }
  }

  lemma OrShifted(a: nat, b: nat)
    requires BitOr(a, b / 2) == a + b / 2
    ensures BitOr(2 * a, b) == 2 * a + b
  {
    assert 2 * a / 2 == a && 2 * a % 2 == 0;
  }

  /** The low four bits of a shifted digit are free for the next one. */
  lemma OrIsPlus(high: nat, low: nat)
    requires low < 16
    ensures BitOr(16 * high, low) == 16 * high + low
  {
    hide BitOr;
    BitOrZero(high);
    OrShifted(high, low / 8);
    OrShifted(2 * high, low / 4);
    OrShifted(4 * high, low / 2);
    OrShifted(8 * high, low);
  }

  predicate IsDigitChar(ch: char) {
    '0' <= ch <= '9' || 'a' <= ch <= 'f' || 'A' <= ch <= 'F'
  }

  /** The text after one optional 0x or 0X. */
  function DigitsOf(text: string): string {
    if |text| >= 2 && (text[..2] == "0x" || text[..2] == "0X") then text[2..] else text
  }

  /** Characters from 0 to 9, a to f or A to F, an even number of them, after one optional 0x or 0X. */
  predicate IsHexText(text: string) {
    |DigitsOf(text)| % 2 == 0 && forall i | 0 <= i < |DigitsOf(text)| :: IsDigitChar(DigitsOf(text)[i])
  }

  lemma StripsDigits(text: string)
    ensures Strip(text) == DigitsOf(text)
  {
    if |text| >= 2 { assert text[..2] == [text[0], text[1]]; }
  }

  lemma DecodesDigitChars(ch: char)
    ensures DecodeHexDigit(ch).Some? <==> IsDigitChar(ch)
  {
  }

  /** Acceptance, in characters. */
  lemma AcceptsCharacters(text: string)
    ensures Accepts(text) <==> IsHexText(text)
  {
    hide Strip, DigitsOf, DecodeHexDigit, IsDigitChar;
    StripsDigits(text);
    var s := Strip(text);
    forall i | 0 <= i < |s| ensures DecodeHexDigit(s[i]).Some? <==> IsDigitChar(s[i]) { DecodesDigitChars(s[i]); }
    assert IsHex(s) <==> forall i | 0 <= i < |s| :: IsDigitChar(s[i]);
  }

  /** The character stands for the number, in lower or upper case. */
  predicate IsDigit(ch: char, d: nat) {
    d < 16 && (ch == "0123456789abcdef"[d] || ch == "0123456789ABCDEF"[d])
  }

  /** Two characters for each byte, the high digit first. */
  predicate ReadsAs(digits: string, bytes: Bytes) {
    && |digits| == 2 * |bytes|
    && forall i | 0 <= i < |bytes| :: IsDigit(digits[2 * i], bytes[i] / 16) && IsDigit(digits[2 * i + 1], bytes[i] % 16)
  }

  lemma DigitValue(ch: char)
    ensures DecodeHexDigit(ch).Some? ==> IsDigit(ch, DecodeHexDigit(ch).value)
  {
  }

  /** The decoded bytes, in characters. */
  lemma DecodesCharacters(text: string)
    requires Accepts(text)
    ensures ReadsAs(DigitsOf(text), BytesOf(Strip(text)))
  {
    hide Strip, DigitsOf, DecodeHexDigit, IsDigit, BytesOf;
    StripsDigits(text);
    var s, bytes := Strip(text), BytesOf(Strip(text));
    forall i | 0 <= i < |bytes| ensures IsDigit(s[2 * i], bytes[i] / 16) && IsDigit(s[2 * i + 1], bytes[i] % 16) {
      DigitValue(s[2 * i]);
      DigitValue(s[2 * i + 1]);
      var high, low := DecodeHexDigit(s[2 * i]).value, DecodeHexDigit(s[2 * i + 1]).value;
      assert bytes[i] / 16 == high && bytes[i] % 16 == low;
    }
  }

  lemma Stripped(text: string, hex: string)
    requires hex == if HasPrefix(text) then text[2..] else text
    ensures hex == Strip(text)
  {
  }

  /** The first `i` characters are read into `bytes`, and a last odd one into `carry`, shifted. */
  ghost predicate ReadSoFar(hex: string, i: nat, bytes: Bytes, carry: nat) {
    && i <= |hex| && |bytes| == i / 2
    && (forall j | 0 <= j < i :: DecodeHexDigit(hex[j]).Some?)
    && (forall j | 0 <= j < i / 2 ::
          bytes[j] == 16 * DecodeHexDigit(hex[2 * j]).value + DecodeHexDigit(hex[2 * j + 1]).value)
    && (i % 2 == 1 ==> carry == 16 * DecodeHexDigit(hex[i - 1]).value)
  }

  lemma NothingRead(hex: string)
    ensures ReadSoFar(hex, 0, [], 0)
  {
  }

  lemma HighDigit(hex: string, i: nat, bytes: Bytes, carry: nat, v: nat)
    requires ReadSoFar(hex, i, bytes, carry) && i < |hex| && i % 2 == 0 && DecodeHexDigit(hex[i]) == Some(v)
    ensures ReadSoFar(hex, i + 1, bytes, v * 16)
  {
  }

  lemma LowDigit(hex: string, i: nat, bytes: Bytes, carry: nat, v: nat)
    requires ReadSoFar(hex, i, bytes, carry) && i < |hex| && i % 2 == 1 && DecodeHexDigit(hex[i]) == Some(v)
    ensures BitOr(carry, v) < 256 && ReadSoFar(hex, i + 1, bytes + [BitOr(carry, v)], carry)
  {
    hide BitOr, DecodeHexDigit;
    var high := DecodeHexDigit(hex[i - 1]).value;
    OrIsPlus(high, v);
    var bytes' := bytes + [BitOr(carry, v)];
    assert 2 * (i / 2) == i - 1 && (i + 1) / 2 == i / 2 + 1;
    forall j | 0 <= j < (i + 1) / 2
      ensures bytes'[j] == 16 * DecodeHexDigit(hex[2 * j]).value + DecodeHexDigit(hex[2 * j + 1]).value
    {
      if j == i / 2 { assert bytes'[j] == 16 * high + v; }
    }
  }

  lemma AllRead(hex: string, bytes: Bytes, carry: nat)
    requires ReadSoFar(hex, |hex|, bytes, carry) && |hex| % 2 == 0
    ensures IsHex(hex) && BytesOf(hex) == bytes
  {
    hide DecodeHexDigit;
  }

  /** `carry` holds the high digit, shifted, until the low digit of the same byte arrives. */
  method FromHex(text: string) returns (out: Option<Bytes>)
    ensures out.Some? <==> IsHexText(text)
    ensures out.Some? ==> ReadsAs(DigitsOf(text), out.value)
    ensures out.Some? <==> Accepts(text)
    ensures out.Some? ==> out.value == BytesOf(Strip(text))
  {
    hide BitOr, DecodeHexDigit, BytesOf, IsHexText, ReadsAs, DigitsOf, Strip, ReadSoFar;
    AcceptsCharacters(text);
    var hex := text;
    if |hex| >= 2 && hex[0] == '0' && (hex[1] == 'x' || hex[1] == 'X') {
      hex := hex[2..];
    }
    Stripped(text, hex);
    if |hex| % 2 != 0 { return None; }
    var bytes: Bytes := [];
    var carry: nat := 0;
    NothingRead(hex);
    for i := 0 to |hex|
      invariant ReadSoFar(hex, i, bytes, carry)
    {
      var v := DecodeHexDigit(hex[i]);
      if v.None? { return None; }
      if i % 2 == 0 {
        HighDigit(hex, i, bytes, carry, v.value);
        carry := v.value * 16;
      } else {
        LowDigit(hex, i, bytes, carry, v.value);
        bytes := bytes + [BitOr(carry, v.value)];
      }
    }
    AllRead(hex, bytes, carry);
    DecodesCharacters(text);
    out := Some(bytes);
  }

  // ---- Printing ----

  function Digit(d: nat): (ch: char)
    requires d < 16
  {
    if d < 10 then '0' + d as char else 'a' + (d - 10) as char
  }

  /** An integer under `std::hex`: no leading zeros. */
  function HexOf(n: nat): string {
    if n < 16 then [Digit(n)] else HexOf(n / 16) + [Digit(n % 16)]
  }

  /** `std::setw(width)` with `std::setfill('0')`. */
  function PadLeft(s: string, width: nat): string
    decreases width - |s|
  {
    if |s| >= width then s else PadLeft(['0'] + s, width)
  }

  function PrintByte(b: Byte): string {
    PadLeft(HexOf(b), 2)
  }

  function Print(bytes: Bytes): string {
    if bytes == [] then [] else PrintByte(bytes[0]) + Print(bytes[1..])
  }

  method Write(stream: string, bytes: Bytes) returns (out: string)
    ensures out == stream + Print(bytes)
  {
    out := stream;
    for i := 0 to |bytes|
      invariant out + Print(bytes[i..]) == stream + Print(bytes)
    {
      assert bytes[i..][1..] == bytes[i + 1..];
      out := out + PadLeft(HexOf(bytes[i]), 2);
    }
  }

  // ---- The two are inverse ----

  lemma DigitRoundTrip(d: nat)
    requires d < 16
    ensures DecodeHexDigit(Digit(d)) == Some(d)
    ensures Digit(d) != 'x' && Digit(d) != 'X'
  {
  }

  /** A byte always prints as exactly two digits. */
  lemma PrintByteDigits(b: Byte)
    ensures PrintByte(b) == [Digit(b / 16), Digit(b % 16)]
  {
    if b < 16 {
      assert HexOf(b) == [Digit(b)];
      assert PadLeft(HexOf(b), 2) == PadLeft(['0'] + HexOf(b), 2);
    } else {
      assert HexOf(b / 16) == [Digit(b / 16)];
    }
  }

  lemma {:induction false} PrintAt(bytes: Bytes)
    ensures |Print(bytes)| == 2 * |bytes|
    ensures forall i | 0 <= i < |bytes| ::
              Print(bytes)[2 * i] == Digit(bytes[i] / 16) && Print(bytes)[2 * i + 1] == Digit(bytes[i] % 16)
  {
    if bytes != [] {
      PrintByteDigits(bytes[0]);
      PrintAt(bytes[1..]);
      forall i | 0 <= i < |bytes|
        ensures Print(bytes)[2 * i] == Digit(bytes[i] / 16) && Print(bytes)[2 * i + 1] == Digit(bytes[i] % 16)
      {
        if i > 0 {
          assert Print(bytes)[2 * i] == Print(bytes[1..])[2 * (i - 1)];
          assert Print(bytes)[2 * i + 1] == Print(bytes[1..])[2 * (i - 1) + 1];
        }
      }
    }
  }

  lemma DigitSpelledOut(d: nat)
    requires d < 16
    ensures Digit(d) == "0123456789abcdef"[d]
  {
  }

  /** The printed form, digit by digit. */
  lemma PrintSpelledOut(bytes: Bytes)
    ensures |Print(bytes)| == 2 * |bytes|
    ensures forall i | 0 <= i < |bytes| ::
              && Print(bytes)[2 * i] == "0123456789abcdef"[bytes[i] / 16]
              && Print(bytes)[2 * i + 1] == "0123456789abcdef"[bytes[i] % 16]
  {
    hide Print, Digit;
    PrintAt(bytes);
    forall i | 0 <= i < |bytes|
      ensures Print(bytes)[2 * i] == "0123456789abcdef"[bytes[i] / 16]
      ensures Print(bytes)[2 * i + 1] == "0123456789abcdef"[bytes[i] % 16]
    {
      DigitSpelledOut(bytes[i] / 16);
      DigitSpelledOut(bytes[i] % 16);
    }
  }

  lemma PrintIsHex(bytes: Bytes)
    ensures IsHex(Print(bytes)) && !HasPrefix(Print(bytes))
  {
    PrintAt(bytes);
    forall k | 0 <= k < |Print(bytes)|
      ensures DecodeHexDigit(Print(bytes)[k]).Some? && Print(bytes)[k] != 'x' && Print(bytes)[k] != 'X'
    {
      var i := k / 2;
      DigitRoundTrip(bytes[i] / 16);
      DigitRoundTrip(bytes[i] % 16);
      assert k == 2 * i || k == 2 * i + 1;
    }
  }

  lemma PrintDecodes(bytes: Bytes)
    ensures |Print(bytes)| % 2 == 0 && IsHex(Print(bytes)) && !HasPrefix(Print(bytes))
    ensures BytesOf(Print(bytes)) == bytes
  {
    hide Print, DecodeHexDigit, Digit;
    PrintAt(bytes);
    PrintIsHex(bytes);
    forall i | 0 <= i < |bytes| ensures BytesOf(Print(bytes))[i] == bytes[i] {
      DigitRoundTrip(bytes[i] / 16);
      DigitRoundTrip(bytes[i] % 16);
      assert DecodeHexDigit(Print(bytes)[2 * i]) == Some(bytes[i] / 16);
      assert DecodeHexDigit(Print(bytes)[2 * i + 1]) == Some(bytes[i] % 16);
    }
  }

  /** Reading what was printed gives the bytes back, with or without a 0x or 0X in front. */
  lemma HexRoundTrip(bytes: Bytes, prefix: string)
    requires prefix == "" || prefix == "0x" || prefix == "0X"
    ensures Accepts(prefix + Print(bytes))
    ensures BytesOf(Strip(prefix + Print(bytes))) == bytes
  {
    hide IsHex, BytesOf, Print;
    PrintDecodes(bytes);
    assert Strip(prefix + Print(bytes)) == Print(bytes);
  }

  function LowerChar(ch: char): char {
    if 'A' <= ch <= 'F' then 'a' + (ch - 'A') else ch
  }

  function Lower(s: string): string {
    seq(|s|, i requires 0 <= i < |s| => LowerChar(s[i]))
  }

  lemma DigitOfDecoded(ch: char)
    requires DecodeHexDigit(ch).Some?
    ensures Digit(DecodeHexDigit(ch).value) == LowerChar(ch)
  {
  }

  /** Printing what was read gives the stripped text in lower case. */
  lemma PrintOfDecoded(text: string)
    requires Accepts(text)
    ensures Print(BytesOf(Strip(text))) == Lower(Strip(text))
  {
    hide Print, DecodeHexDigit, Digit, LowerChar, BytesOf;
    var s, bytes := Strip(text), BytesOf(Strip(text));
    PrintAt(bytes);
    forall k | 0 <= k < |s| ensures Print(bytes)[k] == Lower(s)[k] {
      var i := k / 2;
      DigitOfDecoded(s[2 * i]);
      DigitOfDecoded(s[2 * i + 1]);
      var high, low := DecodeHexDigit(s[2 * i]).value, DecodeHexDigit(s[2 * i + 1]).value;
      assert bytes[i] / 16 == high && bytes[i] % 16 == low;
      assert k == 2 * i || k == 2 * i + 1;
    }
  }

  /** Two accepted texts decode alike exactly when they agree up to prefix and case. */
  lemma DecodesAlike(a: string, b: string)
    requires Accepts(a) && Accepts(b)
    ensures BytesOf(Strip(a)) == BytesOf(Strip(b)) <==> Lower(Strip(a)) == Lower(Strip(b))
  {
    hide Print, BytesOf, Lower, Strip, IsHex;
    assert Accepts(a) && Accepts(b);
    PrintOfDecoded(a);
    PrintOfDecoded(b);
    PrintDecodes(BytesOf(Strip(a)));
    PrintDecodes(BytesOf(Strip(b)));
  }
}
