/**
 * `bytes.decode()` with Python's default codec: strict UTF-8, which accepts
 * exactly the well-formed byte sequences of Table 3-7 of the Unicode
 * Standard (no overlong forms, no surrogates, nothing above U+10FFFF) and
 * raises on anything else. The encoder is its inverse.
 */
module Utf8 {
  import opened Wrappers

  type byte = x: int | 0 <= x < 256

  predicate InRange(b: byte, lo: int, hi: int) {
    lo <= b <= hi
  }

  /** A continuation byte 10xxxxxx. */
  predicate IsContinuation(b: byte) {
    InRange(b, 0x80, 0xBF)
  }

  function CodePoint2(x0: int, x1: int): int {
    (x0 - 0xC0) * 0x40 + (x1 - 0x80)
  }

  function CodePoint3(x0: int, x1: int, x2: int): int {
    (x0 - 0xE0) * 0x1000 + (x1 - 0x80) * 0x40 + (x2 - 0x80)
  }

  function CodePoint4(x0: int, x1: int, x2: int, x3: int): int {
    (x0 - 0xF0) * 0x40000 + (x1 - 0x80) * 0x1000 + (x2 - 0x80) * 0x40 + (x3 - 0x80)
  }

  /** The character that the well-formed sequence at the start of `b` encodes, and that sequence's length. */
  function DecodeFirst(b: seq<byte>): (r: Option<(char, nat)>)
    requires |b| > 0
    ensures r.Some? ==> 1 <= r.value.1 <= |b| && r.value.1 <= 4
  {
    var b0 := b[0];
    if b0 < 0x80 then
      Some((b0 as char, 1))
    else if InRange(b0, 0xC2, 0xDF) then
      if |b| >= 2 && IsContinuation(b[1]) then
        Some((CodePoint2(b0, b[1]) as char, 2))
      else None
    else if InRange(b0, 0xE0, 0xEF) then
      var lo := if b0 == 0xE0 then 0xA0 else 0x80;
      var hi := if b0 == 0xED then 0x9F else 0xBF;
      if |b| >= 3 && InRange(b[1], lo, hi) && IsContinuation(b[2]) then
        Some((CodePoint3(b0, b[1], b[2]) as char, 3))
      else None
    else if InRange(b0, 0xF0, 0xF4) then
      var lo := if b0 == 0xF0 then 0x90 else 0x80;
      var hi := if b0 == 0xF4 then 0x8F else 0xBF;
      if |b| >= 4 && InRange(b[1], lo, hi) && IsContinuation(b[2]) && IsContinuation(b[3]) then
        Some((CodePoint4(b0, b[1], b[2], b[3]) as char, 4))
      else None
    else
      None
  }

  /** `b.decode()`: the decoded text, or `None` where Python raises `UnicodeDecodeError`. */
  function Decode(b: seq<byte>): (r: Option<string>)
    ensures r.Some? ==> |r.value| <= |b| <= 4 * |r.value|
    decreases |b|
  {
    if b == [] then Some([])
    else
      var first :- DecodeFirst(b);
      var rest :- Decode(b[first.1..]);
      Some([first.0] + rest)
  }

  /** The UTF-8 form of one character. */
  function EncodeChar(c: char): (e: seq<byte>)
    ensures 1 <= |e| <= 4
  {
    var cp := c as int;
    if cp < 0x80 then [cp]
    else if cp < 0x800 then [0xC0 + cp / 0x40, 0x80 + cp % 0x40]
    else if cp < 0x10000 then [0xE0 + cp / 0x1000, 0x80 + cp / 0x40 % 0x40, 0x80 + cp % 0x40]
    else [0xF0 + cp / 0x40000, 0x80 + cp / 0x1000 % 0x40, 0x80 + cp / 0x40 % 0x40, 0x80 + cp % 0x40]
  }

  /** `s.encode()`. */
  function Encode(s: string): seq<byte> {
    if s == [] then [] else EncodeChar(s[0]) + Encode(s[1..])
  }

  lemma TwoByteForm(cp: int)
    requires 0x80 <= cp < 0x800
    ensures var x0, x1 := 0xC0 + cp / 0x40, 0x80 + cp % 0x40;
      0xC2 <= x0 <= 0xDF && 0x80 <= x1 <= 0xBF && CodePoint2(x0, x1) == cp
  {
  }

  lemma ThreeByteForm(cp: int)
    requires 0x800 <= cp < 0xD800 || 0xE000 <= cp < 0x10000
    ensures var x0, x1, x2 := 0xE0 + cp / 0x1000, 0x80 + cp / 0x40 % 0x40, 0x80 + cp % 0x40;
      0xE0 <= x0 <= 0xEF && 0x80 <= x2 <= 0xBF &&
      (if x0 == 0xE0 then 0xA0 else 0x80) <= x1 <= (if x0 == 0xED then 0x9F else 0xBF) &&
      CodePoint3(x0, x1, x2) == cp
  {
    var q1 := cp / 0x40;
    assert cp == q1 * 0x40 + cp % 0x40;
    assert q1 == cp / 0x1000 * 0x40 + q1 % 0x40;
  }

  lemma FourByteForm(cp: int)
    requires 0x10000 <= cp < 0x110000
    ensures var x0, x1, x2, x3 := 0xF0 + cp / 0x40000, 0x80 + cp / 0x1000 % 0x40, 0x80 + cp / 0x40 % 0x40, 0x80 + cp % 0x40;
      0xF0 <= x0 <= 0xF4 && 0x80 <= x2 <= 0xBF && 0x80 <= x3 <= 0xBF &&
      (if x0 == 0xF0 then 0x90 else 0x80) <= x1 <= (if x0 == 0xF4 then 0x8F else 0xBF) &&
      CodePoint4(x0, x1, x2, x3) == cp
  {
    var q1 := cp / 0x40;
    var q2 := cp / 0x1000;
    assert cp == q1 * 0x40 + cp % 0x40;
    assert q1 == q2 * 0x40 + q1 % 0x40;
    assert q2 == cp / 0x40000 * 0x40 + q2 % 0x40;
  }

  /** The decoder reads back exactly the one character the encoder wrote, whatever follows it. */
  lemma DecodeFirstEncodeChar(c: char, rest: seq<byte>)
    ensures DecodeFirst(EncodeChar(c) + rest) == Some((c, |EncodeChar(c)|))
  {
    var cp := c as int;
    var b := EncodeChar(c) + rest;
    if cp < 0x80 {
    } else if cp < 0x800 {
      TwoByteForm(cp);
      assert b[..2] == EncodeChar(c);
    } else if cp < 0x10000 {
      ThreeByteForm(cp);
      assert b[..3] == EncodeChar(c);
    } else {
      FourByteForm(cp);
      assert b[..4] == EncodeChar(c);
    }
  }

  /** Round trip: decoding what the encoder wrote gives back the text. */
  lemma {:induction false} DecodeEncode(s: string)
    ensures Decode(Encode(s)) == Some(s)
  {
    if s != [] {
      var e := EncodeChar(s[0]);
      DecodeFirstEncodeChar(s[0], Encode(s[1..]));
      assert (e + Encode(s[1..]))[|e|..] == Encode(s[1..]);
      DecodeEncode(s[1..]);
      assert s == [s[0]] + s[1..];
    }
  }

  lemma TwoByteCode(x0: int, x1: int)
    requires 0xC2 <= x0 <= 0xDF && 0x80 <= x1 <= 0xBF
    ensures var cp := CodePoint2(x0, x1);
      0x80 <= cp < 0x800 && 0xC0 + cp / 0x40 == x0 && 0x80 + cp % 0x40 == x1
  {
  }

  lemma ThreeByteCode(x0: int, x1: int, x2: int)
    requires 0xE0 <= x0 <= 0xEF && 0x80 <= x2 <= 0xBF
    requires (if x0 == 0xE0 then 0xA0 else 0x80) <= x1 <= (if x0 == 0xED then 0x9F else 0xBF)
    ensures var cp := CodePoint3(x0, x1, x2);
      0x800 <= cp < 0x10000 &&
      0xE0 + cp / 0x1000 == x0 && 0x80 + cp / 0x40 % 0x40 == x1 && 0x80 + cp % 0x40 == x2
  {
    var cp := CodePoint3(x0, x1, x2);
    var q1 := (x0 - 0xE0) * 0x40 + (x1 - 0x80);
    assert cp == q1 * 0x40 + (x2 - 0x80);
    assert cp / 0x40 == q1;
    assert cp / 0x1000 == q1 / 0x40;
  }

  lemma FourByteCode(x0: int, x1: int, x2: int, x3: int)
    requires 0xF0 <= x0 <= 0xF4 && 0x80 <= x2 <= 0xBF && 0x80 <= x3 <= 0xBF
    requires (if x0 == 0xF0 then 0x90 else 0x80) <= x1 <= (if x0 == 0xF4 then 0x8F else 0xBF)
    ensures var cp := CodePoint4(x0, x1, x2, x3);
      0x10000 <= cp < 0x110000 && 0xF0 + cp / 0x40000 == x0 &&
      0x80 + cp / 0x1000 % 0x40 == x1 && 0x80 + cp / 0x40 % 0x40 == x2 && 0x80 + cp % 0x40 == x3
  {
    var cp := CodePoint4(x0, x1, x2, x3);
    var q2 := (x0 - 0xF0) * 0x40 + (x1 - 0x80);
    var q1 := q2 * 0x40 + (x2 - 0x80);
    assert cp == q1 * 0x40 + (x3 - 0x80);
    assert cp / 0x40 == q1;
    assert cp / 0x1000 == q1 / 0x40 == q2;
    assert cp / 0x40000 == q2 / 0x40;
  }

  /** The encoder writes back exactly the bytes the decoder consumed for one character. */
  lemma EncodeCharDecodeFirst(b: seq<byte>)
    requires |b| > 0 && DecodeFirst(b).Some?
    ensures EncodeChar(DecodeFirst(b).value.0) == b[..DecodeFirst(b).value.1]
  {
    var b0 := b[0];
    if b0 < 0x80 {
    } else if InRange(b0, 0xC2, 0xDF) {
      TwoByteCode(b0, b[1]);
    } else if InRange(b0, 0xE0, 0xEF) {
      ThreeByteCode(b0, b[1], b[2]);
    } else {
      FourByteCode(b0, b[1], b[2], b[3]);
    }
  }

  /** One step of the decoder: the first character, then the rest. */
  lemma DecodeStep(b: seq<byte>)
    requires b != [] && Decode(b).Some?
    ensures DecodeFirst(b).Some?
    ensures var n := DecodeFirst(b).value.1;
      Decode(b[n..]).Some? && Decode(b).value == [DecodeFirst(b).value.0] + Decode(b[n..]).value
  {
  }

  /** Round trip the other way: bytes the decoder accepts are exactly the encoding of what it returns. */
  lemma {:induction false} EncodeDecode(b: seq<byte>)
    requires Decode(b).Some?
    ensures Encode(Decode(b).value) == b
  {
    if b != [] {
      DecodeStep(b);
      var first := DecodeFirst(b).value;
      EncodeCharDecodeFirst(b);
      EncodeDecode(b[first.1..]);
      EncodeCons(first.0, Decode(b[first.1..]).value, b, first.1);
    }
  }

  /** Encoding a character and then a text: the character's bytes, then the text's. */
  lemma EncodeCons(c: char, t: string, b: seq<byte>, n: nat)
    requires n <= |b| && EncodeChar(c) == b[..n] && Encode(t) == b[n..]
    ensures Encode([c] + t) == b
  {
    assert ([c] + t)[1..] == t;
    assert b == b[..n] + b[n..];
  }

  /** Bytes below 0x80 decode one to one into the characters with the same code. */
  lemma {:induction false} DecodeAscii(b: seq<byte>)
    requires forall i :: 0 <= i < |b| ==> b[i] < 0x80
    ensures Decode(b).Some?
    ensures |Decode(b).value| == |b|
    ensures forall i :: 0 <= i < |b| ==> Decode(b).value[i] as int == b[i]
  {
    if b != [] {
      DecodeAscii(b[1..]);
    }
  }
}
