/**
  UTF-8 as defined in section 3 of RFC 3629: `str.encode()` and the strict
  `bytes.decode()` that the base64 operations wrap around.
 */
module Utf8 {
  import opened Outcomes

  type uint8 = x: int | 0 <= x < 256

  predicate IsContinuation(b: uint8) {
    0x80 <= b < 0xC0
  }

  /** The encoding of one scalar value: 1 to 4 bytes, by the ranges in section 3 of RFC 3629. */
  function EncodeChar(c: char): (bs: seq<uint8>)
    ensures 1 <= |bs| <= 4
  {
    var cp := c as int;
    if cp < 0x80 then [cp]
    else if cp < 0x800 then [0xC0 + cp / 64, 0x80 + cp % 64]
    else if cp < 0x10000 then [0xE0 + cp / 4096, 0x80 + (cp / 64) % 64, 0x80 + cp % 64]
    else [0xF0 + cp / 262144, 0x80 + (cp / 4096) % 64, 0x80 + (cp / 64) % 64, 0x80 + cp % 64]
  }

  /** str.encode(): the concatenated encodings of the characters. */
  function Encode(s: string): (bs: seq<uint8>)
    ensures |bs| >= |s|
  {
    if s == [] then [] else EncodeChar(s[0]) + Encode(s[1..])
  }

  /** The length of the sequence a lead byte announces, or 0 if the byte cannot start one
      (a continuation byte, 0xC0, 0xC1 or 0xF5..0xFF). */
  function SequenceLength(b: uint8): nat {
    if b < 0x80 then 1
    else if 0xC2 <= b <= 0xDF then 2
    else if 0xE0 <= b <= 0xEF then 3
    else if 0xF0 <= b <= 0xF4 then 4
    else 0
  }

  /** The allowed range of the second byte after a lead byte (the syntax table in section 4 of RFC 3629):
      it excludes overlong forms, surrogates and values above U+10FFFF. */
  predicate SecondByteOk(b0: uint8, b1: uint8) {
    if b0 == 0xE0 then 0xA0 <= b1 <= 0xBF
    else if b0 == 0xED then 0x80 <= b1 <= 0x9F
    else if b0 == 0xF0 then 0x90 <= b1 <= 0xBF
    else if b0 == 0xF4 then 0x80 <= b1 <= 0x8F
    else IsContinuation(b1)
  }

  /** The scalar value of a well-formed sequence of length 2, 3 or 4. */
  function Combine(bs: seq<uint8>): int
    requires 2 <= |bs| <= 4
  {
    var b0, b1 := bs[0] as int, bs[1] as int;
    if |bs| == 2 then (b0 - 0xC0) * 64 + (b1 - 0x80)
    else if |bs| == 3 then (b0 - 0xE0) * 4096 + (b1 - 0x80) * 64 + (bs[2] as int - 0x80)
    else (b0 - 0xF0) * 262144 + (b1 - 0x80) * 4096 + (bs[2] as int - 0x80) * 64 + (bs[3] as int - 0x80)
  }

  /** Decodes the first character of `bs`, returning it with the number of bytes it used. */
  function DecodeFirst(bs: seq<uint8>): (r: Result<(char, nat)>)
    requires |bs| > 0
    ensures r.Ok? ==> 1 <= r.value.1 <= |bs| && r.value.1 == SequenceLength(bs[0])
  {
    var n := SequenceLength(bs[0]);
    if n == 0 || |bs| < n then Err(Utf8Error)
    else if n == 1 then Ok((bs[0] as char, 1))
    else if !SecondByteOk(bs[0], bs[1]) then Err(Utf8Error)
    else if n >= 3 && !IsContinuation(bs[2]) then Err(Utf8Error)
    else if n == 4 && !IsContinuation(bs[3]) then Err(Utf8Error)
    else
      var cp := Combine(bs[..n]);
      assert 0 <= cp < 0xD800 || 0xE000 <= cp < 0x110000;
      Ok((cp as char, n))
  }

  /** bytes.decode() in strict mode: the characters, or Utf8Error on ill-formed input. */
  function Decode(bs: seq<uint8>): Result<string>
    decreases |bs|
  {
    if bs == [] then Ok([])
    else
      var (c, n) :- DecodeFirst(bs);
      var rest :- Decode(bs[n..]);
      Ok([c] + rest)
  }

  lemma DecodeFirstEncodeChar(c: char, rest: seq<uint8>)
    ensures DecodeFirst(EncodeChar(c) + rest) == Ok((c, |EncodeChar(c)|))
  {
    var bs := EncodeChar(c) + rest;
    var cp := c as int;
    var n := |EncodeChar(c)|;
    assert bs[..n] == EncodeChar(c);
    if cp < 0x80 {
    } else if cp < 0x800 {
      TwoByteForm(cp);
    } else if cp < 0x10000 {
      ThreeByteForm(cp);
    } else {
      FourByteForm(cp);
    }
  }

  lemma TwoByteForm(cp: int)
    requires 0x80 <= cp < 0x800
    ensures var b0, b1 := 0xC0 + cp / 64, 0x80 + cp % 64;
      0xC2 <= b0 <= 0xDF && IsContinuation(b1) && (b0 - 0xC0) * 64 + (b1 - 0x80) == cp
  {
  }

  lemma ThreeByteForm(cp: int)
    requires 0x800 <= cp < 0x10000 && !(0xD800 <= cp < 0xE000)
    ensures var b0, b1, b2 := 0xE0 + cp / 4096, 0x80 + (cp / 64) % 64, 0x80 + cp % 64;
      && 0xE0 <= b0 <= 0xEF && SecondByteOk(b0, b1) && IsContinuation(b2)
      && (b0 - 0xE0) * 4096 + (b1 - 0x80) * 64 + (b2 - 0x80) == cp
  {
    var q, r := cp / 4096, cp % 4096;
    assert cp == q * 4096 + r && 0 <= r < 4096;
    assert 0 <= q <= 15;
    var m, s := r / 64, r % 64;
    assert r == m * 64 + s && 0 <= m < 64 && 0 <= s < 64;
    assert cp / 64 == q * 64 + m by {
      assert cp == (q * 64 + m) * 64 + s;
    }
    assert (cp / 64) % 64 == m;
    assert cp % 64 == s;
  }

  lemma FourByteForm(cp: int)
    requires 0x10000 <= cp < 0x110000
    ensures var b0, b1, b2, b3 := 0xF0 + cp / 262144, 0x80 + (cp / 4096) % 64, 0x80 + (cp / 64) % 64, 0x80 + cp % 64;
      && 0xF0 <= b0 <= 0xF4 && SecondByteOk(b0, b1) && IsContinuation(b2) && IsContinuation(b3)
      && (b0 - 0xF0) * 262144 + (b1 - 0x80) * 4096 + (b2 - 0x80) * 64 + (b3 - 0x80) == cp
  {
    var q, r := cp / 262144, cp % 262144;
    assert cp == q * 262144 + r && 0 <= r < 262144;
    assert 0 <= q <= 4;
    var m, s := r / 4096, r % 4096;
    assert r == m * 4096 + s && 0 <= m < 64 && 0 <= s < 4096;
    assert cp / 4096 == q * 64 + m by {
      assert cp == (q * 64 + m) * 4096 + s;
    }
    assert (cp / 4096) % 64 == m;
    assert cp / 64 == q * 4096 + m * 64 + s / 64 by {
      assert cp == (q * 4096 + m * 64 + s / 64) * 64 + s % 64;
    }
    assert (cp / 64) % 64 == s / 64;
  }

  /** Decoding an encoding gives the text back: the round trip of str.encode/bytes.decode. */
  lemma {:induction false} DecodeEncode(s: string)
    ensures Decode(Encode(s)) == Ok(s)
  {
    if s != [] {
      var bs := Encode(s);
      DecodeFirstEncodeChar(s[0], Encode(s[1..]));
      assert bs[|EncodeChar(s[0])|..] == Encode(s[1..]);
      DecodeEncode(s[1..]);
      assert [s[0]] + s[1..] == s;
    }
  }

  predicate IsAscii(s: string) {
    forall i :: 0 <= i < |s| ==> s[i] < 128 as char
  }

  /** ASCII text encodes to one byte per character, each the character's code. */
  lemma {:induction false} EncodeAscii(s: string)
    requires IsAscii(s)
    ensures |Encode(s)| == |s|
    ensures forall i :: 0 <= i < |s| ==> Encode(s)[i] == s[i] as int
  {
    if s != [] {
      EncodeAscii(s[1..]);
    }
  }
}
