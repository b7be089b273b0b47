/**
  Base64 over bytes: the encoding of section 4 of RFC 4648 (base64.b64encode)
  and the decoder that base64.b64decode runs by default (binascii.a2b_base64
  in its non-strict mode), which discards bytes outside the alphabet, stops
  at the first complete padding and fails on a partial final quantum.
 */
module Base64 {
  import opened Outcomes
  import opened Utf8

  const Pad: uint8 := 61  // '='

  /** The symbol for a 6-bit value, as an ASCII byte (the table in section 4 of RFC 4648). */
  function Symbol(v: nat): (b: uint8)
    requires v < 64
    ensures IsAlphabet(b)
  {
    if v < 26 then 65 + v          // 'A'..'Z'
    else if v < 52 then 97 + v - 26  // 'a'..'z'
    else if v < 62 then 48 + v - 52  // '0'..'9'
    else if v == 62 then 43          // '+'
    else 47                          // '/'
  }

  predicate IsAlphabet(b: uint8) {
    (65 <= b <= 90) || (97 <= b <= 122) || (48 <= b <= 57) || b == 43 || b == 47
  }

  /** The decoder's table: the value of an alphabet byte, 64 for every other byte. */
  function SextetOf(b: uint8): (v: nat)
    ensures v <= 64 && (v < 64 <==> IsAlphabet(b))
  {
    if 65 <= b <= 90 then b - 65
    else if 97 <= b <= 122 then b - 97 + 26
    else if 48 <= b <= 57 then b - 48 + 52
    else if b == 43 then 62
    else if b == 47 then 63
    else 64
  }

  lemma SymbolSextet(v: nat)
    requires v < 64
    ensures SextetOf(Symbol(v)) == v
  {
  }

  /** The number of '=' that end the encoding of n bytes. */
  function PadCount(n: nat): nat {
    (3 - n % 3) % 3
  }

  /** base64.b64encode: each 3-byte group becomes 4 symbols; a final group of 1 or 2
      bytes is padded with '=' to 4. */
  function Encode(bs: seq<uint8>): (out: seq<uint8>)
    ensures |out| == 4 * ((|bs| + 2) / 3)
    ensures forall i :: 0 <= i < |out| ==>
      if i >= |out| - PadCount(|bs|) then out[i] == Pad else IsAlphabet(out[i])
  {
    if |bs| == 0 then []
    else if |bs| == 1 then
      [Symbol(bs[0] / 4), Symbol((bs[0] % 4) * 16), Pad, Pad]
    else if |bs| == 2 then
      [Symbol(bs[0] / 4), Symbol((bs[0] % 4) * 16 + bs[1] / 16), Symbol((bs[1] % 16) * 4), Pad]
    else
      var rest := Encode(bs[3..]);
      assert PadCount(|bs|) == PadCount(|bs| - 3);
      [Symbol(bs[0] / 4), Symbol((bs[0] % 4) * 16 + bs[1] / 16),
       Symbol((bs[1] % 16) * 4 + bs[2] / 64), Symbol(bs[2] % 64)] + rest
  }

  /** How many bits of the pending byte `left` holds in each position of a quantum. */
  predicate LeftFits(quad: nat, left: nat) {
    && quad < 4
    && (quad == 0 ==> left == 0)
    && (quad == 1 ==> left < 64)
    && (quad == 2 ==> left < 16)
    && (quad == 3 ==> left < 4)
  }

  /** The decoding loop: `quad` is the position within the current 4-symbol quantum,
      `left` the bits carried over to the next byte, `pads` the '=' seen since the last
      data symbol, `acc` the bytes produced so far. */
  function Decoder(s: seq<uint8>, quad: nat, left: nat, pads: nat, acc: seq<uint8>): Result<seq<uint8>>
    requires LeftFits(quad, left)
    decreases |s|
  {
    if s == [] then
      if quad != 0 then Err(Base64Error) else Ok(acc)
    else if s[0] == Pad then
      if quad >= 2 && quad + pads + 1 >= 4 then Ok(acc)  // complete padding: stop here
      else Decoder(s[1..], quad, left, if quad >= 2 then pads + 1 else pads, acc)
    else
      var v := SextetOf(s[0]);
      if v == 64 then Decoder(s[1..], quad, left, pads, acc)  // not in the alphabet: discarded
      else if quad == 0 then Decoder(s[1..], 1, v, 0, acc)
      else if quad == 1 then Decoder(s[1..], 2, v % 16, 0, acc + [left * 4 + v / 16])
      else if quad == 2 then Decoder(s[1..], 3, v % 4, 0, acc + [left * 16 + v / 4])
      else Decoder(s[1..], 0, 0, 0, acc + [left * 64 + v])
  }

  /** base64.b64decode without validation. */
  function Decode(s: seq<uint8>): Result<seq<uint8>> {
    Decoder(s, 0, 0, 0, [])
  }

  /** One full quantum of four symbols decodes to its three bytes. */
  lemma FullQuantum(b0: uint8, b1: uint8, b2: uint8, rest: seq<uint8>, acc: seq<uint8>)
    ensures Decoder([Symbol(b0 / 4), Symbol((b0 % 4) * 16 + b1 / 16),
                     Symbol((b1 % 16) * 4 + b2 / 64), Symbol(b2 % 64)] + rest, 0, 0, 0, acc)
         == Decoder(rest, 0, 0, 0, acc + [b0, b1, b2])
  {
    var v0, v1, v2, v3 := b0 / 4, (b0 % 4) * 16 + b1 / 16, (b1 % 16) * 4 + b2 / 64, b2 % 64;
    var s0 := [Symbol(v0), Symbol(v1), Symbol(v2), Symbol(v3)] + rest;
    var s1, s2, s3 := s0[1..], s0[2..], s0[3..];
    assert s0[0] == Symbol(v0) && s1[0] == Symbol(v1) && s2[0] == Symbol(v2) && s3[0] == Symbol(v3);
    assert s1 == s0[1..] && s2 == s1[1..] && s3 == s2[1..] && s3[1..] == rest;
    SymbolSextet(v0); SymbolSextet(v1); SymbolSextet(v2); SymbolSextet(v3);
    assert v0 * 4 + v1 / 16 == b0;
    assert (v1 % 16) * 16 + v2 / 4 == b1;
    assert (v2 % 4) * 64 + v3 == b2;
    assert Decoder(s0, 0, 0, 0, acc) == Decoder(s1, 1, v0, 0, acc);
    assert Decoder(s1, 1, v0, 0, acc) == Decoder(s2, 2, v1 % 16, 0, acc + [b0]);
    assert Decoder(s2, 2, v1 % 16, 0, acc + [b0]) == Decoder(s3, 3, v2 % 4, 0, acc + [b0] + [b1]);
    assert Decoder(s3, 3, v2 % 4, 0, acc + [b0] + [b1]) == Decoder(rest, 0, 0, 0, acc + [b0] + [b1] + [b2]);
    assert acc + [b0] + [b1] + [b2] == acc + [b0, b1, b2];
  }

  /** A final group of one byte, "xy==", decodes to that byte and stops at the padding. */
  lemma OneByteTail(b0: uint8, acc: seq<uint8>)
    ensures Decoder(Encode([b0]), 0, 0, 0, acc) == Ok(acc + [b0])
  {
    var v0, v1 := b0 / 4, (b0 % 4) * 16;
    SymbolSextet(v0); SymbolSextet(v1);
    var s0 := Encode([b0]);
    var s1, s2, s3 := s0[1..], s0[2..], s0[3..];
    assert s1[0] == Symbol(v1) && s2 == [Pad, Pad] && s3 == [Pad];
    assert s1[1..] == s2 && s2[1..] == s3;
    assert v0 * 4 + v1 / 16 == b0;
    assert Decoder(s0, 0, 0, 0, acc) == Decoder(s1, 1, v0, 0, acc);
    assert Decoder(s1, 1, v0, 0, acc) == Decoder(s2, 2, v1 % 16, 0, acc + [b0]);
    assert Decoder(s2, 2, v1 % 16, 0, acc + [b0]) == Decoder(s3, 2, v1 % 16, 1, acc + [b0]);
  }

  /** A final group of two bytes, "xyz=", decodes to those bytes and stops at the padding. */
  lemma TwoByteTail(b0: uint8, b1: uint8, acc: seq<uint8>)
    ensures Decoder(Encode([b0, b1]), 0, 0, 0, acc) == Ok(acc + [b0, b1])
  {
    var v0, v1, v2 := b0 / 4, (b0 % 4) * 16 + b1 / 16, (b1 % 16) * 4;
    SymbolSextet(v0); SymbolSextet(v1); SymbolSextet(v2);
    var s0 := Encode([b0, b1]);
    var s1, s2, s3 := s0[1..], s0[2..], s0[3..];
    assert s1[0] == Symbol(v1) && s2[0] == Symbol(v2) && s3 == [Pad];
    assert s1[1..] == s2 && s2[1..] == s3;
    assert v0 * 4 + v1 / 16 == b0;
    assert (v1 % 16) * 16 + v2 / 4 == b1;
    assert Decoder(s0, 0, 0, 0, acc) == Decoder(s1, 1, v0, 0, acc);
    assert Decoder(s1, 1, v0, 0, acc) == Decoder(s2, 2, v1 % 16, 0, acc + [b0]);
    assert Decoder(s2, 2, v1 % 16, 0, acc + [b0]) == Decoder(s3, 3, v2 % 4, 0, acc + [b0] + [b1]);
    assert acc + [b0] + [b1] == acc + [b0, b1];
  }

  /** Decoding an encoding gives the bytes back, whatever was decoded before. */
  lemma {:induction false} DecoderEncode(bs: seq<uint8>, acc: seq<uint8>)
    ensures Decoder(Encode(bs), 0, 0, 0, acc) == Ok(acc + bs)
  {
    if |bs| == 0 {
      assert acc + bs == acc;
    } else if |bs| == 1 {
      OneByteTail(bs[0], acc);
      assert [bs[0]] == bs;
    } else if |bs| == 2 {
      TwoByteTail(bs[0], bs[1], acc);
      assert [bs[0], bs[1]] == bs;
    } else {
      FullQuantum(bs[0], bs[1], bs[2], Encode(bs[3..]), acc);
      DecoderEncode(bs[3..], acc + [bs[0], bs[1], bs[2]]);
      assert acc + [bs[0], bs[1], bs[2]] + bs[3..] == acc + bs;
    }
  }

  lemma DecodeEncode(bs: seq<uint8>)
    ensures Decode(Encode(bs)) == Ok(bs)
  {
    DecoderEncode(bs, []);
    assert [] + bs == bs;
  }

  /** The bytes the decoder looks at: everything but bytes outside the alphabet and '='. */
  function Significant(s: seq<uint8>): (r: seq<uint8>)
    ensures |r| <= |s|
  {
    if s == [] then []
    else if s[0] == Pad || IsAlphabet(s[0]) then [s[0]] + Significant(s[1..])
    else Significant(s[1..])
  }

  /** Bytes outside the alphabet (line breaks, spaces, non-ASCII bytes) do not change the
      outcome of decoding. */
  lemma {:induction false} DecoderIgnoresJunk(s: seq<uint8>, quad: nat, left: nat, pads: nat, acc: seq<uint8>)
    requires LeftFits(quad, left)
    ensures Decoder(s, quad, left, pads, acc) == Decoder(Significant(s), quad, left, pads, acc)
  {
    if s != [] {
      var t := Significant(s);
      if s[0] == Pad || IsAlphabet(s[0]) {
        assert t[1..] == Significant(s[1..]);
        var v := SextetOf(s[0]);
        if s[0] == Pad {
          DecoderIgnoresJunk(s[1..], quad, left, if quad >= 2 then pads + 1 else pads, acc);
        } else if quad == 0 {
          DecoderIgnoresJunk(s[1..], 1, v, 0, acc);
        } else if quad == 1 {
          DecoderIgnoresJunk(s[1..], 2, v % 16, 0, acc + [left * 4 + v / 16]);
        } else if quad == 2 {
          DecoderIgnoresJunk(s[1..], 3, v % 4, 0, acc + [left * 16 + v / 4]);
        } else {
          DecoderIgnoresJunk(s[1..], 0, 0, 0, acc + [left * 64 + v]);
        }
      } else {
        DecoderIgnoresJunk(s[1..], quad, left, pads, acc);
      }
    }
  }

  /** Input of alphabet symbols only, whose count leaves a partial quantum, is rejected. */
  lemma {:induction false} UnpaddedPartialQuantumFails(s: seq<uint8>, quad: nat, left: nat, acc: seq<uint8>)
    requires LeftFits(quad, left)
    requires forall i :: 0 <= i < |s| ==> IsAlphabet(s[i])
    requires (quad + |s|) % 4 != 0
    ensures Decoder(s, quad, left, 0, acc).Err?
  {
    if s != [] {
      var v := SextetOf(s[0]);
      if quad == 0 {
        UnpaddedPartialQuantumFails(s[1..], 1, v, acc);
      } else if quad == 1 {
        UnpaddedPartialQuantumFails(s[1..], 2, v % 16, acc + [left * 4 + v / 16]);
      } else if quad == 2 {
        UnpaddedPartialQuantumFails(s[1..], 3, v % 4, acc + [left * 16 + v / 4]);
      } else {
        UnpaddedPartialQuantumFails(s[1..], 0, 0, acc + [left * 64 + v]);
      }
    }
  }
}
