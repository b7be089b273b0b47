/**
  EncoderEngine: the reversible encodings. Base64 of the UTF-8 bytes, ROT13
  over ASCII letters, and a keyed XOR rendered as hex, each with its inverse.
 */
module EncoderEngine {
  import opened Outcomes
  import opened Utf8
  import Base64
  import opened Hex

  /** The default key of xor_mask and xor_unmask. */
  const DefaultKey: string := "veil"

  // ---------------------------------------------------------------- base64

  /** Bytes below 128 read as ASCII text (bytes.decode() of ASCII bytes). */
  function AsText(bs: seq<uint8>): (t: string)
    requires forall i :: 0 <= i < |bs| ==> bs[i] < 128
    ensures |t| == |bs| && IsAscii(t)
    ensures forall i :: 0 <= i < |t| ==> t[i] as int == bs[i]
  {
    seq(|bs|, i requires 0 <= i < |bs| => bs[i] as char)
  }

  /** A character of the base64 alphabet: one whose code is an alphabet byte. */
  predicate IsBase64Char(c: char) {
    c as int < 256 && Base64.IsAlphabet(c as int)
  }

  /** base64_wrap: the base64 text of the UTF-8 bytes. Its length is 4 * ceil(n / 3) for n
      bytes, and it is made of alphabet characters followed by exactly the padding that
      n mod 3 calls for (at most two '='). */
  function Base64Wrap(text: string): (r: string)
    ensures var n := |Encode(text)|;
      && |r| == 4 * ((n + 2) / 3)
      && (forall i :: 0 <= i < |r| ==>
            if i >= |r| - Base64.PadCount(n) then r[i] == '=' else IsBase64Char(r[i]))
      && Base64.PadCount(n) <= 2
  {
    AsText(Base64.Encode(Encode(text)))
  }

  /** base64_unwrap: the lenient base64 decoding of the text's UTF-8 bytes, then strict
      UTF-8 decoding; either step can fail. */
  function Base64Unwrap(text: string): Result<string> {
    var bs :- Base64.Decode(Encode(text));
    Decode(bs)
  }

  /** Every text, empty or not, ASCII or not, survives a wrap and unwrap. */
  lemma Base64RoundTrip(t: string)
    ensures Base64Unwrap(Base64Wrap(t)) == Ok(t)
  {
    var bs := Encode(t);
    var e := Base64.Encode(bs);
    EncodeAscii(AsText(e));
    assert Encode(AsText(e)) == e;
    Base64.DecodeEncode(bs);
    DecodeEncode(t);
  }

  lemma VeilBytes(t: string)
    requires t == "veil"
    ensures Encode(t) == [118, 101, 105, 108]
  {
    EncodeAscii(t);
  }

  lemma VeilSymbols(bs: seq<uint8>)
    requires bs == [118, 101, 105, 108]
    ensures Base64.Encode(bs) == [100, 109, 86, 112, 98, 65, 61, 61]
  {
    assert bs[3..] == [108];
  }

  lemma Base64Veil()
    ensures Base64Wrap("veil") == "dmVpbA=="
    ensures Base64Unwrap("dmVpbA==") == Ok("veil")
  {
    VeilBytes("veil");
    VeilSymbols([118, 101, 105, 108]);
    assert AsText([100, 109, 86, 112, 98, 65, 61, 61]) == "dmVpbA==";
    Base64RoundTrip("veil");
  }

  // ---------------------------------------------------------------- rot13

  /** The ROT13 table of the rot_13 codec: ASCII letters move 13 places within their case. */
  function Rot13Char(c: char): (r: char)
    ensures 'A' <= c <= 'Z' ==> 'A' <= r <= 'Z' && r as int - 'A' as int == (c as int - 'A' as int + 13) % 26
    ensures 'a' <= c <= 'z' ==> 'a' <= r <= 'z' && r as int - 'a' as int == (c as int - 'a' as int + 13) % 26
    ensures !('A' <= c <= 'Z') && !('a' <= c <= 'z') ==> r == c
  {
    if ('A' <= c <= 'M') || ('a' <= c <= 'm') then (c as int + 13) as char
    else if ('N' <= c <= 'Z') || ('n' <= c <= 'z') then (c as int - 13) as char
    else c
  }

  /** rot_cipher: the table applied to every character. */
  function RotCipher(text: string): (r: string)
    ensures |r| == |text|
    ensures forall i :: 0 <= i < |text| ==> r[i] == Rot13Char(text[i])
  {
    seq(|text|, i requires 0 <= i < |text| => Rot13Char(text[i]))
  }

  /** Applying the cipher twice gives the text back. */
  lemma RotCipherInvolution(text: string)
    ensures RotCipher(RotCipher(text)) == text
  {
    var r := RotCipher(RotCipher(text));
    forall i | 0 <= i < |text|
      ensures r[i] == text[i]
    {
      var c := text[i];
      assert Rot13Char(Rot13Char(c)) == c;
    }
  }

  // ---------------------------------------------------------------- xor

  /** Python's `^` on non-negative integers, bit by bit from the least significant end. */
  function Xor(a: nat, b: nat): nat
    decreases a + b
  {
    if a == 0 && b == 0 then 0
    else 2 * Xor(a / 2, b / 2) + (a % 2 + b % 2) % 2
  }

  lemma {:induction false} XorZero(y: nat)
    ensures Xor(y, 0) == y && Xor(0, y) == y
  {
    if y != 0 {
      XorZero(y / 2);
    }
  }

  /** One step of the definition: the low bit, and the XOR of what remains. */
  lemma XorStep(a: nat, b: nat)
    ensures Xor(a, b) / 2 == Xor(a / 2, b / 2)
    ensures Xor(a, b) % 2 == (a % 2 + b % 2) % 2
  {
    if a == 0 && b == 0 {
    } else {
      var h := Xor(a / 2, b / 2);
      assert Xor(a, b) == 2 * h + (a % 2 + b % 2) % 2;
    }
  }

  /** The same, for single bits. */
  lemma BitTwice(p: nat, q: nat)
    requires p < 2 && q < 2
    ensures ((p + q) % 2 + q) % 2 == p
  {
  }

  /** XOR with the same value twice is the identity. */
  lemma {:induction false} XorInvolution(a: nat, b: nat)
    ensures Xor(Xor(a, b), b) == a
    decreases a + b
  {
    if b == 0 {
      XorZero(a);
    } else {
      var x := Xor(a, b);
      XorStep(a, b);
      XorStep(x, b);
      XorInvolution(a / 2, b / 2);
      BitTwice(a % 2, b % 2);
      var y := Xor(x, b);
      assert y / 2 == a / 2 && y % 2 == a % 2;
    }
  }

  /** x shifted right by n bits: x >> n. */
  function Shr(x: nat, n: nat): nat {
    if n == 0 then x else Shr(x / 2, n - 1)
  }

  function Pow2(n: nat): (p: nat)
    ensures p >= 1
  {
    if n == 0 then 1 else 2 * Pow2(n - 1)
  }

  /** x lies in the block of 2^n values that its shift selects. */
  lemma {:induction false} ShrBounds(x: nat, n: nat)
    ensures Pow2(n) * Shr(x, n) <= x < Pow2(n) * Shr(x, n) + Pow2(n)
  {
    if n > 0 {
      ShrBounds(x / 2, n - 1);
      var s := Shr(x, n);
      assert Pow2(n) * s == 2 * (Pow2(n - 1) * s);
    }
  }

  /** XOR with a value below 2^n leaves every bit from n up as it was. */
  lemma {:induction false} XorHighBits(a: nat, b: nat, n: nat)
    requires a < Pow2(n)
    ensures Shr(Xor(a, b), n) == Shr(b, n)
  {
    if n == 0 {
      XorZero(b);
    } else {
      XorHighBits(a / 2, b / 2, n - 1);
      assert Xor(a, b) / 2 == Xor(a / 2, b / 2);
    }
  }

  /** ord(c) ^ ord(k). */
  function XorChar(c: char, k: char): nat {
    Xor(c as int, k as int)
  }

  /** chr(b ^ ord(k)) for a byte b: XOR with a byte stays in the 256-block of k, so the
      result is a scalar value whenever k is. */
  function XorToChar(b: nat, k: char): (c: char)
    requires b < 256
    ensures c as int == Xor(b, k as int)
  {
    var x := Xor(b, k as int);
    assert Pow2(8) == 256;
    XorHighBits(b, k as int, 8);
    ShrBounds(x, 8);
    ShrBounds(k as int, 8);
    x as char
  }

  /** The hex digits (at least two) of the character at index i: format(ord(c) ^ ord(key[i % |key|]), '02x'). */
  function MaskDigits(text: string, key: string, i: nat): string
    requires |key| > 0 && i < |text|
  {
    PadHex(XorChar(text[i], key[i % |key|]), 2)
  }

  /** What xor_mask appends from index i on, with a non-empty key. */
  function MaskFrom(text: string, key: string, i: nat): string
    requires |key| > 0
    decreases |text| - i
  {
    if i >= |text| then "" else MaskDigits(text, key, i) + MaskFrom(text, key, i + 1)
  }

  /** xor_mask: empty text gives "" for any key; otherwise an empty key divides by zero. */
  function XorMasked(text: string, key: string): Result<string> {
    if |text| == 0 then Ok("")
    else if |key| == 0 then Err(ZeroDivision)
    else Ok(MaskFrom(text, key, 0))
  }

  /** One step of xor_mask's loop: appending the digits of character i keeps the output a
      prefix of the whole mask, with MaskFrom(i + 1) as the remaining part. */
  lemma MaskFromStep(text: string, key: string, i: nat, output: string)
    requires |key| > 0 && i < |text|
    requires output + MaskFrom(text, key, i) == MaskFrom(text, key, 0)
    ensures (output + MaskDigits(text, key, i)) + MaskFrom(text, key, i + 1) == MaskFrom(text, key, 0)
  {
    var digits, tail := MaskDigits(text, key, i), MaskFrom(text, key, i + 1);
    assert MaskFrom(text, key, i) == digits + tail;
    assert (output + digits) + tail == output + (digits + tail);
  }

  method XorMask(text: string, key: string) returns (r: Result<string>)
    ensures r == XorMasked(text, key)
  {
    var output := "";
    for i := 0 to |text|
      invariant i > 0 ==> |key| > 0
      invariant |key| == 0 ==> output == ""
      invariant |key| > 0 ==> output + MaskFrom(text, key, i) == MaskFrom(text, key, 0)
    {
      if |key| == 0 {
        return Err(ZeroDivision);
      }
      MaskFromStep(text, key, i, output);
      output := output + MaskDigits(text, key, i);
    }
    if |key| > 0 {
      assert MaskFrom(text, key, |text|) == [];
      assert output + [] == output;
    }
    return Ok(output);
  }

  /** Every character whose XOR with its key character fits in a byte. */
  predicate XorFitsByte(text: string, key: string)
    requires |key| > 0
  {
    forall i :: 0 <= i < |text| ==> XorChar(text[i], key[i % |key|]) < 256
  }

  /** When every XOR fits in a byte, the mask from index i on is two lowercase hex digits per
      character, and the digits at each position are those of that character. */
  lemma {:induction false} MaskFromShape(text: string, key: string, i: nat)
    requires |key| > 0 && XorFitsByte(text, key) && i <= |text|
    ensures |MaskFrom(text, key, i)| == 2 * (|text| - i)
    ensures AllLowerHexDigits(MaskFrom(text, key, i))
    ensures forall m :: i <= m < |text| ==>
      MaskFrom(text, key, i)[2 * (m - i)..2 * (m - i) + 2] == MaskDigits(text, key, m)
    decreases |text| - i
  {
    if i < |text| {
      MaskFromShape(text, key, i + 1);
      var d := MaskDigits(text, key, i);
      var rest := MaskFrom(text, key, i + 1);
      PadHexFacts(XorChar(text[i], key[i % |key|]), 2);
      assert |d| == 2;
      forall m | i <= m < |text|
        ensures (d + rest)[2 * (m - i)..2 * (m - i) + 2] == MaskDigits(text, key, m)
      {
        if m > i {
          assert (d + rest)[2 * (m - i)..2 * (m - i) + 2] == rest[2 * (m - i - 1)..2 * (m - i - 1) + 2];
        }
      }
    }
  }

  /** xor_mask output has length 2 * |text| and only lowercase hex digits when every XOR fits
      in a byte. */
  lemma XorMaskShape(text: string, key: string)
    requires |key| > 0 && XorFitsByte(text, key)
    ensures XorMasked(text, key).Ok?
    ensures |XorMasked(text, key).value| == 2 * |text|
    ensures AllLowerHexDigits(XorMasked(text, key).value)
  {
    MaskFromShape(text, key, 0);
  }

  /** int(group, 16) on a group of one or two characters. */
  function ParseGroup(g: string): (r: Result<nat>)
    ensures r.Ok? <==> |g| > 0 && AllHexDigits(g)
    ensures r.Ok? && |g| <= 2 ==> r.value < 256
  {
    if |g| > 0 && AllHexDigits(g) then
      if |g| <= 2 then GroupValue(g); Ok(HexValue(g)) else Ok(HexValue(g))
    else Err(HexParseError)
  }

  lemma GroupValue(g: string)
    requires 0 < |g| <= 2 && AllHexDigits(g)
    ensures HexValue(g) < 256
  {
    var d0 := DigitValue(g[0]);
    assert g[..1][..0] == [];
    assert HexValue(g[..1]) == d0;
    if |g| == 2 {
      assert g[..|g| - 1] == g[..1];
      assert HexValue(g) == 16 * d0 + DigitValue(g[1]);
    }
  }

  /** The group of xor_unmask that starts at index i: text[i:i+2], one character at an
      odd end. */
  function Group(text: string, i: nat): (g: string)
    requires i < |text|
    ensures 1 <= |g| <= 2
  {
    text[i..if i + 2 <= |text| then i + 2 else |text|]
  }

  /** The group holds hex digits exactly when the text does at the group's positions. */
  lemma GroupHex(text: string, i: nat)
    requires i < |text|
    ensures var g := Group(text, i);
      AllHexDigits(g) <==> forall j :: i <= j < i + |g| ==> IsHexDigit(text[j])
  {
    var g := Group(text, i);
    assert forall j :: 0 <= j < |g| ==> g[j] == text[i + j];
  }

  /** `chars` followed by a successful outcome; a failure stays a failure. */
  function Prepend(chars: string, r: Result<string>): (p: Result<string>)
    ensures p.Ok? == r.Ok? && (r.Ok? ==> p.value == chars + r.value)
  {
    if r.Ok? then Ok(chars + r.value) else r
  }

  /** What xor_unmask appends from index i on (i even), with a non-empty key. */
  function UnmaskFrom(text: string, key: string, i: nat): (r: Result<string>)
    requires |key| > 0
    ensures r.Ok? <==> forall j :: i <= j < |text| ==> IsHexDigit(text[j])
    ensures r.Ok? ==> |r.value| == (|text| - i + 1) / 2 || (i >= |text| && r.value == "")
    decreases |text| - i
  {
    if i >= |text| then Ok("")
    else
      var g := Group(text, i);
      match ParseGroup(g)
      case Err(e) =>
        GroupHex(text, i);
        Err(e)
      case Ok(b) =>
        var c := XorToChar(b, key[(i / 2) % |key|]);
        var rest := UnmaskFrom(text, key, i + 2);
        GroupHex(text, i);
        Prepend([c], rest)
  }

  /** xor_unmask: empty text gives "" for any key; with an empty key the first group is
      parsed (and may fail) before the key index divides by zero. */
  function XorUnmasked(text: string, key: string): Result<string> {
    if |text| == 0 then Ok("")
    else if |key| == 0 then
      if ParseGroup(Group(text, 0)).Err? then Err(HexParseError) else Err(ZeroDivision)
    else UnmaskFrom(text, key, 0)
  }

  lemma PrependNothing(r: Result<string>)
    ensures Prepend("", r) == r
  {
    if r.Ok? {
      assert "" + r.value == r.value;
    }
  }

  /** A group that does not parse ends xor_unmask with the parse error. */
  lemma UnmaskFromFails(text: string, key: string, i: nat)
    requires |key| > 0 && i < |text| && ParseGroup(Group(text, i)).Err?
    ensures UnmaskFrom(text, key, i) == Err(HexParseError)
  {
  }

  /** One step of xor_unmask's loop: the character of a parsed group joins the prefix. */
  lemma UnmaskFromStep(text: string, key: string, i: nat, chars: string, b: nat, c: char)
    requires |key| > 0 && i < |text| && b < 256 && ParseGroup(Group(text, i)) == Ok(b)
    requires c == XorToChar(b, key[(i / 2) % |key|])
    requires UnmaskFrom(text, key, 0) == Prepend(chars, UnmaskFrom(text, key, i))
    ensures UnmaskFrom(text, key, 0) == Prepend(chars + [c], UnmaskFrom(text, key, i + 2))
  {
    var rest := UnmaskFrom(text, key, i + 2);
    UnmaskStep(text, key, i, b, c);
    assert rest.Ok? ==> chars + ([c] + rest.value) == (chars + [c]) + rest.value;
  }

  method XorUnmask(text: string, key: string) returns (r: Result<string>)
    ensures r == XorUnmasked(text, key)
  {
    var chars := "";
    var i := 0;
    if |key| > 0 {
      PrependNothing(UnmaskFrom(text, key, 0));
    }
    while i < |text|
      invariant i % 2 == 0
      invariant i > 0 ==> |key| > 0 && i <= |text| + 1
      invariant |key| == 0 ==> chars == ""
      invariant |key| > 0 ==> UnmaskFrom(text, key, 0) == Prepend(chars, UnmaskFrom(text, key, i))
      decreases |text| - i
    {
      var parsed := ParseGroup(Group(text, i));
      if parsed.Err? {
        if |key| > 0 {
          UnmaskFromFails(text, key, i);
        }
        return Err(HexParseError);
      }
      var b := parsed.value;
      if |key| == 0 {
        return Err(ZeroDivision);
      }
      var c := XorToChar(b, key[(i / 2) % |key|]);
      UnmaskFromStep(text, key, i, chars, b, c);
      chars := chars + [c];
      i := i + 2;
    }
    if |key| > 0 {
      assert UnmaskFrom(text, key, i) == Ok("");
      assert chars + "" == chars;
    }
    return Ok(chars);
  }

  /** The group xor_unmask reads at index 2m of a mask holds the digits of character m. */
  lemma MaskGroup(text: string, key: string, m: nat)
    requires |key| > 0 && XorFitsByte(text, key) && m < |text|
    ensures |MaskFrom(text, key, 0)| == 2 * |text|
    ensures Group(MaskFrom(text, key, 0), 2 * m) == MaskDigits(text, key, m)
  {
    MaskFromShape(text, key, 0);
  }

  /** The digits of one character parse back to its XOR, and XOR with the same key
      character restores it. */
  lemma MaskDigitsParse(text: string, key: string, m: nat)
    requires |key| > 0 && XorFitsByte(text, key) && m < |text|
    ensures var x := XorChar(text[m], key[m % |key|]);
      ParseGroup(MaskDigits(text, key, m)) == Ok(x) && x < 256 && XorToChar(x, key[m % |key|]) == text[m]
  {
    var k := key[m % |key|];
    var x := XorChar(text[m], k);
    PadHexFacts(x, 2);
    XorInvolution(text[m] as int, k as int);
  }

  /** One iteration of xor_unmask on a group that parses. */
  lemma UnmaskStep(h: string, key: string, i: nat, x: nat, c: char)
    requires |key| > 0 && i < |h| && x < 256 && ParseGroup(Group(h, i)) == Ok(x)
    requires c == XorToChar(x, key[(i / 2) % |key|])
    ensures UnmaskFrom(h, key, i) == Prepend([c], UnmaskFrom(h, key, i + 2))
  {
  }

  /** The key character xor_unmask uses at index 2m is the one xor_mask used for character m. */
  lemma HalfKey(key: string, m: nat)
    requires |key| > 0
    ensures key[((2 * m) / 2) % |key|] == key[m % |key|]
  {
    assert (2 * m) / 2 == m;
  }

  /** xor_unmask reads character m back from the mask at index 2m. */
  lemma UnmaskMaskStep(text: string, key: string, m: nat)
    requires |key| > 0 && XorFitsByte(text, key) && m < |text|
    ensures var h := MaskFrom(text, key, 0);
      UnmaskFrom(h, key, 2 * m) == Prepend([text[m]], UnmaskFrom(h, key, 2 * m + 2))
  {
    var h := MaskFrom(text, key, 0);
    MaskGroup(text, key, m);
    MaskDigitsParse(text, key, m);
    HalfKey(key, m);
    UnmaskStep(h, key, 2 * m, XorChar(text[m], key[m % |key|]), text[m]);
  }

  /** Unmasking the mask from index 2m on restores the text from m on. */
  lemma {:induction false} UnmaskMaskFrom(text: string, key: string, m: nat)
    requires |key| > 0 && XorFitsByte(text, key) && m <= |text|
    ensures UnmaskFrom(MaskFrom(text, key, 0), key, 2 * m) == Ok(text[m..])
    decreases |text| - m
  {
    var h := MaskFrom(text, key, 0);
    if m < |text| {
      UnmaskMaskStep(text, key, m);
      UnmaskMaskFrom(text, key, m + 1);
      assert 2 * m + 2 == 2 * (m + 1);
      assert [text[m]] + text[m + 1..] == text[m..];
    } else {
      MaskFromShape(text, key, 0);
      assert text[m..] == "";
    }
  }

  /** For a non-empty key and text whose every XOR fits in a byte, xor_unmask inverts xor_mask. */
  lemma XorRoundTrip(text: string, key: string)
    requires |key| > 0 && XorFitsByte(text, key)
    ensures XorMasked(text, key).Ok?
    ensures XorUnmasked(XorMasked(text, key).value, key) == Ok(text)
  {
    if |text| > 0 {
      UnmaskMaskFrom(text, key, 0);
      MaskFromShape(text, key, 0);
    }
  }

  /** The mask from index i on has at least two digits per character, and more as soon as
      one of those characters' XOR does not fit in a byte. */
  lemma {:induction false} MaskFromLength(text: string, key: string, i: nat)
    requires |key| > 0 && i <= |text|
    ensures |MaskFrom(text, key, i)| >= 2 * (|text| - i)
    ensures (exists m :: i <= m < |text| && XorChar(text[m], key[m % |key|]) >= 256) ==>
      |MaskFrom(text, key, i)| > 2 * (|text| - i)
    decreases |text| - i
  {
    if i < |text| {
      MaskFromLength(text, key, i + 1);
      var x := XorChar(text[i], key[i % |key|]);
      PadHexFacts(x, 2);
      assert Pow16(2) == 256;
      assert |MaskFrom(text, key, i)| == |MaskDigits(text, key, i)| + |MaskFrom(text, key, i + 1)|;
    }
  }

  /** When some character's XOR does not fit in a byte, xor_unmask does not give the text
      back: that character takes more than two digits, and unmasking turns every two digits
      into one character, so the result is too long. */
  lemma XorRoundTripFails(text: string, key: string)
    requires |key| > 0 && !XorFitsByte(text, key)
    ensures XorMasked(text, key).Ok?
    ensures XorUnmasked(XorMasked(text, key).value, key) != Ok(text)
  {
    var m :| 0 <= m < |text| && XorChar(text[m], key[m % |key|]) >= 256;
    MaskFromLength(text, key, 0);
    var h := MaskFrom(text, key, 0);
    var u := UnmaskFrom(h, key, 0);
    assert u.Ok? ==> |u.value| == (|h| + 1) / 2;
  }

  /** The XOR of two bytes is a byte. */
  lemma XorOfBytes(a: nat, b: nat)
    requires a < 256 && b < 256
    ensures Xor(a, b) < 256
  {
    assert Pow2(8) == 256;
    XorHighBits(a, b, 8);
    ShrBounds(b, 8);
    ShrBounds(Xor(a, b), 8);
  }

  /** Latin-1 text and key (every code point below 256) always fit. */
  lemma LatinOneFits(text: string, key: string)
    requires |key| > 0
    requires forall i :: 0 <= i < |text| ==> text[i] as int < 256
    requires forall i :: 0 <= i < |key| ==> key[i] as int < 256
    ensures XorFitsByte(text, key)
  {
    forall i | 0 <= i < |text|
      ensures XorChar(text[i], key[i % |key|]) < 256
    {
      XorOfBytes(text[i] as int, key[i % |key|] as int);
    }
  }

  /** With a non-empty key, xor_unmask inverts xor_mask exactly when every XOR fits in a byte
      (always so for a Latin-1 text and key). */
  lemma XorRoundTripExactly(text: string, key: string)
    requires |key| > 0
    ensures XorUnmasked(XorMasked(text, key).value, key) == Ok(text) <==> XorFitsByte(text, key)
  {
    if XorFitsByte(text, key) {
      XorRoundTrip(text, key);
    } else {
      XorRoundTripFails(text, key);
    }
  }

  /** The error and edge cases of the keyed XOR. */
  lemma XorEdgeCases(text: string, key: string)
    ensures XorMasked("", key) == Ok("") && XorUnmasked("", key) == Ok("")
    ensures |text| > 0 && |key| == 0 ==> XorMasked(text, key) == Err(ZeroDivision)
    ensures |text| > 0 && |key| == 0 ==> XorUnmasked(text, key).Err?
    ensures |text| > 0 && |key| == 0 && ParseGroup(Group(text, 0)).Ok? ==> XorUnmasked(text, key) == Err(ZeroDivision)
    ensures |text| > 0 && |key| == 0 && ParseGroup(Group(text, 0)).Err? ==> XorUnmasked(text, key) == Err(HexParseError)
    ensures |text| > 0 && |key| == 0 && AllHexDigits(text) ==> XorUnmasked(text, key) == Err(ZeroDivision)
    ensures |text| > 0 && !IsHexDigit(text[0]) ==> XorUnmasked(text, key) == Err(HexParseError)
  {
    if |text| > 0 && !IsHexDigit(text[0]) {
      assert Group(text, 0)[0] == text[0];
      if |key| > 0 {
        assert UnmaskFrom(text, key, 0).Err?;
      }
    }
    if |text| > 0 && AllHexDigits(text) {
      var g := Group(text, 0);
      assert forall j :: 0 <= j < |g| ==> g[j] == text[j];
    }
  }

  /** xor_unmask does not reject odd-length input: a trailing single digit is a byte too. */
  lemma XorUnmaskOddLength()
    ensures XorUnmasked("1", DefaultKey) == Ok("w")  // 0x01 ^ ord('v') == ord('w')
  {
    assert Group("1", 0) == "1";
    assert HexValue("1") == 1 by {
      assert "1"[..0] == [];
    }
    assert ParseGroup("1") == Ok(1);
    assert Xor(1, 118) == 119 by {
      XorZero(59);
    }
    assert XorToChar(1, 'v') == 'w';
    assert UnmaskFrom("1", DefaultKey, 2) == Ok("");
    assert DefaultKey[(0 / 2) % |DefaultKey|] == 'v';
    UnmaskStep("1", DefaultKey, 0, 1, 'w');
    assert ['w'] + "" == "w";
  }
}
