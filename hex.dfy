/**
  Hexadecimal rendering and parsing as Python's format specifications
  `x`, `02x`, `04x` and `int(s, 16)` do them on ASCII hex digits.
 */
module Hex {

  /** 16 to the power w. */
  function Pow16(w: nat): (p: nat)
    ensures p >= 1
  {
    if w == 0 then 1 else 16 * Pow16(w - 1)
  }

  predicate IsLowerHexDigit(c: char) {
    ('0' <= c <= '9') || ('a' <= c <= 'f')
  }

  /** The ASCII characters that int(s, 16) accepts as digits (either case). */
  predicate IsHexDigit(c: char) {
    IsLowerHexDigit(c) || ('A' <= c <= 'F')
  }

  predicate AllHexDigits(s: string) {
    forall i :: 0 <= i < |s| ==> IsHexDigit(s[i])
  }

  predicate AllLowerHexDigits(s: string) {
    forall i :: 0 <= i < |s| ==> IsLowerHexDigit(s[i])
  }

  function DigitValue(c: char): (v: nat)
    requires IsHexDigit(c)
    ensures v < 16
    ensures IsLowerHexDigit(c) ==> DigitChar(v) == c
  {
    if '0' <= c <= '9' then c as int - '0' as int
    else if 'a' <= c <= 'f' then c as int - 'a' as int + 10
    else c as int - 'A' as int + 10
  }

  /** The lowercase digit of a value below 16. */
  function DigitChar(d: nat): (c: char)
    requires d < 16
    ensures IsLowerHexDigit(c)
  {
    if d < 10 then ('0' as int + d) as char else ('a' as int + d - 10) as char
  }

  lemma DigitRoundTrip(d: nat)
    requires d < 16
    ensures DigitValue(DigitChar(d)) == d
  {
  }

  /** The value of a string of hex digits, most significant first: int(s, 16). */
  function HexValue(s: string): nat
    requires AllHexDigits(s)
  {
    if s == [] then 0 else 16 * HexValue(s[..|s| - 1]) + DigitValue(s[|s| - 1])
  }

  /** Minimal lowercase hex rendering, format(n, 'x'): no leading zero except for 0 itself. */
  function LowerHex(n: nat): (s: string)
    ensures |s| >= 1 && AllLowerHexDigits(s) && AllHexDigits(s)
    ensures HexValue(s) == n
    ensures |s| > 1 ==> s[0] != '0'
  {
    if n < 16 then
      DigitRoundTrip(n);
      [DigitChar(n)]
    else
      var s := LowerHex(n / 16) + [DigitChar(n % 16)];
      assert s[..|s| - 1] == LowerHex(n / 16);
      DigitRoundTrip(n % 16);
      s
  }

  /** `w` zeros. */
  function Zeros(w: nat): (z: string)
    ensures |z| == w && AllLowerHexDigits(z)
  {
    if w == 0 then "" else "0" + Zeros(w - 1)
  }

  /** format(n, '0wx'): lowercase hex, left-padded with zeros to at least `w` digits. */
  function PadHex(n: nat, w: nat): (s: string)
  {
    var h := LowerHex(n);
    if |h| >= w then h else Zeros(w - |h|) + h
  }

  /** A minimal rendering has at most w digits exactly when the value is below 16^w. */
  lemma {:induction false} LowerHexLength(n: nat, w: nat)
    requires w >= 1
    ensures |LowerHex(n)| <= w <==> n < Pow16(w)
  {
    if n >= 16 {
      if w == 1 {
        assert |LowerHex(n)| == |LowerHex(n / 16)| + 1;
      } else {
        LowerHexLength(n / 16, w - 1);
      }
    }
  }

  lemma {:induction false} LeadingZeros(z: nat, s: string)
    requires AllHexDigits(s)
    ensures AllHexDigits(Zeros(z) + s) && HexValue(Zeros(z) + s) == HexValue(s)
  {
    if s == [] {
      ZerosValue(z);
      assert Zeros(z) + s == Zeros(z);
    } else {
      var t := Zeros(z) + s;
      assert t[..|t| - 1] == Zeros(z) + s[..|s| - 1];
      LeadingZeros(z, s[..|s| - 1]);
    }
  }

  lemma {:induction false} ZerosValue(z: nat)
    ensures HexValue(Zeros(z)) == 0
  {
    if z > 0 {
      assert Zeros(z)[..z - 1] == Zeros(z - 1) by {
        ZerosAllZero(z);
        ZerosAllZero(z - 1);
      }
      ZerosValue(z - 1);
    }
  }

  lemma {:induction false} ZerosAllZero(z: nat)
    ensures forall i :: 0 <= i < z ==> Zeros(z)[i] == '0'
  {
    if z > 0 {
      ZerosAllZero(z - 1);
    }
  }

  /** PadHex renders lowercase digits that parse back to the value, at least `w` of them,
      exactly `w` when the value fits. */
  lemma PadHexFacts(n: nat, w: nat)
    ensures var s := PadHex(n, w);
      && AllLowerHexDigits(s) && AllHexDigits(s)
      && HexValue(s) == n
      && |s| >= w
      && (w >= 1 ==> (|s| == w <==> n < Pow16(w)))
  {
    LeadingZeros(if |LowerHex(n)| >= w then 0 else w - |LowerHex(n)|, LowerHex(n));
    if w >= 1 {
      LowerHexLength(n, w);
    }
  }
}
