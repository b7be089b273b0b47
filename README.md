# Payload encoder and obfuscation framework: core model

This project models in Dafny the core of a small Python framework. The framework
transforms a text payload, checks whether a keyword scanner still recognises the
result, and records the outcome in an audit record. There are four parts:

- **EncoderEngine** (`encoder_engine.dfy`, with `utf8.dfy`, `base64.dfy`, `hex.dfy`):
  - base64 of the text's UTF-8 bytes, and its lenient inverse;
  - ROT13;
  - a keyed XOR rendered as hex digits, and its inverse.

  UTF-8 follows section 3 of RFC 3629. Base64 follows section 4 of RFC 4648. The
  decoder reproduces CPython's lenient `binascii` rules:
  - characters outside the alphabet are skipped;
  - decoding stops once a quantum is completely padded;
  - an incomplete quantum at the end is an error.
- **TextMasker** (`masker.dfy`): lossy obfuscations.
  - random noise insertion;
  - reversal;
  - quoting each character and joining the quotes with `" + "`;
  - `\uXXXX` escaping;
  - a fold that applies these operations by name.

  The Python code seeds the process-wide `random` generator. Here that generator state
  is an explicit value (`Rng`) held in the `TextMasker` object and advanced by every draw.
- **ThreatScanner** (`scanner.dfy`): a case-insensitive substring search for nine fixed
  indicators, and the raw/transformed comparison that produces the `bypass` verdict.
- **AuditLog** (`audit_log.dfy`): the five-field record built from the input, the
  artifacts and a comparison.

The Python exceptions are modelled as the `Error` cases of a `Result` (`outcomes.dfy`):
- `binascii.Error` is `Base64Error`;
- `UnicodeDecodeError` is `Utf8Error`;
- `ValueError` from `int(.., 16)` is `HexParseError`;
- `ZeroDivisionError` from `i % len(key)` is `ZeroDivision`;
- `AttributeError` from `getattr` is `UnknownStep`.

Properties of the code as written, proved here:
- The XOR round trip holds for a non-empty key exactly when every `ord(c) ^ ord(k)` fits
  in a byte (`EncoderEngine.XorRoundTripExactly`). Otherwise `xor_mask` emits more than two
  digits for that character, while `xor_unmask` reads two-digit groups. Latin-1 text with
  a Latin-1 key always fits.
- `unicode_mask` output is never flagged by the scanner, so escaping any flagged text is a
  bypass (`Scanner.ScanUnicodeMask`, `Scanner.UnicodeMaskBypass`).

## Model

| member | source | states |
|---|---|---|
| `Hex.LowerHex` | modules/core/encoder_engine.py:18 | the minimal lowercase hex rendering has at least one digit, no leading zero, and parses back to the value |
| `Hex.LowerHexLength` | modules/core/encoder_engine.py:18 | the minimal rendering has at most w digits iff the value is below 16^w |
| `Hex.PadHexFacts` | modules/core/encoder_engine.py:18 | `format(n, '02x')`-style padding gives at least w lowercase digits that parse back to n, exactly w iff n < 16^w |
| `Hex.HexValue` | modules/core/encoder_engine.py:24 | the value `int(g, 16)` gives a string of hex digits (specification function; `DigitRoundTrip`, `PadHexFacts` and `EscapeShape` state its properties) |
| `Hex.PadHex` | modules/core/encoder_engine.py:18 | `format(n, '02x')` and, with width 4, the `04x` of `unicode_mask` (specification function; `PadHexFacts` states its properties) |
| `Utf8.EncodeChar` | modules/core/encoder_engine.py:7 | one character encodes to one to four bytes |
| `Utf8.Encode` | modules/core/encoder_engine.py:7 | `str.encode()` gives at least one byte per character |
| `Utf8.DecodeFirst` | modules/core/encoder_engine.py:10 | a decoded character consumes exactly the number of bytes its lead byte announces |
| `Utf8.Decode` | modules/core/encoder_engine.py:10 | strict `bytes.decode()` (specification function; `DecodeEncode` states that it inverts `Encode`) |
| `Utf8.DecodeFirstEncodeChar` | modules/core/encoder_engine.py:7-10 | the strict decoder reads back each character's encoding, whatever follows it |
| `Utf8.DecodeEncode` | modules/core/encoder_engine.py:7-10 | strict `bytes.decode()` of `str.encode()` returns the text |
| `Utf8.EncodeAscii` | modules/core/encoder_engine.py:7 | ASCII text encodes to one byte per character, equal to its code |
| `Base64.Symbol` | modules/core/encoder_engine.py:7 | every sextet maps into the base64 alphabet |
| `Base64.SextetOf` | modules/core/encoder_engine.py:10 | a byte has a sextet value iff it is in the alphabet |
| `Base64.SymbolSextet` | modules/core/encoder_engine.py:7-10 | the alphabet lookup and the sextet lookup are inverse |
| `Base64.Encode` | modules/core/encoder_engine.py:7 | `b64encode` output has length 4*ceil(n/3); exactly the last (3 - n mod 3) mod 3 positions are `=`, the rest alphabet bytes |
| `Base64.Decoder` | modules/core/encoder_engine.py:10 | the lenient `a2b_base64` state machine behind `b64decode` (specification function; `FullQuantum`, `OneByteTail`, `TwoByteTail`, `DecoderIgnoresJunk` and `UnpaddedPartialQuantumFails` state its behaviour) |
| `Base64.Decode` | modules/core/encoder_engine.py:10 | `base64.b64decode` (specification function; `DecodeEncode` states that it inverts `Encode`) |
| `Base64.FullQuantum` | modules/core/encoder_engine.py:7-10 | decoding the four symbols of a full 3-byte group appends those three bytes |
| `Base64.OneByteTail` | modules/core/encoder_engine.py:7-10 | a final one-byte group with `==` padding decodes to that byte |
| `Base64.TwoByteTail` | modules/core/encoder_engine.py:7-10 | a final two-byte group with `=` padding decodes to those bytes |
| `Base64.DecoderEncode` | modules/core/encoder_engine.py:7-10 | decoding an encoding appends exactly the encoded bytes |
| `Base64.DecodeEncode` | modules/core/encoder_engine.py:7-10 | `b64decode(b64encode(bs)) == bs` for every byte sequence |
| `Base64.Significant` | modules/core/encoder_engine.py:10 | dropping the bytes the decoder ignores never lengthens the input |
| `Base64.DecoderIgnoresJunk` | modules/core/encoder_engine.py:10 | the lenient decoder gives the same outcome once bytes outside the alphabet and `=` are removed |
| `Base64.UnpaddedPartialQuantumFails` | modules/core/encoder_engine.py:10 | unpadded alphabet input that ends mid-quantum is a `binascii.Error` |
| `EncoderEngine.AsText` | modules/core/encoder_engine.py:7 | ASCII bytes decode to the text of the same codes |
| `EncoderEngine.Base64Wrap` | modules/core/encoder_engine.py:6-7 | `base64_wrap` output length is 4*ceil(n/3) for n UTF-8 bytes, alphabet characters followed by exactly the required `=` padding (at most two) |
| `EncoderEngine.Base64Unwrap` | modules/core/encoder_engine.py:9-10 | `base64_unwrap`: lenient base64 decoding, then strict UTF-8 decoding, either of which can fail (specification function; `Base64RoundTrip` states that it inverts `Base64Wrap`) |
| `EncoderEngine.Base64RoundTrip` | modules/core/encoder_engine.py:6-10 | `base64_unwrap(base64_wrap(t)) == t` for every text |
| `EncoderEngine.Base64Veil` | modules/core/encoder_engine.py:6-10 | `"veil"` wraps to `"dmVpbA=="` and unwraps back |
| `EncoderEngine.Rot13Char` | modules/core/encoder_engine.py:12-13 | letters move 13 places within their case (mod 26); every other character is unchanged |
| `EncoderEngine.RotCipher` | modules/core/encoder_engine.py:12-13 | `rot_cipher` maps each character through the ROT13 table and keeps the length |
| `EncoderEngine.RotCipherInvolution` | modules/core/encoder_engine.py:12-13 | applying `rot_cipher` twice returns the text |
| `EncoderEngine.Xor` | modules/core/encoder_engine.py:18 | Python's `^` on naturals, defined bit by bit (specification function; `XorZero`, `XorInvolution` and `XorHighBits` state its properties) |
| `EncoderEngine.XorZero` | modules/core/encoder_engine.py:18 | XOR with 0 is the identity |
| `EncoderEngine.XorInvolution` | modules/core/encoder_engine.py:18-25 | `(a ^ b) ^ b == a` |
| `EncoderEngine.XorStep` | modules/core/encoder_engine.py:18 | proof helper: one unfolding of the bitwise definition of `^`, used by `XorInvolution` |
| `EncoderEngine.ShrBounds` | modules/core/encoder_engine.py:25 | a value lies in the 2^n-block selected by its right shift |
| `EncoderEngine.XorHighBits` | modules/core/encoder_engine.py:25 | XOR with a value below 2^n leaves the bits from n up unchanged |
| `EncoderEngine.XorToChar` | modules/core/encoder_engine.py:25 | `chr(b ^ ord(k))` for a byte b is a valid character with that code |
| `EncoderEngine.XorChar` | modules/core/encoder_engine.py:18 | `ord(c) ^ ord(k)` (specification function; `XorInvolution` and `XorOfBytes` state its properties) |
| `EncoderEngine.MaskFrom` | modules/core/encoder_engine.py:16-19 | what `xor_mask` appends from index i on, for a non-empty key (specification function; `MaskFromShape` and `MaskFromLength` state its shape) |
| `EncoderEngine.MaskDigits` | modules/core/encoder_engine.py:18 | `f"{ord(c) ^ ord(key[i % len(key)]):02x}"`: at least two lowercase hex digits, more once the XOR exceeds 255 (specification function; `MaskDigitsParse`, `MaskFromShape` and `MaskFromLength` state its properties) |
| `EncoderEngine.XorMasked` | modules/core/encoder_engine.py:15-19 | `xor_mask` including its empty-key `ZeroDivisionError` (specification function; `XorMask` is proved equal to it, `XorRoundTripExactly` relates it to `XorUnmasked`) |
| `EncoderEngine.XorMask` | modules/core/encoder_engine.py:15-19 | the loop's output is the concatenated `02x` digits of `ord(c) ^ ord(key[i % len(key)])`; an empty key divides by zero on a non-empty text |
| `EncoderEngine.MaskFromStep` | modules/core/encoder_engine.py:17-18 | one iteration of `xor_mask` appends the digits of character i, and what is still to come is the mask from i + 1 on |
| `EncoderEngine.MaskFromShape` | modules/core/encoder_engine.py:15-19 | when every XOR fits a byte, the mask is two lowercase hex digits per character, at that character's position |
| `EncoderEngine.XorMaskShape` | modules/core/encoder_engine.py:15-19 | when every XOR fits a byte, `xor_mask` output has length 2*len(text) and only lowercase hex digits |
| `EncoderEngine.MaskFromLength` | modules/core/encoder_engine.py:15-19 | the mask has at least two digits per character, and more once an XOR exceeds a byte |
| `EncoderEngine.ParseGroup` | modules/core/encoder_engine.py:24 | `int(g, 16)` succeeds iff the group is non-empty hex digits; a group of at most two digits is a byte |
| `EncoderEngine.GroupValue` | modules/core/encoder_engine.py:24 | one or two hex digits are below 256 |
| `EncoderEngine.Group` | modules/core/encoder_engine.py:24 | the slice `text[i:i+2]` holds one or two characters |
| `EncoderEngine.UnmaskFrom` | modules/core/encoder_engine.py:21-26 | unmasking succeeds iff every remaining character is a hex digit; the result has one character per two digits, rounding up |
| `EncoderEngine.XorUnmasked` | modules/core/encoder_engine.py:21-26 | `xor_unmask` with its two error paths, parse first (specification function; `XorUnmask` is proved equal to it, `XorEdgeCases` and `XorRoundTripExactly` state its behaviour) |
| `EncoderEngine.XorUnmask` | modules/core/encoder_engine.py:21-26 | the loop returns the XOR-decoded groups, a parse error at the first bad group, or a division by zero for an empty key after the first group parses |
| `EncoderEngine.UnmaskFromStep` | modules/core/encoder_engine.py:23-25 | one iteration of `xor_unmask` on a group that parses adds its character to the output, and the rest of the result is the unmasking from i + 2 on |
| `EncoderEngine.UnmaskFromFails` | modules/core/encoder_engine.py:24 | a group that `int(g, 16)` rejects ends `xor_unmask` with the parse error |
| `EncoderEngine.GroupHex` | modules/core/encoder_engine.py:24 | the group `text[i:i+2]` is all hex digits exactly when the text holds hex digits at those positions |
| `EncoderEngine.HalfKey` | modules/core/encoder_engine.py:25 | proof helper: the key index `(2m // 2) % len(key)` that `xor_unmask` uses at 2m equals `m % len(key)`, used by `UnmaskMaskStep` |
| `EncoderEngine.MaskGroup` | modules/core/encoder_engine.py:18-24 | the group `xor_unmask` reads at index 2m is the digit pair `xor_mask` wrote for character m |
| `EncoderEngine.MaskDigitsParse` | modules/core/encoder_engine.py:18-24 | the two digits written for a character parse back to its XOR value |
| `EncoderEngine.UnmaskStep` | modules/core/encoder_engine.py:23-25 | one loop iteration of `xor_unmask` prepends the decoded character to the rest |
| `EncoderEngine.UnmaskMaskStep` | modules/core/encoder_engine.py:15-25 | unmasking the group of character m yields character m |
| `EncoderEngine.UnmaskMaskFrom` | modules/core/encoder_engine.py:15-26 | unmasking the mask from index 2m restores the text from m |
| `EncoderEngine.XorRoundTrip` | modules/core/encoder_engine.py:15-26 | for a non-empty key, `xor_unmask(xor_mask(t, k), k) == t` when every XOR fits a byte |
| `EncoderEngine.XorRoundTripFails` | modules/core/encoder_engine.py:15-26 | when some XOR exceeds a byte, the round trip does not return the text |
| `EncoderEngine.XorRoundTripExactly` | modules/core/encoder_engine.py:15-26 | for a non-empty key, the round trip holds iff every XOR fits a byte |
| `EncoderEngine.XorOfBytes` | modules/core/encoder_engine.py:18 | the XOR of two bytes is a byte |
| `EncoderEngine.LatinOneFits` | modules/core/encoder_engine.py:18 | with Latin-1 text and key every XOR fits a byte |
| `EncoderEngine.XorEdgeCases` | modules/core/encoder_engine.py:15-26 | the empty text gives `""` for any key; an empty key fails on every non-empty text: `xor_mask` divides by zero, `xor_unmask` reports a parse error if the first group does not parse and otherwise divides by zero; a non-hex first character is a parse error for any key |
| `EncoderEngine.XorUnmaskOddLength` | modules/core/encoder_engine.py:23-25 | odd-length input is accepted: `"1"` unmasks to `"w"` with the default key |
| `Masker.RandBelow` | modules/core/masker.py:18-19 | one draw gives a value below n and advances the generator by one |
| `Masker.RandInt` | modules/core/masker.py:18 | `randint(lo, hi)` lies in [lo, hi], both ends included |
| `Masker.Choice` | modules/core/masker.py:19 | `choice(s)` is an element of s |
| `Masker.CharRange` | modules/core/masker.py:19 | n consecutive characters starting at a given one |
| `Masker.AlphanumericRanges` | modules/core/masker.py:19 | `ascii_lowercase`, `ascii_uppercase` and `digits` are the ranges a-z, A-Z and 0-9 |
| `Masker.AlphanumericsAre` | modules/core/masker.py:19 | every character noise can insert is an ASCII letter or digit |
| `Masker.Insert` | modules/core/masker.py:17-20 | `list.insert` lengthens by one |
| `Masker.NoiseLoop` | modules/core/masker.py:15-20 | the loop inserts max(amount, 0) characters and consumes two draws per insertion (position, then character) |
| `Masker.Noise` | modules/core/masker.py:11-21 | `inject_noise`: the default amount, then the insertion loop (specification function; `NoiseProperties`, `NoiseDefaultAmount` and `NoiseNothing` state its properties, and `TextMasker.InjectNoise` is proved equal to it) |
| `Masker.DefaultAmount` | modules/core/masker.py:12-13 | the default amount is max(1, len(text) // 3) |
| `Masker.InsertKeepsEmbedding` | modules/core/masker.py:17-20 | an insertion keeps the original characters, in order, and adds one alphanumeric |
| `Masker.NoiseLoopKeepsEmbedding` | modules/core/masker.py:15-20 | after the loop the original characters are still in order, and every other character is alphanumeric |
| `Masker.NoiseProperties` | modules/core/masker.py:11-21 | with amount a >= 0 the result is a characters longer; the text is an in-order subsequence of it; every other character is alphanumeric; 2a draws are used |
| `Masker.NoiseDefaultAmount` | modules/core/masker.py:12-13 | without an amount, max(1, len // 3) characters are inserted, at least one |
| `Masker.NoiseNothing` | modules/core/masker.py:16-20 | amount 0 (or negative) returns the text unchanged and draws nothing |
| `Masker.ReproducibleNoise` | modules/core/masker.py:7-20 | a masker seeded and used, then a second masker seeded the same way and used, produce the same noise for the same text and amount; each is seeded just before it draws, as the shared generator requires |
| `Masker.ReverseText` | modules/core/masker.py:23-24 | reversal keeps the length |
| `Masker.ReverseTextAt` | modules/core/masker.py:23-24 | `out[i] == t[len(t) - 1 - i]` |
| `Masker.ReverseTextInvolution` | modules/core/masker.py:23-24 | reversing twice returns the text |
| `Masker.Quoted` | modules/core/masker.py:27 | `f"'{c}'"` (specification function) |
| `Masker.Join` | modules/core/masker.py:27 | `" + ".join(...)` (specification function) |
| `Masker.FragmentText` | modules/core/masker.py:26-27 | `fragment_text` (specification function; `FragmentTextShape`, `FragmentTextEmpty` and `FragmentTextRecoverable` state its properties) |
| `Masker.FragmentTextShape` | modules/core/masker.py:26-27 | for n >= 1 characters the output has length 6n-3; character i appears quoted at 6i, followed by `" + "` except after the last |
| `Masker.FragmentTextEmpty` | modules/core/masker.py:26-27 | `fragment_text("") == ""` |
| `Masker.Unfragment` | modules/core/masker.py:26-27 | a reference reader of `fragment_text`'s format, not part of the source: it reads the quoted character of each six-character fragment |
| `Masker.FragmentTextRecoverable` | modules/core/masker.py:26-27 | the text can be read back from its fragments |
| `Masker.Escape` | modules/core/masker.py:30 | `f"\\u{ord(c):04x}"` (specification function; `EscapeShape` states its form) |
| `Masker.UnicodeMask` | modules/core/masker.py:29-30 | `unicode_mask` (specification function; `UnicodeMaskLength`, `UnicodeMaskAt` and `UnicodeMaskAlphabet` state its properties) |
| `Masker.EscapeShape` | modules/core/masker.py:30 | an escape is `\u` and at least four lowercase hex digits that parse back to the code point; exactly six characters iff the code point is at most 0xFFFF |
| `Masker.EscapeBmpLength` | modules/core/masker.py:30 | an escape of a BMP character has six characters |
| `Masker.UnicodeMaskLength` | modules/core/masker.py:29-30 | the output has at least 6 characters per character, exactly 6*len iff every code point is at most 0xFFFF |
| `Masker.UnicodeMaskChunk` | modules/core/masker.py:29-30 | for BMP text, the escape of character i occupies positions 6i to 6i+5 |
| `Masker.UnicodeMaskAt` | modules/core/masker.py:29-30 | for BMP text, the four digits at 6i+2 parse back to the code point of character i |
| `Masker.UnicodeMaskAlphabet` | modules/core/masker.py:29-30 | the output contains only backslashes, `u` and lowercase hex digits |
| `Masker.StepNamed` | modules/core/masker.py:34 | each of the four method names resolves to its step; every other name resolves to none |
| `Masker.ApplyStep` | modules/core/masker.py:34 | one `getattr(self, step)(text)` call on a resolved step (specification function) |
| `Masker.Layered` | modules/core/masker.py:32-35 | `layered_mask` as a fold over the step names, stopping at the first unknown name (specification function; `LayeredAppend`, `LayeredSucceeds` and `LayeredBasics` state its properties, and `TextMasker.LayeredMask` is proved equal to it) |
| `Masker.LayeredAppend` | modules/core/masker.py:32-35 | folding the steps a + b is folding a and then folding b over the result |
| `Masker.LayeredSucceeds` | modules/core/masker.py:32-35 | the fold succeeds iff every name resolves to one of the four operations |
| `Masker.LayeredBasics` | modules/core/masker.py:32-35 | the empty fold is the identity; a one-name fold is that operation, or the unknown-name error |
| `Masker.LayeredReverseTwice` | modules/core/masker.py:32-35 | reversing twice in a chain returns the text and draws nothing |
| `Masker.TextMasker.constructor` | modules/core/masker.py:7-9 | the masker starts from the seeded generator state |
| `Masker.TextMasker.InjectNoise` | modules/core/masker.py:11-21 | the insertion loop returns the noise function's result and leaves the generator in its final state |
| `Masker.TextMasker.LayeredMask` | modules/core/masker.py:32-35 | the step loop returns the fold's result (or the unknown-name error) and leaves the generator where the fold leaves it |
| `Scanner.LowerChar` | modules/core/scanner.py:21 | `str.lower` on one character, for the characters that matter to the ASCII indicators (specification function) |
| `Scanner.Lower` | modules/core/scanner.py:21 | `text.lower()` (specification function; `LowerAppend`, `LowerIdentity` and `LowerAsciiUpper` state its properties) |
| `Scanner.LowerAppend` | modules/core/scanner.py:21 | lowering distributes over concatenation |
| `Scanner.LowerIdentity` | modules/core/scanner.py:21 | text with nothing to lower is its own lowercase |
| `Scanner.AsciiUpper` | modules/core/scanner.py:21 | ASCII upper-casing keeps the length |
| `Scanner.LowerAsciiUpper` | modules/core/scanner.py:21 | lowering after ASCII upper-casing equals lowering |
| `Scanner.Contains` | modules/core/scanner.py:22 | the substring search is true iff the pattern occurs at some offset |
| `Scanner.SubstringExtend` | modules/core/scanner.py:22 | an occurrence survives text added on either side |
| `Scanner.AbsentCharNotSubstring` | modules/core/scanner.py:22 | a pattern holding a character the text lacks does not occur in it |
| `Scanner.Scan` | modules/core/scanner.py:20-22 | `scan` is true iff one of the nine indicators occurs in the lowered text |
| `Scanner.FlaggedBy` | modules/core/scanner.py:20-22 | a lowercase text in which one of the nine indicators occurs is flagged |
| `Scanner.IndicatorsAre` | modules/core/scanner.py:4-18 | the indicators are the five patterns followed by the four flags |
| `Scanner.ScanCaseInsensitive` | modules/core/scanner.py:21 | upper-casing ASCII letters does not change the verdict |
| `Scanner.ScanExtend` | modules/core/scanner.py:20-22 | a flagged text stays flagged inside any longer text |
| `Scanner.ScanEmpty` | modules/core/scanner.py:20-22 | the empty text is not flagged |
| `Scanner.NotFlagged` | modules/core/scanner.py:20-22 | when none of the nine indicators occurs, the text is not flagged |
| `Scanner.ScanFlaggedExample` | modules/core/scanner.py:4-22 | `"admin_login is active"` is flagged |
| `Scanner.ScanCleanExample` | modules/core/scanner.py:4-22 | `"hello world"` is not flagged |
| `Scanner.ScanUnicodeMask` | modules/core/scanner.py:4-22 | no `unicode_mask` output is ever flagged |
| `Scanner.Compare` | modules/core/scanner.py:24-32 | `raw_flagged` and `masked_flagged` are the two scans; `bypass` iff the raw text is flagged and the transformed one is not |
| `Scanner.AsDict` | modules/core/scanner.py:28-32 | the comparison dict has exactly the keys `raw_flagged`, `masked_flagged` and `bypass` |
| `Scanner.AsDictValues` | modules/core/scanner.py:28-32 | each key holds the corresponding verdict |
| `Scanner.CompareSelf` | modules/core/scanner.py:31 | a text compared with itself is never a bypass |
| `Scanner.BypassMeans` | modules/core/scanner.py:24-31 | bypass iff some indicator occurs in the lowered raw text and none in the lowered transformed text |
| `Scanner.UnicodeMaskBypass` | modules/core/scanner.py:24-31 | comparing a text with its `unicode_mask` is a bypass iff the text is flagged |
| `Scanner.CompareBypassExample` | modules/core/scanner.py:4-31 | `compare("debug_mode enabled", "delbane edom_gubed")` is `{true, false, true}` |
| `Scanner.DebugModeNotInReversed` | modules/core/scanner.py:7 | `"debug_mode"` does not occur in `"delbane edom_gubed"` |
| `Scanner.CompareCleanExample` | modules/core/scanner.py:4-31 | `compare("status_check", "kcehc_sutats")` is all false |
| `AuditLog.Build` | modules/core/audit_log.py:7-21 | `status` is `"bypass-achieved"` iff the scan result has a true `bypass` entry, otherwise `"detected"`; `generated_at`, `input`, `artifacts` and `scan` are the arguments unchanged |
| `AuditLog.BypassReported` | modules/core/audit_log.py:19 | the truthiness of `scan_result.get("bypass")`: a present and true entry (specification predicate; `Build`, `MissingBypassDetected` and `StatusFollowsComparison` state how it decides the status) |
| `AuditLog.AsDict` | modules/core/audit_log.py:13-21 | the record has exactly the five keys `generated_at`, `input`, `artifacts`, `scan` and `status` |
| `AuditLog.AsDictValues` | modules/core/audit_log.py:13-21 | each key holds the corresponding field |
| `AuditLog.MissingBypassDetected` | modules/core/audit_log.py:18-20 | a scan result without a `bypass` entry, or with a false one, gives `"detected"` |
| `AuditLog.StatusFollowsComparison` | modules/core/audit_log.py:18-20 | built from a comparison's dict, the status is `"bypass-achieved"` iff the comparison found a bypass |
| `AuditLog.UnicodeMaskReport` | modules/core/audit_log.py:18-20 | reporting a `unicode_mask` artifact, the status is `"bypass-achieved"` iff the raw input is flagged |

## Left out

- `AuditLog.export` (modules/core/audit_log.py:23-25) writes JSON to a file. That is I/O, and it is not modelled. Its open mode `"y"` is not a mode Python accepts.
- `datetime.now().isoformat()` (modules/core/audit_log.py:14) is a clock read. `AuditLog.Build` takes the timestamp as a parameter.
- Masker.RandBelow: the Mersenne Twister behind `random` is not modelled. The generator is an abstract stream of draws, and one call to `randint` or `choice` uses one draw reduced modulo the range. CPython's rejection sampling, the distribution, and the number of 32-bit words each call consumes are not captured.
- Masker.TextMasker.constructor: `TextMasker(seed)` takes the generator state the seed produces. `seed=None` (keep the global state, or entropy from the OS) is not distinguished. The generator is a field of the masker, not process-wide state shared by every masker.
- Masker.ReproducibleNoise: each masker holds its own generator in the model. In Python all maskers share one process-wide generator, so seeding a second masker before the first one draws changes the first one's noise. The model does not capture that interleaving. `ReproducibleNoise` seeds and uses each masker in turn, an order that is reproducible in both.
- Masker.StepNamed: `getattr` reflection is closed over the four mask operations. Every other name is an `UnknownStep` error. In Python, names such as `layered_mask` or `__init__` resolve and then fail or misbehave differently.
- Scanner.LowerChar: Python's full Unicode `str.lower` is not modelled. Only the characters whose lowercase contains ASCII letters are lowered: A-Z, KELVIN SIGN (to `k`) and LATIN CAPITAL LETTER I WITH DOT ABOVE (to `i` and a combining dot). Every other character is left unchanged. The indicators are ASCII, so this gives the same matches, but that equivalence is argued here, not proved.
- Scanner.AsciiUpper: the case-insensitivity lemma uses ASCII upper-casing, which is `str.upper` only on ASCII text.
- EncoderEngine.ParseGroup: `int(g, 16)` also accepts surrounding whitespace, a sign and non-ASCII digits. The model treats all of these as parse errors. Only ASCII hex digits of either case parse.
- Strings are sequences of Unicode scalar values, so lone surrogates, on which Python's `str.encode()` raises, cannot be represented.
- All `bytes.decode()` error details are folded into one `Utf8Error`. All `binascii` errors are folded into one `Base64Error`.
- Dicts are modelled as maps, so insertion order, object identity and aliasing (`artifacts` is the caller's dict object, not a copy) are not represented.
- modules/run.py (the entry point that prints a summary) and modules/core/__init__.py (re-exports) are not part of this model.
