/**
  TextMasker: the lossy obfuscations (noise insertion, reversal,
  quote-and-join fragmentation, \uXXXX escaping) and the fold that chains
  them by name.

  The Python class seeds the process-wide `random` generator; here the
  generator's state is the value `Rng`, held by the `TextMasker` object and
  advanced by every draw.
 */
module Masker {
  import opened Outcomes
  import opened Hex

  // ---------------------------------------------------------------- randomness

  /** A generator state: an unbounded stream of raw draws and the index of the next one. */
  datatype Rng = Rng(draw: nat -> nat, next: nat)

  /** random._randbelow(n): a value below n, consuming one draw. */
  function RandBelow(rng: Rng, n: nat): (r: (nat, Rng))
    requires n > 0
    ensures r.0 < n && r.1 == Rng(rng.draw, rng.next + 1)
  {
    (rng.draw(rng.next) % n, Rng(rng.draw, rng.next + 1))
  }

  /** random.randint(lo, hi): a value in [lo, hi], both ends included. */
  function RandInt(rng: Rng, lo: nat, hi: nat): (r: (nat, Rng))
    requires lo <= hi
    ensures lo <= r.0 <= hi && r.1 == Rng(rng.draw, rng.next + 1)
  {
    var (k, rng') := RandBelow(rng, hi - lo + 1);
    (lo + k, rng')
  }

  /** random.choice(s): one element of s. */
  function Choice(rng: Rng, s: string): (r: (char, Rng))
    requires |s| > 0
    ensures r.0 in s && r.1 == Rng(rng.draw, rng.next + 1)
  {
    var (k, rng') := RandBelow(rng, |s|);
    (s[k], rng')
  }

  // ---------------------------------------------------------------- noise

  /** `n` consecutive characters from `first` on. */
  function CharRange(first: char, n: nat): (r: string)
    requires first as int + n <= 0xD800
    ensures |r| == n && forall i :: 0 <= i < n ==> r[i] as int == first as int + i
  {
    seq(n, i requires 0 <= i < n => (first as int + i) as char)
  }

  /** string.ascii_lowercase, string.ascii_uppercase and string.digits. */
  const AsciiLowercase: string := "abcdefghijklmnopqrstuvwxyz"
  const AsciiUppercase: string := "ABCDEFGHIJKLMNOPQRSTUVWXYZ"
  const Digits: string := "0123456789"

  /** string.ascii_letters + string.digits: the 62 characters inject_noise draws from. */
  const Alphanumerics: string := AsciiLowercase + AsciiUppercase + Digits

  predicate IsAlphanumeric(c: char) {
    ('a' <= c <= 'z') || ('A' <= c <= 'Z') || ('0' <= c <= '9')
  }

  /** The three constants are the ranges a-z, A-Z and 0-9. */
  lemma AlphanumericRanges()
    ensures AsciiLowercase == CharRange('a', 26)
    ensures AsciiUppercase == CharRange('A', 26)
    ensures Digits == CharRange('0', 10)
  {
  }

  lemma AlphanumericsAre(c: char)
    requires c in Alphanumerics
    ensures IsAlphanumeric(c)
  {
    AlphanumericRanges();
    assert c in AsciiLowercase || c in AsciiUppercase || c in Digits;
  }

  /** list.insert(pos, c) for a position within the list. */
  function Insert(chars: string, pos: nat, c: char): (r: string)
    requires pos <= |chars|
    ensures |r| == |chars| + 1
  {
    chars[..pos] + [c] + chars[pos..]
  }

  /** The remaining `count` iterations of inject_noise's loop: a position drawn in
      [0, len(chars)], then a character drawn from the alphanumerics, then the insertion. */
  function NoiseLoop(chars: string, count: int, rng: Rng): (r: (string, Rng))
    ensures |r.0| == |chars| + (if count > 0 then count else 0)
    ensures r.1 == Rng(rng.draw, rng.next + 2 * (if count > 0 then count else 0))
    decreases count
  {
    if count <= 0 then (chars, rng)
    else
      var (pos, rng1) := RandInt(rng, 0, |chars|);
      var (c, rng2) := Choice(rng1, Alphanumerics);
      NoiseLoop(Insert(chars, pos, c), count - 1, rng2)
  }

  /** The default amount: max(1, len(text) // 3). */
  function DefaultAmount(text: string): (n: int)
    ensures n >= 1 && n >= |text| / 3
  {
    if |text| / 3 > 1 then |text| / 3 else 1
  }

  /** inject_noise(text, amount): the noisy text and the generator state after it. */
  function Noise(text: string, amount: Option<int>, rng: Rng): (string, Rng) {
    var n := match amount case None => DefaultAmount(text) case Some(a) => a;
    NoiseLoop(text, n, rng)
  }

  /** `idx` places the characters of `s`, in order, at positions of `t`. */
  ghost predicate Embeds(s: string, t: string, idx: seq<nat>) {
    && |idx| == |s|
    && (forall i :: 0 <= i < |idx| ==> idx[i] < |t| && t[idx[i]] == s[i])
    && (forall i, j :: 0 <= i < j < |idx| ==> idx[i] < idx[j])
  }

  /** Every position of `t` outside the embedding holds an alphanumeric character. */
  ghost predicate OthersAlphanumeric(t: string, idx: seq<nat>) {
    forall q :: 0 <= q < |t| && q !in idx ==> IsAlphanumeric(t[q])
  }

  /** `s` is an in-order subsequence of `t`, and everything else in `t` is alphanumeric. */
  ghost predicate IsNoisyCopy(s: string, t: string) {
    exists idx :: Embeds(s, t, idx) && OthersAlphanumeric(t, idx)
  }

  /** An insertion shifts the embedding past the insertion point and adds one alphanumeric. */
  lemma InsertKeepsEmbedding(s: string, t: string, idx: seq<nat>, pos: nat, c: char)
    returns (idx': seq<nat>)
    requires Embeds(s, t, idx) && OthersAlphanumeric(t, idx)
    requires pos <= |t| && IsAlphanumeric(c)
    ensures Embeds(s, Insert(t, pos, c), idx') && OthersAlphanumeric(Insert(t, pos, c), idx')
  {
    var t' := Insert(t, pos, c);
    idx' := seq(|idx|, j requires 0 <= j < |idx| => if idx[j] < pos then idx[j] else idx[j] + 1);
    forall q | 0 <= q < |t'| && q !in idx'
      ensures IsAlphanumeric(t'[q])
    {
      if q != pos {
        var q0 := if q < pos then q else q - 1;
        assert t'[q] == t[q0];
        forall j | 0 <= j < |idx|
          ensures idx[j] != q0
        {
          assert idx'[j] != q;
        }
      }
    }
  }

  lemma {:induction false} NoiseLoopKeepsEmbedding(s: string, chars: string, idx: seq<nat>, count: int, rng: Rng)
    returns (idx': seq<nat>)
    requires Embeds(s, chars, idx) && OthersAlphanumeric(chars, idx)
    ensures Embeds(s, NoiseLoop(chars, count, rng).0, idx')
    ensures OthersAlphanumeric(NoiseLoop(chars, count, rng).0, idx')
    decreases count
  {
    if count <= 0 {
      idx' := idx;
    } else {
      var (pos, rng1) := RandInt(rng, 0, |chars|);
      var (c, rng2) := Choice(rng1, Alphanumerics);
      AlphanumericsAre(c);
      var mid := InsertKeepsEmbedding(s, chars, idx, pos, c);
      idx' := NoiseLoopKeepsEmbedding(s, Insert(chars, pos, c), mid, count - 1, rng2);
    }
  }

  /** inject_noise keeps the text as an in-order subsequence and inserts only alphanumerics;
      with amount a >= 0 the result is a longer by exactly a, and it uses two draws per
      inserted character. */
  lemma NoiseProperties(text: string, amount: int, rng: Rng)
    requires amount >= 0
    ensures var (r, rng') := Noise(text, Some(amount), rng);
      && |r| == |text| + amount
      && IsNoisyCopy(text, r)
      && rng' == Rng(rng.draw, rng.next + 2 * amount)
  {
    var idx := seq(|text|, i requires 0 <= i < |text| => i);
    var idx' := NoiseLoopKeepsEmbedding(text, text, idx, amount, rng);
  }

  /** Without an amount, max(1, len(text) // 3) characters are inserted. */
  lemma NoiseDefaultAmount(text: string, rng: Rng)
    ensures |Noise(text, None, rng).0| == |text| + DefaultAmount(text)
    ensures |Noise(text, None, rng).0| >= |text| + 1
  {
  }

  /** Amount 0, or any negative amount (an empty range), returns the text unchanged and
      leaves the generator where it was. */
  lemma NoiseNothing(text: string, amount: int, rng: Rng)
    requires amount <= 0
    ensures Noise(text, Some(amount), rng) == (text, rng)
  {
  }

  /** Same generator state, same amount, same text: same output. A masker seeded and used,
      then a second masker seeded the same way and used, produce identical noise. Each
      masker is seeded just before it draws, so the order is also right for a generator
      shared by all maskers. */
  method ReproducibleNoise(seed: Rng, text: string, amount: Option<int>) returns (first: string, second: string)
    ensures first == second
  {
    var m1 := new TextMasker(seed);
    first := m1.InjectNoise(text, amount);
    var m2 := new TextMasker(seed);
    second := m2.InjectNoise(text, amount);
  }

  // ---------------------------------------------------------------- reverse

  /** reverse_text: text[::-1]. */
  function ReverseText(text: string): (r: string)
    ensures |r| == |text|
  {
    if text == [] then [] else ReverseText(text[1..]) + [text[0]]
  }

  /** Character i of the reversal is character |text| - 1 - i of the text. */
  lemma {:induction false} ReverseTextAt(text: string, i: nat)
    requires i < |text|
    ensures ReverseText(text)[i] == text[|text| - 1 - i]
  {
    if i < |text| - 1 {
      ReverseTextAt(text[1..], i);
    }
  }

  /** Reversing twice gives the text back. */
  lemma ReverseTextInvolution(text: string)
    ensures ReverseText(ReverseText(text)) == text
  {
    var r := ReverseText(text);
    forall i | 0 <= i < |text|
      ensures ReverseText(r)[i] == text[i]
    {
      ReverseTextAt(r, i);
      ReverseTextAt(text, |text| - 1 - i);
    }
  }

  // ---------------------------------------------------------------- fragment

  /** f"'{c}'" */
  function Quoted(c: char): string {
    ['\'', c, '\'']
  }

  /** sep.join(parts) */
  function Join(sep: string, parts: seq<string>): string {
    if parts == [] then ""
    else if |parts| == 1 then parts[0]
    else parts[0] + sep + Join(sep, parts[1..])
  }

  /** fragment_text: every character quoted, joined with " + ". */
  function FragmentText(text: string): string {
    Join(" + ", seq(|text|, i requires 0 <= i < |text| => Quoted(text[i])))
  }

  /** The fragments of n >= 1 characters take 6n - 3 characters: character i sits, quoted,
      at 6i, with " + " after every fragment but the last. */
  lemma {:induction false} FragmentTextShape(text: string)
    requires |text| >= 1
    ensures var r := FragmentText(text);
      && |r| == 6 * |text| - 3
      && (forall i :: 0 <= i < |text| ==> r[6 * i..6 * i + 3] == Quoted(text[i]))
      && (forall i :: 0 <= i < |text| - 1 ==> r[6 * i + 3..6 * i + 6] == " + ")
  {
    var parts := seq(|text|, i requires 0 <= i < |text| => Quoted(text[i]));
    var r := FragmentText(text);
    if |text| > 1 {
      FragmentTextShape(text[1..]);
      var rest := FragmentText(text[1..]);
      assert parts[1..] == seq(|text| - 1, i requires 0 <= i < |text| - 1 => Quoted(text[1..][i]));
      assert r == Quoted(text[0]) + " + " + rest;
      forall i | 1 <= i < |text|
        ensures r[6 * i..6 * i + 3] == Quoted(text[i])
      {
        assert r[6 * i..6 * i + 3] == rest[6 * (i - 1)..6 * (i - 1) + 3];
      }
      forall i | 1 <= i < |text| - 1
        ensures r[6 * i + 3..6 * i + 6] == " + "
      {
        assert r[6 * i + 3..6 * i + 6] == rest[6 * (i - 1) + 3..6 * (i - 1) + 6];
      }
    }
  }

  lemma FragmentTextEmpty()
    ensures FragmentText("") == ""
  {
  }

  /** Every sixth character, from index 1: what the fragments quote. */
  function Unfragment(r: string): (t: string)
    ensures |t| == (|r| + 3) / 6
  {
    seq((|r| + 3) / 6, i requires 0 <= i < (|r| + 3) / 6 =>
      if 6 * i + 1 < |r| then r[6 * i + 1] else ' ')
  }

  /** Fragmentation loses nothing: the text can be read back from it. */
  lemma FragmentTextRecoverable(text: string)
    ensures Unfragment(FragmentText(text)) == text
  {
    if |text| >= 1 {
      FragmentTextShape(text);
      var r := FragmentText(text);
      forall i | 0 <= i < |text|
        ensures r[6 * i + 1] == text[i]
      {
        assert r[6 * i + 1] == r[6 * i..6 * i + 3][1];
      }
    }
  }

  // ---------------------------------------------------------------- unicode

  /** f"\\u{ord(c):04x}" */
  function Escape(c: char): string {
    "\\u" + PadHex(c as int, 4)
  }

  /** The escape of c is "\u" and at least four lowercase hex digits that spell ord(c);
      exactly four when c is in the Basic Multilingual Plane. */
  lemma EscapeShape(c: char)
    ensures var e := Escape(c);
      && |e| >= 6 && e[..2] == "\\u"
      && AllLowerHexDigits(e[2..]) && AllHexDigits(e[2..]) && HexValue(e[2..]) == c as int
      && (|e| == 6 <==> c as int <= 0xFFFF)
  {
    PadHexFacts(c as int, 4);
    var e := Escape(c);
    assert e[2..] == PadHex(c as int, 4);
    assert Pow16(4) == 0x10000;
  }

  /** unicode_mask: the escapes of the characters, concatenated. */
  function UnicodeMask(text: string): string {
    if text == [] then "" else Escape(text[0]) + UnicodeMask(text[1..])
  }

  predicate AllBmp(text: string) {
    forall i :: 0 <= i < |text| ==> text[i] as int <= 0xFFFF
  }

  /** The output is at least 6 characters per character, and exactly 6 * |text| exactly when
      every code point is at most 0xFFFF. */
  lemma {:induction false} UnicodeMaskLength(text: string)
    ensures |UnicodeMask(text)| >= 6 * |text|
    ensures |UnicodeMask(text)| == 6 * |text| <==> AllBmp(text)
  {
    if text != [] {
      EscapeShape(text[0]);
      UnicodeMaskLength(text[1..]);
      assert AllBmp(text) <==> text[0] as int <= 0xFFFF && AllBmp(text[1..]) by {
        assert forall i :: 1 <= i < |text| ==> text[i] == text[1..][i - 1];
      }
    }
  }

  lemma EscapeBmpLength(c: char)
    requires c as int <= 0xFFFF
    ensures |Escape(c)| == 6
  {
    EscapeShape(c);
  }

  lemma AllBmpTail(text: string)
    requires AllBmp(text) && text != []
    ensures AllBmp(text[1..])
  {
    assert forall j :: 0 <= j < |text| - 1 ==> text[1..][j] == text[j + 1];
  }

  /** Six-wide chunk i of head + rest: the head for i = 0, otherwise chunk i - 1 of rest. */
  lemma SixWideChunk(head: string, rest: string, i: nat)
    requires |head| == 6 && 6 * i + 6 <= 6 + |rest|
    ensures i == 0 ==> (head + rest)[0..6] == head
    ensures i > 0 ==> (head + rest)[6 * i..6 * i + 6] == rest[6 * (i - 1)..6 * (i - 1) + 6]
  {
  }

  /** For text in the Basic Multilingual Plane, the escape of character i sits at 6i. */
  lemma {:induction false} UnicodeMaskChunk(text: string, i: nat)
    requires AllBmp(text) && i < |text|
    ensures |UnicodeMask(text)| == 6 * |text|
    ensures UnicodeMask(text)[6 * i..6 * i + 6] == Escape(text[i])
  {
    var e := Escape(text[0]);
    EscapeBmpLength(text[0]);
    var rest := UnicodeMask(text[1..]);
    assert UnicodeMask(text) == e + rest;
    AllBmpTail(text);
    UnicodeMaskLength(text[1..]);
    SixWideChunk(e, rest, i);
    if i > 0 {
      UnicodeMaskChunk(text[1..], i - 1);
    }
  }

  /** For text in the Basic Multilingual Plane, the code point of character i can be read
      back from the four hex digits at 6i + 2. */
  lemma UnicodeMaskAt(text: string, i: nat)
    requires AllBmp(text) && i < |text|
    ensures |UnicodeMask(text)| == 6 * |text|
    ensures UnicodeMask(text)[6 * i..6 * i + 2] == "\\u"
    ensures AllHexDigits(UnicodeMask(text)[6 * i + 2..6 * i + 6])
    ensures HexValue(UnicodeMask(text)[6 * i + 2..6 * i + 6]) == text[i] as int
  {
    UnicodeMaskChunk(text, i);
    EscapeShape(text[i]);
    var r := UnicodeMask(text);
    var e := Escape(text[i]);
    assert r[6 * i..6 * i + 2] == e[..2];
    assert r[6 * i + 2..6 * i + 6] == e[2..];
  }

  /** The characters an escape can contain: the backslash, 'u' and lowercase hex digits. */
  predicate IsEscapeChar(c: char) {
    c == '\\' || c == 'u' || IsLowerHexDigit(c)
  }

  /** unicode_mask's output is made of backslashes, 'u' and lowercase hex digits only. */
  lemma {:induction false} UnicodeMaskAlphabet(text: string)
    ensures forall i :: 0 <= i < |UnicodeMask(text)| ==> IsEscapeChar(UnicodeMask(text)[i])
  {
    if text != [] {
      EscapeShape(text[0]);
      UnicodeMaskAlphabet(text[1..]);
      var e := Escape(text[0]);
      assert forall i :: 2 <= i < |e| ==> e[i] == e[2..][i - 2];
    }
  }

  // ---------------------------------------------------------------- layered

  /** The four mask operations a step name can resolve to. */
  datatype MaskStep = NoiseStep | ReverseStep | FragmentStep | UnicodeStep

  /** getattr(self, name) restricted to the four operations; any other name is unknown. */
  function StepNamed(name: string): (s: Option<MaskStep>)
    ensures s == Some(NoiseStep) <==> name == "inject_noise"
    ensures s == Some(ReverseStep) <==> name == "reverse_text"
    ensures s == Some(FragmentStep) <==> name == "fragment_text"
    ensures s == Some(UnicodeStep) <==> name == "unicode_mask"
  {
    if name == "inject_noise" then Some(NoiseStep)
    else if name == "reverse_text" then Some(ReverseStep)
    else if name == "fragment_text" then Some(FragmentStep)
    else if name == "unicode_mask" then Some(UnicodeStep)
    else None
  }

  /** One step called with the text only (so inject_noise uses its default amount). */
  function ApplyStep(step: MaskStep, text: string, rng: Rng): (string, Rng) {
    match step
    case NoiseStep => Noise(text, None, rng)
    case ReverseStep => (ReverseText(text), rng)
    case FragmentStep => (FragmentText(text), rng)
    case UnicodeStep => (UnicodeMask(text), rng)
  }

  /** layered_mask: the steps folded left to right, each consuming the previous output; an
      unknown name stops the fold with an error, after the generator has advanced for the
      steps before it. */
  function Layered(text: string, steps: seq<string>, rng: Rng): (Result<string>, Rng)
    decreases |steps|
  {
    if steps == [] then (Ok(text), rng)
    else
      match StepNamed(steps[0])
      case None => (Err(UnknownStep(steps[0])), rng)
      case Some(step) =>
        var (text', rng') := ApplyStep(step, text, rng);
        Layered(text', steps[1..], rng')
  }

  /** Continue a fold with more steps, unless it already failed. */
  function Then(r: (Result<string>, Rng), steps: seq<string>): (Result<string>, Rng) {
    if r.0.Ok? then Layered(r.0.value, steps, r.1) else r
  }

  /** Folding a + b is folding a, then folding b over its result. */
  lemma {:induction false} LayeredAppend(text: string, a: seq<string>, b: seq<string>, rng: Rng)
    ensures Layered(text, a + b, rng) == Then(Layered(text, a, rng), b)
    decreases |a|
  {
    if a == [] {
      assert a + b == b;
    } else {
      assert (a + b)[1..] == a[1..] + b;
      match StepNamed(a[0])
      case None =>
      case Some(step) =>
        var (text', rng') := ApplyStep(step, text, rng);
        LayeredAppend(text', a[1..], b, rng');
    }
  }

  /** The fold succeeds exactly when every name is one of the four operations. */
  lemma {:induction false} LayeredSucceeds(text: string, steps: seq<string>, rng: Rng)
    ensures Layered(text, steps, rng).0.Ok? <==> forall i :: 0 <= i < |steps| ==> StepNamed(steps[i]).Some?
    decreases |steps|
  {
    if steps != [] {
      match StepNamed(steps[0])
      case None =>
      case Some(step) =>
        var (text', rng') := ApplyStep(step, text, rng);
        LayeredSucceeds(text', steps[1..], rng');
        assert forall i :: 1 <= i < |steps| ==> steps[i] == steps[1..][i - 1];
    }
  }

  /** The empty chain is the identity, and a one-name chain is that operation. */
  lemma LayeredBasics(text: string, name: string, rng: Rng)
    ensures Layered(text, [], rng) == (Ok(text), rng)
    ensures StepNamed(name).None? ==> Layered(text, [name], rng) == (Err(UnknownStep(name)), rng)
    ensures StepNamed(name).Some? ==>
      var (t', rng') := ApplyStep(StepNamed(name).value, text, rng);
      Layered(text, [name], rng) == (Ok(t'), rng')
  {
  }

  /** Reversing twice in a chain gives the text back and draws nothing. */
  lemma LayeredReverseTwice(text: string, rng: Rng)
    ensures Layered(text, ["reverse_text", "reverse_text"], rng) == (Ok(text), rng)
  {
    ReverseTextInvolution(text);
    LayeredAppend(text, ["reverse_text"], ["reverse_text"], rng);
    assert ["reverse_text"] + ["reverse_text"] == ["reverse_text", "reverse_text"];
  }

  // ---------------------------------------------------------------- the masker

  /** The masker and the generator state it draws from. */
  class TextMasker {
    var rng: Rng

    /** TextMasker(seed): the generator starts from the state the seed determines. */
    constructor (seed: Rng)
      ensures rng == seed
    {
      rng := seed;
    }

    method InjectNoise(text: string, amount: Option<int>) returns (r: string)
      modifies this
      ensures (r, rng) == Noise(text, amount, old(rng))
    {
      var n := match amount case None => DefaultAmount(text) case Some(a) => a;
      var chars := text;
      var k := 0;
      while k < n
        invariant k <= n || k == 0
        invariant NoiseLoop(chars, n - k, rng) == Noise(text, amount, old(rng))
        decreases n - k
      {
        var (pos, rng1) := RandInt(rng, 0, |chars|);
        var (c, rng2) := Choice(rng1, Alphanumerics);
        chars := Insert(chars, pos, c);
        rng := rng2;
        k := k + 1;
      }
      r := chars;
    }

    method LayeredMask(text: string, steps: seq<string>) returns (r: Result<string>)
      modifies this
      ensures (r, rng) == Layered(text, steps, old(rng))
    {
      var current := text;
      var i := 0;
      while i < |steps|
        invariant 0 <= i <= |steps|
        invariant Layered(current, steps[i..], rng) == Layered(text, steps, old(rng))
      {
        assert steps[i..][1..] == steps[i + 1..];
        match StepNamed(steps[i])
        case None =>
          return Err(UnknownStep(steps[i]));
        case Some(step) =>
          if step == NoiseStep {
            current := InjectNoise(current, None);
          } else if step == ReverseStep {
            current := ReverseText(current);
          } else if step == FragmentStep {
            current := FragmentText(current);
          } else {
            current := UnicodeMask(current);
          }
        i := i + 1;
      }
      return Ok(current);
    }
  }
}
