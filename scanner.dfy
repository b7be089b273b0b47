/**
  ThreatScanner: a case-insensitive substring detector over nine fixed
  indicators, and the comparison of a raw text against its transformed form
  that yields the "bypass" verdict.
 */
module Scanner {
  import opened Masker

  /** Generic operational indicators. */
  const Patterns: seq<string> := ["admin_login", "config_update", "debug_mode", "auth_token", "service_restart"]

  /** Generic high-risk action words. */
  const Flags: seq<string> := ["override", "bypass", "elevate", "inject"]

  /** patterns + flags, in that order: what scan looks for. */
  const Indicators: seq<string> := Patterns + Flags

  // ---------------------------------------------------------------- lowering

  /** str.lower on one character, as far as it can produce ASCII: A-Z, KELVIN SIGN (to 'k')
      and LATIN CAPITAL LETTER I WITH DOT ABOVE (to 'i' and a combining dot). Every other
      character is left as it is. */
  function LowerChar(c: char): string {
    if 'A' <= c <= 'Z' then [(c as int + 32) as char]
    else if c == 'K' then "k"
    else if c == '\U{0130}' then "i\U{0307}"
    else [c]
  }

  /** str.lower: the lowered characters, concatenated. */
  function Lower(s: string): string {
    if s == [] then [] else LowerChar(s[0]) + Lower(s[1..])
  }

  /** Lowering distributes over concatenation. */
  lemma {:induction false} LowerAppend(a: string, b: string)
    ensures Lower(a + b) == Lower(a) + Lower(b)
  {
    if a == [] {
      assert a + b == b;
    } else {
      assert (a + b)[0] == a[0] && (a + b)[1..] == a[1..] + b;
      LowerAppend(a[1..], b);
      calc {
        Lower(a + b);
        LowerChar(a[0]) + Lower(a[1..] + b);
        LowerChar(a[0]) + (Lower(a[1..]) + Lower(b));
        (LowerChar(a[0]) + Lower(a[1..])) + Lower(b);
      }
    }
  }

  /** Characters that lowering leaves alone. */
  predicate LowerFixed(c: char) {
    !('A' <= c <= 'Z') && c != 'K' && c != 'İ'
  }

  /** Text with nothing to lower is its own lowercase. */
  lemma {:induction false} LowerIdentity(s: string)
    requires forall i :: 0 <= i < |s| ==> LowerFixed(s[i])
    ensures Lower(s) == s
  {
    if s != [] {
      LowerIdentity(s[1..]);
    }
  }

  /** str.upper restricted to ASCII: a-z to A-Z, every other character unchanged. */
  function AsciiUpper(s: string): (r: string)
    ensures |r| == |s|
  {
    seq(|s|, i requires 0 <= i < |s| => if 'a' <= s[i] <= 'z' then (s[i] as int - 32) as char else s[i])
  }

  /** Upper-casing the ASCII letters changes nothing once the text is lowered. */
  lemma {:induction false} LowerAsciiUpper(s: string)
    ensures Lower(AsciiUpper(s)) == Lower(s)
  {
    if s != [] {
      assert AsciiUpper(s)[1..] == AsciiUpper(s[1..]);
      LowerAsciiUpper(s[1..]);
    }
  }

  // ---------------------------------------------------------------- substring

  /** p occurs in s at offset i. */
  predicate OccursAt(p: string, s: string, i: int) {
    0 <= i && i + |p| <= |s| && s[i..i + |p|] == p
  }

  /** `p in s` for strings: p occurs at some offset of s. */
  ghost predicate IsSubstring(p: string, s: string) {
    exists i :: OccursAt(p, s, i)
  }

  /** The substring search: does p start here, or anywhere further on? */
  function Contains(p: string, s: string): (b: bool)
    ensures b <==> IsSubstring(p, s)
    decreases |s|
  {
    if |s| < |p| then
      assert forall i :: !OccursAt(p, s, i);
      false
    else if s[..|p|] == p then
      assert OccursAt(p, s, 0);
      true
    else
      var b := Contains(p, s[1..]);
      assert b <==> IsSubstring(p, s) by {
        forall i | OccursAt(p, s, i)
          ensures OccursAt(p, s[1..], i - 1)
        {
          assert i != 0;
          assert s[1..][i - 1..i - 1 + |p|] == s[i..i + |p|];
        }
        forall i | OccursAt(p, s[1..], i)
          ensures OccursAt(p, s, i + 1)
        {
          assert s[i + 1..i + 1 + |p|] == s[1..][i..i + |p|];
        }
      }
      b
  }

  /** An occurrence survives text added on either side. */
  lemma SubstringExtend(p: string, s: string, u: string, v: string)
    requires IsSubstring(p, s)
    ensures IsSubstring(p, u + s + v)
  {
    var i :| OccursAt(p, s, i);
    assert (u + s + v)[|u| + i..|u| + i + |p|] == s[i..i + |p|];
    assert OccursAt(p, u + s + v, |u| + i);
  }

  /** A string holding a character the text lacks does not occur in it. */
  lemma AbsentCharNotSubstring(p: string, s: string, k: nat)
    requires k < |p| && p[k] !in s
    ensures !IsSubstring(p, s)
  {
    forall i | 0 <= i && i + |p| <= |s|
      ensures !OccursAt(p, s, i)
    {
      assert s[i..i + |p|][k] == s[i + k];
    }
  }

  // ---------------------------------------------------------------- scan

  /** scan: some indicator occurs in the lowered text. */
  function Scan(text: string): (b: bool)
    ensures b <==> exists k :: 0 <= k < |Indicators| && IsSubstring(Indicators[k], Lower(text))
  {
    var data := Lower(text);
    exists k :: 0 <= k < |Indicators| && Contains(Indicators[k], data)
  }

  /** The nine indicators: five patterns, then four flags. */
  lemma IndicatorsAre()
    ensures Indicators == ["admin_login", "config_update", "debug_mode", "auth_token", "service_restart",
                           "override", "bypass", "elevate", "inject"]
  {
  }

  /** Case does not matter: upper-casing the ASCII letters gives the same verdict. */
  lemma ScanCaseInsensitive(text: string)
    ensures Scan(AsciiUpper(text)) == Scan(text)
  {
    LowerAsciiUpper(text);
  }

  /** A flagged text stays flagged whatever is put around it. */
  lemma ScanExtend(u: string, text: string, v: string)
    requires Scan(text)
    ensures Scan(u + text + v)
  {
    var k :| 0 <= k < |Indicators| && IsSubstring(Indicators[k], Lower(text));
    LowerAppend(u + text, v);
    LowerAppend(u, text);
    SubstringExtend(Indicators[k], Lower(text), Lower(u), Lower(v));
  }

  /** Nothing is found in the empty text. */
  lemma ScanEmpty()
    ensures !Scan("")
  {
    forall k | 0 <= k < |Indicators|
      ensures !IsSubstring(Indicators[k], "")
    {
      assert |Indicators[k]| > 0;
    }
  }

  /** The verdict is false when none of the nine indicators, taken one by one, occurs. */
  lemma NotFlagged(text: string)
    requires var d := Lower(text);
      && !IsSubstring("admin_login", d) && !IsSubstring("config_update", d)
      && !IsSubstring("debug_mode", d) && !IsSubstring("auth_token", d)
      && !IsSubstring("service_restart", d) && !IsSubstring("override", d)
      && !IsSubstring("bypass", d) && !IsSubstring("elevate", d) && !IsSubstring("inject", d)
    ensures !Scan(text)
  {
    IndicatorsAre();
    forall k | 0 <= k < |Indicators|
      ensures !IsSubstring(Indicators[k], Lower(text))
    {
      if k == 0 {} else if k == 1 {} else if k == 2 {} else if k == 3 {} else if k == 4 {}
      else if k == 5 {} else if k == 6 {} else if k == 7 {} else {}
    }
  }

  /** A text with nothing to lower in which indicator k occurs is flagged. */
  lemma FlaggedBy(text: string, k: nat, i: nat)
    requires k < |Indicators| && Lower(text) == text && OccursAt(Indicators[k], text, i)
    ensures Scan(text)
  {
  }

  // The examples below take the literal text as a parameter pinned by `requires t == "..."`
  // rather than writing the literal in the ensures: with a symbolic `t`, Dafny unfolds the
  // recursive Lower and Contains only as far as each proof step asks, instead of eagerly
  // evaluating them on the literal, which keeps these proofs within the resource limit.

  /** "admin_login is active" is flagged. */
  lemma ScanFlaggedExample(t: string)
    requires t == "admin_login is active"
    ensures Scan(t)
  {
    AdminLoginLowercase(t);
    IndicatorsAre();
    FlaggedBy(t, 0, 0);
  }

  lemma AdminLoginLowercase(t: string)
    requires t == "admin_login is active"
    ensures Lower(t) == t && OccursAt("admin_login", t, 0)
  {
    LowerIdentity(t);
    assert t[0..11] == "admin_login";
  }

  lemma ScanCleanExample(h: string)
    requires h == "hello world"
    ensures !Scan(h)
  {
    LowerIdentity(h);
    HelloWorldPatterns(h);
    HelloWorldFlags(h);
    NotFlagged(h);
  }

  /** Each pattern has a letter that "hello world" lacks. */
  lemma HelloWorldPatterns(h: string)
    requires h == "hello world"
    ensures !IsSubstring("admin_login", h) && !IsSubstring("config_update", h)
      && !IsSubstring("debug_mode", h) && !IsSubstring("auth_token", h)
      && !IsSubstring("service_restart", h)
  {
    AbsentCharNotSubstring("admin_login", h, 0);      // 'a'
    AbsentCharNotSubstring("config_update", h, 0);    // 'c'
    AbsentCharNotSubstring("debug_mode", h, 2);       // 'b'
    AbsentCharNotSubstring("auth_token", h, 0);       // 'a'
    AbsentCharNotSubstring("service_restart", h, 0);  // 's'
  }

  /** Each flag has a letter that "hello world" lacks. */
  lemma HelloWorldFlags(h: string)
    requires h == "hello world"
    ensures !IsSubstring("override", h) && !IsSubstring("bypass", h)
      && !IsSubstring("elevate", h) && !IsSubstring("inject", h)
  {
    AbsentCharNotSubstring("override", h, 1);         // 'v'
    AbsentCharNotSubstring("bypass", h, 0);           // 'b'
    AbsentCharNotSubstring("elevate", h, 3);          // 'v'
    AbsentCharNotSubstring("inject", h, 0);           // 'i'
  }

  /** \uXXXX escaping always evades the scanner: every indicator has a character that is
      neither a backslash, 'u' nor a lowercase hex digit. */
  lemma ScanUnicodeMask(text: string)
    ensures !Scan(UnicodeMask(text))
  {
    var m := UnicodeMask(text);
    UnicodeMaskAlphabet(text);
    LowerIdentity(m);
    EscapesAvoidPatterns(m);
    EscapesAvoidFlags(m);
    NotFlagged(m);
  }

  lemma EscapesAvoidPatterns(m: string)
    requires forall i :: 0 <= i < |m| ==> IsEscapeChar(m[i])
    ensures !IsSubstring("admin_login", m) && !IsSubstring("config_update", m)
      && !IsSubstring("debug_mode", m) && !IsSubstring("auth_token", m)
      && !IsSubstring("service_restart", m)
  {
    AbsentCharNotSubstring("admin_login", m, 2);      // 'm'
    AbsentCharNotSubstring("config_update", m, 1);    // 'o'
    AbsentCharNotSubstring("debug_mode", m, 4);       // 'g'
    AbsentCharNotSubstring("auth_token", m, 2);       // 't'
    AbsentCharNotSubstring("service_restart", m, 0);  // 's'
  }

  lemma EscapesAvoidFlags(m: string)
    requires forall i :: 0 <= i < |m| ==> IsEscapeChar(m[i])
    ensures !IsSubstring("override", m) && !IsSubstring("bypass", m)
      && !IsSubstring("elevate", m) && !IsSubstring("inject", m)
  {
    AbsentCharNotSubstring("override", m, 0);         // 'o'
    AbsentCharNotSubstring("bypass", m, 1);           // 'y'
    AbsentCharNotSubstring("elevate", m, 1);          // 'l'
    AbsentCharNotSubstring("inject", m, 0);           // 'i'
  }

  // ---------------------------------------------------------------- compare

  /** The three verdicts of a comparison. */
  datatype Comparison = Comparison(rawFlagged: bool, maskedFlagged: bool, bypass: bool)

  /** compare(raw, transformed): both texts scanned; a bypass is a raw text that is flagged
      whose transformed form is not. */
  function Compare(raw: string, transformed: string): (c: Comparison)
    ensures c.rawFlagged == Scan(raw) && c.maskedFlagged == Scan(transformed)
    ensures c.bypass <==> c.rawFlagged && !c.maskedFlagged
  {
    var rawHit := Scan(raw);
    var maskedHit := Scan(transformed);
    Comparison(rawHit, maskedHit, rawHit && !maskedHit)
  }

  /** The dict compare returns: keys "raw_flagged", "masked_flagged" and "bypass". */
  function AsDict(c: Comparison): (d: map<string, bool>)
    ensures d.Keys == {"raw_flagged", "masked_flagged", "bypass"}
  {
    map["raw_flagged" := c.rawFlagged, "masked_flagged" := c.maskedFlagged, "bypass" := c.bypass]
  }

  /** The dict holds the comparison's verdicts under their keys, and nothing else. */
  lemma AsDictValues(c: Comparison)
    ensures AsDict(c)["raw_flagged"] == c.rawFlagged
    ensures AsDict(c)["masked_flagged"] == c.maskedFlagged
    ensures AsDict(c)["bypass"] == c.bypass
  {
  }

  /** A text compared with itself is never a bypass. */
  lemma CompareSelf(text: string)
    ensures !Compare(text, text).bypass
  {
  }

  /** A bypass means some indicator occurs in the lowered raw text and none in the lowered
      transformed text. */
  lemma BypassMeans(raw: string, transformed: string)
    ensures Compare(raw, transformed).bypass <==>
      (exists k :: 0 <= k < |Indicators| && IsSubstring(Indicators[k], Lower(raw)))
      && (forall k :: 0 <= k < |Indicators| ==> !IsSubstring(Indicators[k], Lower(transformed)))
  {
  }

  /** Escaping a flagged text with unicode_mask is always a bypass. */
  lemma UnicodeMaskBypass(text: string)
    ensures Compare(text, UnicodeMask(text)).bypass == Scan(text)
  {
    ScanUnicodeMask(text);
  }

  lemma CompareBypassExample(raw: string, rev: string)
    requires raw == "debug_mode enabled" && rev == "delbane edom_gubed"
    ensures Compare(raw, rev) == Comparison(true, false, true)
  {
    DebugModeFlagged(raw);
    ReversedNotFlagged(rev);
  }

  lemma DebugModeFlagged(raw: string)
    requires raw == "debug_mode enabled"
    ensures Scan(raw)
  {
    DebugModeLowercase(raw);
    IndicatorsAre();
    FlaggedBy(raw, 2, 0);
  }

  lemma DebugModeLowercase(raw: string)
    requires raw == "debug_mode enabled"
    ensures Lower(raw) == raw && OccursAt("debug_mode", raw, 0)
  {
    LowerIdentity(raw);
    assert raw[0..10] == "debug_mode";
  }

  lemma ReversedNotFlagged(rev: string)
    requires rev == "delbane edom_gubed"
    ensures !Scan(rev)
  {
    LowerIdentity(rev);
    ReversedPatterns(rev);
    ReversedFlags(rev);
    NotFlagged(rev);
  }

  lemma ReversedPatterns(rev: string)
    requires rev == "delbane edom_gubed"
    ensures !IsSubstring("admin_login", rev) && !IsSubstring("config_update", rev)
      && !IsSubstring("debug_mode", rev) && !IsSubstring("auth_token", rev)
      && !IsSubstring("service_restart", rev)
  {
    AbsentCharNotSubstring("admin_login", rev, 3);      // 'i'
    AbsentCharNotSubstring("config_update", rev, 0);    // 'c'
    DebugModeNotInReversed(rev);
    AbsentCharNotSubstring("auth_token", rev, 2);       // 't'
    AbsentCharNotSubstring("service_restart", rev, 0);  // 's'
  }

  lemma ReversedFlags(rev: string)
    requires rev == "delbane edom_gubed"
    ensures !IsSubstring("override", rev) && !IsSubstring("bypass", rev)
      && !IsSubstring("elevate", rev) && !IsSubstring("inject", rev)
  {
    AbsentCharNotSubstring("override", rev, 1);         // 'v'
    AbsentCharNotSubstring("bypass", rev, 1);           // 'y'
    AbsentCharNotSubstring("elevate", rev, 3);          // 'v'
    AbsentCharNotSubstring("inject", rev, 0);           // 'i'
  }

  /** "debug_mode" does not occur in "delbane edom_gubed": nowhere is a 'd' followed, two
      places on, by a 'b'. */
  lemma DebugModeNotInReversed(rev: string)
    requires rev == "delbane edom_gubed"
    ensures !IsSubstring("debug_mode", rev)
  {
    forall i | 0 <= i && i + 10 <= |rev|
      ensures !OccursAt("debug_mode", rev, i)
    {
      assert rev[i..i + 10][0] == rev[i] && rev[i..i + 10][2] == rev[i + 2];
      assert rev[i] != 'd' || rev[i + 2] != 'b';
    }
  }

  lemma CompareCleanExample(s: string, r: string)
    requires s == "status_check" && r == "kcehc_sutats"
    ensures Compare(s, r) == Comparison(false, false, false)
  {
    LowerIdentity(s);
    LowerIdentity(r);
    LettersOfStatusCheckPatterns(s);
    LettersOfStatusCheckFlags(s);
    NotFlagged(s);
    LettersOfStatusCheckPatterns(r);
    LettersOfStatusCheckFlags(r);
    NotFlagged(r);
  }

  /** No pattern occurs in a text made only of the letters of "status_check". */
  lemma LettersOfStatusCheckPatterns(s: string)
    requires forall j :: 0 <= j < |s| ==> s[j] in "status_check"
    ensures !IsSubstring("admin_login", s) && !IsSubstring("config_update", s)
      && !IsSubstring("debug_mode", s) && !IsSubstring("auth_token", s)
      && !IsSubstring("service_restart", s)
  {
    AbsentCharNotSubstring("admin_login", s, 1);      // 'd'
    AbsentCharNotSubstring("config_update", s, 1);    // 'o'
    AbsentCharNotSubstring("debug_mode", s, 0);       // 'd'
    AbsentCharNotSubstring("auth_token", s, 6);       // 'o'
    AbsentCharNotSubstring("service_restart", s, 2);  // 'r'
  }

  /** No flag occurs in a text made only of the letters of "status_check". */
  lemma LettersOfStatusCheckFlags(s: string)
    requires forall j :: 0 <= j < |s| ==> s[j] in "status_check"
    ensures !IsSubstring("override", s) && !IsSubstring("bypass", s)
      && !IsSubstring("elevate", s) && !IsSubstring("inject", s)
  {
    AbsentCharNotSubstring("override", s, 0);         // 'o'
    AbsentCharNotSubstring("bypass", s, 0);           // 'b'
    AbsentCharNotSubstring("elevate", s, 1);          // 'l'
    AbsentCharNotSubstring("inject", s, 0);           // 'i'
  }
}
