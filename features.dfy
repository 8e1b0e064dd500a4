/** `feature_syntax`: the escapes Glyphs writes into feature code, replaced one kind
    after another by the characters they stand for (curly quotes become straight). */
module Features {

  /** `s.replace(pattern, replacement)`: every non-overlapping occurrence, scanning
      from the left. A replacement no longer than its pattern never makes the text
      longer. */
  function ReplaceAll(s: string, pattern: string, replacement: string): (r: string)
    requires |pattern| > 0
    ensures |replacement| <= |pattern| ==> |r| <= |s|
  {
    if |s| < |pattern| then s
    else if s[..|pattern|] == pattern then replacement + ReplaceAll(s[|pattern|..], pattern, replacement)
    else [s[0]] + ReplaceAll(s[1..], pattern, replacement)
  }

  /** The escape sequences and what they stand for, in the order they are applied. */
  const Replacements: seq<(string, string)> := [
    ("\\012", "\n"), ("\\011", "\t"), ("\\U2018", "'"), ("\\U2019", "'"),
    ("\\U201C", "\""), ("\\U201D", "\"")]

  /** The text after the first `n` replacements have been applied: never longer than
      the text, and the text itself when it has no backslash, since every escape
      starts with one. */
  function UnescapedUpTo(s: string, n: nat): (r: string)
    requires n <= |Replacements|
    ensures |r| <= |s|
    ensures '\\' !in s ==> r == s
  {
    if n == 0 then s
    else
      var (escaped, unescaped) := Replacements[n - 1];
      var before := UnescapedUpTo(s, n - 1);
      assert '\\' !in before ==> ReplaceAll(before, escaped, unescaped) == before by {
        if '\\' !in before {
          ReplaceAllAbsent(before, escaped, unescaped);
        }
      }
      ReplaceAll(before, escaped, unescaped)
  }

  /** The text with every escape replaced. */
  function Unescaped(s: string): (r: string)
    ensures |r| <= |s|
    ensures '\\' !in s ==> r == s
  {
    UnescapedUpTo(s, |Replacements|)
  }

  method FeatureSyntax(text: string) returns (r: string)
    ensures r == Unescaped(text)
  {
    r := text;
    for i := 0 to |Replacements|
      invariant r == UnescapedUpTo(text, i)
    {
      var (escaped, unescaped) := Replacements[i];
      r := ReplaceAll(r, escaped, unescaped);
    }
  }

  /** Text without the first character of the pattern is left as it is. */
  lemma {:induction false} ReplaceAllAbsent(s: string, pattern: string, replacement: string)
    requires |pattern| > 0 && pattern[0] !in s
    ensures ReplaceAll(s, pattern, replacement) == s
    decreases |s|
  {
    if |s| >= |pattern| {
      assert s[0] != pattern[0];
      assert s[..|pattern|] != pattern;
      ReplaceAllAbsent(s[1..], pattern, replacement);
      assert [s[0]] + s[1..] == s;
    }
  }

  /** Whether the pattern occurs in `s` starting at index `i`. */
  predicate OccursAt(s: string, pattern: string, i: nat) {
    i + |pattern| <= |s| && s[i..i + |pattern|] == pattern
  }

  /** Text in which the pattern occurs nowhere is left as it is. */
  lemma {:induction false} ReplaceAllNone(s: string, pattern: string, replacement: string)
    requires |pattern| > 0
    requires forall i: nat :: !OccursAt(s, pattern, i)
    ensures ReplaceAll(s, pattern, replacement) == s
    decreases |s|
  {
    if |s| >= |pattern| {
      assert !OccursAt(s, pattern, 0);
      assert s[..|pattern|] != pattern;
      forall i: nat
        ensures !OccursAt(s[1..], pattern, i)
      {
        assert !OccursAt(s, pattern, i + 1);
        if i + |pattern| <= |s[1..]| {
          assert s[1..][i..i + |pattern|] == s[i + 1..i + 1 + |pattern|];
        }
      }
      ReplaceAllNone(s[1..], pattern, replacement);
      assert [s[0]] + s[1..] == s;
    }
  }

  /** A character as Glyphs writes it in feature code: newline and tab escaped. */
  function EscapeChar(c: char, tabs: bool): string {
    if c == '\n' && !tabs then "\\012" else if c == '\t' then "\\011" else [c]
  }

  /** The text with its tabs escaped, and also its newlines unless `tabs` is set. */
  function Escape(t: string, tabs: bool): string {
    if t == [] then [] else EscapeChar(t[0], tabs) + Escape(t[1..], tabs)
  }

  /** Text that cannot start an occurrence of the pattern is copied through. */
  lemma {:induction false} ReplaceAllSkip(a: string, b: string, pattern: string, replacement: string)
    requires |pattern| > 0 && pattern[0] !in a
    ensures ReplaceAll(a + b, pattern, replacement) == a + ReplaceAll(b, pattern, replacement)
    decreases |a|
  {
    if a != [] {
      var s := a + b;
      assert s[0] == a[0] != pattern[0];
      assert s[1..] == a[1..] + b;
      ReplaceAllSkip(a[1..], b, pattern, replacement);
      if |s| < |pattern| {
        ReplaceAllShort(b, pattern, replacement);
        ReplaceAllShort(s, pattern, replacement);
      } else {
        assert s[..|pattern|] != pattern by {
          assert s[..|pattern|][0] != pattern[0];
        }
        assert ReplaceAll(s, pattern, replacement) == [s[0]] + ReplaceAll(s[1..], pattern, replacement);
        assert [a[0]] + (a[1..] + ReplaceAll(b, pattern, replacement)) == a + ReplaceAll(b, pattern, replacement);
      }
    } else {
      assert a + b == b;
    }
  }

  lemma {:induction false} ReplaceAllShort(s: string, pattern: string, replacement: string)
    requires 0 < |pattern| && |s| < |pattern|
    ensures ReplaceAll(s, pattern, replacement) == s
  {
  }

  /** An occurrence at the front is replaced. */
  lemma {:induction false} ReplaceAllHit(b: string, pattern: string, replacement: string)
    requires |pattern| > 0
    ensures ReplaceAll(pattern + b, pattern, replacement) == replacement + ReplaceAll(b, pattern, replacement)
  {
    var s := pattern + b;
    assert s[..|pattern|] == pattern;
    assert s[|pattern|..] == b;
  }

  /** Another escape of the same length and first character is copied through. */
  lemma {:induction false} ReplaceAllOther(e: string, b: string, pattern: string, replacement: string)
    requires |e| == |pattern| > 0 && e != pattern && e[0] == pattern[0] && pattern[0] !in e[1..]
    ensures ReplaceAll(e + b, pattern, replacement) == e + ReplaceAll(b, pattern, replacement)
  {
    var s := e + b;
    assert s[..|pattern|] == e;
    assert s[1..] == e[1..] + b;
    ReplaceAllSkip(e[1..], b, pattern, replacement);
    assert ReplaceAll(s, pattern, replacement) == [e[0]] + ReplaceAll(s[1..], pattern, replacement);
    assert [e[0]] + (e[1..] + ReplaceAll(b, pattern, replacement)) == e + ReplaceAll(b, pattern, replacement);
  }

  lemma {:induction false} UnescapeNewlines(t: string)
    requires '\\' !in t
    ensures ReplaceAll(Escape(t, false), "\\012", "\n") == Escape(t, true)
    decreases |t|
  {
    if t != [] {
      var rest := Escape(t[1..], false);
      assert '\\' !in t[1..] by {
        assert forall c :: c in t[1..] ==> c in t;
      }
      UnescapeNewlines(t[1..]);
      if t[0] == '\n' {
        ReplaceAllHit(rest, "\\012", "\n");
      } else if t[0] == '\t' {
        ReplaceAllOther("\\011", rest, "\\012", "\n");
      } else {
        ReplaceAllSkip([t[0]], rest, "\\012", "\n");
      }
    }
  }

  lemma {:induction false} UnescapeTabs(t: string)
    requires '\\' !in t
    ensures ReplaceAll(Escape(t, true), "\\011", "\t") == t
    decreases |t|
  {
    if t != [] {
      var rest := Escape(t[1..], true);
      assert '\\' !in t[1..] by {
        assert forall c :: c in t[1..] ==> c in t;
      }
      UnescapeTabs(t[1..]);
      if t[0] == '\t' {
        ReplaceAllHit(rest, "\\011", "\t");
      } else {
        ReplaceAllSkip([t[0]], rest, "\\011", "\t");
      }
      assert [t[0]] + t[1..] == t;
    }
  }

  /** Unescaping undoes the escaping of newlines and tabs in text without backslashes. */
  lemma EscapeRoundTrip(t: string)
    requires '\\' !in t
    ensures Unescaped(Escape(t, false)) == t
  {
    var e := Escape(t, false);
    UnescapeNewlines(t);
    UnescapeTabs(t);
    assert Replacements[0] == ("\\012", "\n") && Replacements[1] == ("\\011", "\t");
    assert UnescapedUpTo(e, 1) == Escape(t, true);
    assert UnescapedUpTo(e, 2) == t;
    UnescapedWithoutBackslashFrom(t, 2, 6);
  }

  /** Once the text has no backslash, the remaining replacements leave it unchanged. */
  lemma {:induction false} UnescapedWithoutBackslashFrom(t: string, k: nat, n: nat)
    requires k <= n <= |Replacements|
    requires '\\' !in t
    ensures forall s :: UnescapedUpTo(s, k) == t ==> UnescapedUpTo(s, n) == t
    decreases n
  {
    if n > k {
      UnescapedWithoutBackslashFrom(t, k, n - 1);
      assert Replacements[n - 1].0[0] == '\\';
      ReplaceAllAbsent(t, Replacements[n - 1].0, Replacements[n - 1].1);
    }
  }
}
