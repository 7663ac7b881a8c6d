/** `String.prototype.replace` with a global regular expression, the one
    text-rewriting primitive of the SVG service. A pattern is given by a
    matcher that looks at the start of the remaining text; the rewriter scans
    left to right, substitutes the leftmost match, resumes after it, and copies
    every character at which no match starts. */
module Rewrite {
  import opened Types

  /** A match at the start of a string: how many characters it consumes and
      the text that `replace` puts in their place. */
  datatype Match = Match(length: nat, replacement: string)

  /** A regular expression, seen as "does it match at the start of this
      text, and with what". */
  type Matcher = string -> Option<Match>

  /** `m` matches a non-empty prefix of `t`. */
  predicate MatchesAt(m: Matcher, t: string) {
    m(t).Some? && 0 < m(t).value.length <= |t|
  }

  /** `s.replace(/…/g, …)` */
  function ReplaceAll(s: string, m: Matcher): string
    decreases |s|
  {
    if |s| == 0 then ""
    else if MatchesAt(m, s) then m(s).value.replacement + ReplaceAll(s[m(s).value.length..], m)
    else [s[0]] + ReplaceAll(s[1..], m)
  }

  /** Where no match starts, the text is copied unchanged. */
  lemma {:induction false} CopyUnmatched(w: string, u: string, m: Matcher)
    requires forall k :: 0 <= k < |w| ==> !MatchesAt(m, (w + u)[k..])
    ensures ReplaceAll(w + u, m) == w + ReplaceAll(u, m)
    decreases |w|
  {
    if |w| > 0 {
      assert !MatchesAt(m, (w + u)[0..]);
      assert (w + u)[0..] == w + u;
      assert (w + u)[1..] == w[1..] + u;
      forall k | 0 <= k < |w[1..]|
        ensures !MatchesAt(m, (w[1..] + u)[k..])
      {
        assert (w[1..] + u)[k..] == (w + u)[k + 1..];
        assert !MatchesAt(m, (w + u)[k + 1..]);
      }
      CopyUnmatched(w[1..], u, m);
    } else {
      assert w + u == u;
    }
  }

  /** A text in which the pattern matches nowhere is left as it is. */
  lemma NoMatchUnchanged(s: string, m: Matcher)
    requires forall k :: 0 <= k < |s| ==> !MatchesAt(m, s[k..])
    ensures ReplaceAll(s, m) == s
  {
    assert s + "" == s;
    CopyUnmatched(s, "", m);
  }

  /** A rewrite whose replacements are never longer than their matches never
      lengthens the text. */
  lemma {:induction false} ReplaceAllShrinks(s: string, m: Matcher)
    requires forall t :: MatchesAt(m, t) ==> |m(t).value.replacement| <= m(t).value.length
    ensures |ReplaceAll(s, m)| <= |s|
    decreases |s|
  {
    if |s| > 0 {
      if MatchesAt(m, s) {
        ReplaceAllShrinks(s[m(s).value.length..], m);
      } else {
        ReplaceAllShrinks(s[1..], m);
      }
    }
  }

  predicate Every(s: string, ok: char -> bool) {
    forall i :: 0 <= i < |s| ==> ok(s[i])
  }

  /** A property of characters that holds of the input and of every
      replacement holds of the output. */
  lemma {:induction false} ReplaceAllKeeps(s: string, m: Matcher, ok: char -> bool)
    requires Every(s, ok)
    requires forall t :: MatchesAt(m, t) ==> Every(m(t).value.replacement, ok)
    ensures Every(ReplaceAll(s, m), ok)
    decreases |s|
  {
    if |s| > 0 {
      if MatchesAt(m, s) {
        var rest := s[m(s).value.length..];
        assert forall i :: 0 <= i < |rest| ==> rest[i] == s[i + m(s).value.length];
        ReplaceAllKeeps(rest, m, ok);
        var r1, r2 := m(s).value.replacement, ReplaceAll(rest, m);
        assert forall i :: 0 <= i < |r1 + r2| ==> (r1 + r2)[i] == if i < |r1| then r1[i] else r2[i - |r1|];
      } else {
        ReplaceAllKeeps(s[1..], m, ok);
        var r2 := ReplaceAll(s[1..], m);
        assert forall i :: 0 <= i < |[s[0]] + r2| ==> ([s[0]] + r2)[i] == if i == 0 then s[0] else r2[i - 1];
      }
    }
  }

  // Single-character patterns such as /&/g and /\n/g.

  /** The pattern that matches the one character `c`. */
  function CharRule(c: char, replacement: string): Matcher {
    t => if |t| > 0 && t[0] == c then Some(Match(1, replacement)) else None
  }

  /** Reference definition: every `c` replaced by `replacement`, character by
      character. */
  function SubstituteChar(s: string, c: char, replacement: string): string {
    if |s| == 0 then ""
    else (if s[0] == c then replacement else [s[0]]) + SubstituteChar(s[1..], c, replacement)
  }

  lemma {:induction false} CharRuleSubstitutes(s: string, c: char, replacement: string)
    ensures ReplaceAll(s, CharRule(c, replacement)) == SubstituteChar(s, c, replacement)
    decreases |s|
  {
    if |s| > 0 {
      CharRuleSubstitutes(s[1..], c, replacement);
    }
  }

  lemma {:induction false} SubstituteConcat(a: string, b: string, c: char, replacement: string)
    ensures SubstituteChar(a + b, c, replacement)
         == SubstituteChar(a, c, replacement) + SubstituteChar(b, c, replacement)
    decreases |a|
  {
    if |a| == 0 {
      assert a + b == b;
    } else {
      assert (a + b)[1..] == a[1..] + b;
      SubstituteConcat(a[1..], b, c, replacement);
    }
  }

  /** Substitution only changes occurrences of `c`. */
  lemma {:induction false} SubstituteAbsent(s: string, c: char, replacement: string)
    requires c !in s
    ensures SubstituteChar(s, c, replacement) == s
    decreases |s|
  {
    if |s| > 0 {
      assert s == [s[0]] + s[1..];
      SubstituteAbsent(s[1..], c, replacement);
    }
  }

  /** A character is in the result only if it was in the input (and is not
      `c`) or is in the replacement. */
  lemma {:induction false} SubstituteChars(s: string, c: char, replacement: string, x: char)
    requires x in SubstituteChar(s, c, replacement)
    ensures (x in s && x != c) || x in replacement
    decreases |s|
  {
    if |s| > 0 {
      var head := if s[0] == c then replacement else [s[0]];
      if x !in head {
        assert x in SubstituteChar(s[1..], c, replacement);
        SubstituteChars(s[1..], c, replacement, x);
        assert s == [s[0]] + s[1..];
      }
    }
  }
}
