/** `minifySvgCode` (src/services/svgService.ts:53-61): a chain of five
    global replacements followed by `trim`. */
module SvgMinify {
  import opened Types
  import opened Text
  import opened Rewrite

  /** `/>\s+</g`: a `>`, one or more whitespace characters and a `<`, all
      replaced by `><`. The greedy `\s+` takes the whole run of whitespace,
      so the match succeeds exactly when that run is followed by `<`. */
  function TagGapRule(t: string): Option<Match> {
    if |t| > 0 && t[0] == '>' then
      var n := LeadingSpaces(t[1..]);
      if 0 < n && 1 + n < |t| && t[1 + n] == '<' then Some(Match(n + 2, "><")) else None
    else None
  }

  /** `/\s{2,}/g`: a run of at least two whitespace characters, replaced by
      one space. */
  function SpaceRunRule(t: string): Option<Match> {
    var n := LeadingSpaces(t);
    if n >= 2 then Some(Match(n, " ")) else None
  }

  /** The first three steps: every newline, carriage return and tab removed. */
  function StripBreaks(s: string): string {
    var noNewlines := ReplaceAll(s, CharRule('\n', ""));
    var noReturns := ReplaceAll(noNewlines, CharRule('\r', ""));
    ReplaceAll(noReturns, CharRule('\t', ""))
  }

  function Minify(s: string): string {
    var gapsClosed := ReplaceAll(StripBreaks(s), TagGapRule);
    var runsCollapsed := ReplaceAll(gapsClosed, SpaceRunRule);
    Trim(runsCollapsed)
  }

  // The properties of a minified text.

  predicate NotBreakOrTab(c: char) {
    c != '\n' && c != '\r' && c != '\t'
  }

  predicate NoBreaksOrTabs(s: string) {
    Every(s, NotBreakOrTab)
  }

  predicate NoDoubleSpace(s: string) {
    forall i :: 0 <= i < |s| - 1 ==> !(IsSpace(s[i]) && IsSpace(s[i + 1]))
  }

  /** `t` begins with one or more whitespace characters and then a `<`. */
  predicate OpensGap(t: string) {
    var n := LeadingSpaces(t);
    0 < n < |t| && t[n] == '<'
  }

  /** No `>` is followed by whitespace only and then a `<`. */
  predicate NoTagGap(s: string) {
    forall i :: 0 <= i < |s| && s[i] == '>' ==> !OpensGap(s[i + 1..])
  }

  // Closing the gaps between tags.

  lemma NoTagGapCons(c: char, x: string)
    requires NoTagGap(x)
    requires c == '>' ==> !OpensGap(x)
    ensures NoTagGap([c] + x)
  {
    forall i | 0 < i < |[c] + x| && ([c] + x)[i] == '>'
      ensures !OpensGap(([c] + x)[i + 1..])
    {
      assert ([c] + x)[i + 1..] == x[i..];
      assert x[i - 1] == '>';
    }
    assert ([c] + x)[1..] == x;
  }

  lemma NoTagGapSuffix(s: string, k: nat)
    requires NoTagGap(s) && k <= |s|
    ensures NoTagGap(s[k..])
  {
    forall i | 0 <= i < |s[k..]| && s[k..][i] == '>'
      ensures !OpensGap(s[k..][i + 1..])
    {
      assert s[k..][i + 1..] == s[k + i + 1..];
    }
  }

  lemma OpensGapExtended(u: string, v: string)
    requires OpensGap(u)
    ensures OpensGap(u + v)
  {
    LeadingSpacesOfPrefix(u, v);
  }

  lemma NoTagGapSubstring(s: string, a: nat, b: nat)
    requires NoTagGap(s) && a <= b <= |s|
    ensures NoTagGap(s[a..b])
  {
    forall i | 0 <= i < |s[a..b]| && s[a..b][i] == '>'
      ensures !OpensGap(s[a..b][i + 1..])
    {
      assert s[a + i] == '>';
      assert s[a..b][i + 1..] + s[b..] == s[a + i + 1..];
      if OpensGap(s[a..b][i + 1..]) {
        OpensGapExtended(s[a..b][i + 1..], s[b..]);
        assert false;
      }
    }
  }

  /** In whitespace followed by text, the whitespace is copied and the first
      character of the text is kept. */
  lemma {:induction false} TagGapRuleKeepsFront(t: string)
    ensures var r := ReplaceAll(t, TagGapRule);
            && LeadingSpaces(r) == LeadingSpaces(t)
            && (LeadingSpaces(t) < |t| ==> LeadingSpaces(t) < |r| && r[LeadingSpaces(t)] == t[LeadingSpaces(t)])
  {
    var n := LeadingSpaces(t);
    var w, u := t[..n], t[n..];
    assert t == w + u;
    forall k | 0 <= k < |w| ensures !MatchesAt(TagGapRule, (w + u)[k..]) {
      assert (w + u)[k..][0] == w[k];
    }
    CopyUnmatched(w, u, TagGapRule);
    var ru := ReplaceAll(u, TagGapRule);
    if |u| > 0 {
      assert ru[0] == u[0];
    }
    LeadingSpacesAfterSpaces(w, ru);
  }

  lemma GapOpeningKept(t: string)
    ensures OpensGap(ReplaceAll(t, TagGapRule)) <==> OpensGap(t)
  {
    TagGapRuleKeepsFront(t);
  }

  /** After `/>\s+</g` → `><`, no `>` is followed by whitespace and `<`. */
  lemma {:induction false} GapsClosed(s: string)
    ensures NoTagGap(ReplaceAll(s, TagGapRule))
    decreases |s|
  {
    if |s| > 0 {
      if MatchesAt(TagGapRule, s) {
        var rest := s[TagGapRule(s).value.length..];
        GapsClosed(rest);
        var x := ReplaceAll(rest, TagGapRule);
        NoTagGapCons('<', x);
        assert LeadingSpaces(['<'] + x) == 0;
        NoTagGapCons('>', ['<'] + x);
        assert "><" + x == ['>'] + (['<'] + x);
      } else {
        GapsClosed(s[1..]);
        GapOpeningKept(s[1..]);
        NoTagGapCons(s[0], ReplaceAll(s[1..], TagGapRule));
      }
    }
  }

  // Collapsing runs of whitespace.

  lemma SpaceRunRuleFirst(t: string)
    requires |t| > 0
    ensures var r := ReplaceAll(t, SpaceRunRule);
            && |r| > 0
            && (IsSpace(r[0]) <==> IsSpace(t[0]))
            && (!IsSpace(t[0]) ==> r[0] == t[0])
  {
  }

  lemma NoDoubleSpaceCons(c: char, x: string)
    requires NoDoubleSpace(x)
    requires IsSpace(c) && |x| > 0 ==> !IsSpace(x[0])
    ensures NoDoubleSpace([c] + x)
  {
    forall i | 0 < i < |[c] + x| - 1
      ensures !(IsSpace(([c] + x)[i]) && IsSpace(([c] + x)[i + 1]))
    {
      assert ([c] + x)[i] == x[i - 1];
      assert ([c] + x)[i + 1] == x[i];
    }
  }

  /** After `/\s{2,}/g` → `' '`, no two whitespace characters are adjacent. */
  lemma {:induction false} RunsCollapsed(s: string)
    ensures NoDoubleSpace(ReplaceAll(s, SpaceRunRule))
    decreases |s|
  {
    if |s| > 0 {
      if MatchesAt(SpaceRunRule, s) {
        var n := LeadingSpaces(s);
        RunsCollapsed(s[n..]);
        if n < |s| {
          SpaceRunRuleFirst(s[n..]);
        }
        NoDoubleSpaceCons(' ', ReplaceAll(s[n..], SpaceRunRule));
        assert " " + ReplaceAll(s[n..], SpaceRunRule) == [' '] + ReplaceAll(s[n..], SpaceRunRule);
      } else {
        RunsCollapsed(s[1..]);
        if |s| > 1 {
          SpaceRunRuleFirst(s[1..]);
          assert IsSpace(s[0]) ==> LeadingSpaces(s) == 1 + LeadingSpaces(s[1..]);
        }
        NoDoubleSpaceCons(s[0], ReplaceAll(s[1..], SpaceRunRule));
      }
    }
  }

  lemma {:induction false} RunOpeningKept(t: string)
    ensures OpensGap(ReplaceAll(t, SpaceRunRule)) <==> OpensGap(t)
  {
    var n := LeadingSpaces(t);
    var r := ReplaceAll(t, SpaceRunRule);
    if n == 0 {
      if |t| > 0 {
        SpaceRunRuleFirst(t);
      }
      assert LeadingSpaces(r) == 0;
    } else {
      var m := if n >= 2 then n else 1;
      var head := if n >= 2 then " " else [t[0]];
      assert r == head + ReplaceAll(t[m..], SpaceRunRule);
      var tail := ReplaceAll(t[m..], SpaceRunRule);
      LeadingSpacesAfterSpaces(head, tail);
      if n == 1 {
        assert LeadingSpaces(t) == 1 + LeadingSpaces(t[1..]);
      }
      if |t[m..]| > 0 {
        SpaceRunRuleFirst(t[m..]);
        assert !IsSpace(t[m]);
        assert r[|head|] == t[m];
      }
    }
  }

  /** Collapsing runs of whitespace does not open a gap between tags. */
  lemma {:induction false} RunsKeepNoTagGap(s: string)
    requires NoTagGap(s)
    ensures NoTagGap(ReplaceAll(s, SpaceRunRule))
    decreases |s|
  {
    if |s| > 0 {
      if MatchesAt(SpaceRunRule, s) {
        var n := LeadingSpaces(s);
        NoTagGapSuffix(s, n);
        RunsKeepNoTagGap(s[n..]);
        NoTagGapCons(' ', ReplaceAll(s[n..], SpaceRunRule));
        assert " " + ReplaceAll(s[n..], SpaceRunRule) == [' '] + ReplaceAll(s[n..], SpaceRunRule);
      } else {
        NoTagGapSuffix(s, 1);
        RunsKeepNoTagGap(s[1..]);
        RunOpeningKept(s[1..]);
        NoTagGapCons(s[0], ReplaceAll(s[1..], SpaceRunRule));
      }
    }
  }

  // Trimming.

  lemma TrimKeeps(s: string)
    requires NoBreaksOrTabs(s) && NoDoubleSpace(s) && NoTagGap(s)
    ensures var r := Trim(s);
            NoBreaksOrTabs(r) && NoDoubleSpace(r) && NoTagGap(r) && Trimmed(r)
  {
    var r := Trim(s);
    var a := LeadingSpaces(s);
    TrimIsSlice(s);
    NoTagGapSubstring(s, a, a + |r|);
    SubstringKeeps(s, a, a + |r|);
  }

  lemma SubstringKeeps(s: string, a: nat, b: nat)
    requires NoBreaksOrTabs(s) && NoDoubleSpace(s) && a <= b <= |s|
    ensures NoBreaksOrTabs(s[a..b]) && NoDoubleSpace(s[a..b])
  {
    assert forall i :: 0 <= i < b - a ==> s[a..b][i] == s[a + i];
  }

  // The result.

  lemma StripBreaksResult(s: string)
    ensures NoBreaksOrTabs(StripBreaks(s)) && |StripBreaks(s)| <= |s|
  {
    var noNewlines := ReplaceAll(s, CharRule('\n', ""));
    var noReturns := ReplaceAll(noNewlines, CharRule('\r', ""));
    var noTabs := ReplaceAll(noReturns, CharRule('\t', ""));
    CharRuleSubstitutes(s, '\n', "");
    CharRuleSubstitutes(noNewlines, '\r', "");
    CharRuleSubstitutes(noReturns, '\t', "");
    forall i | 0 <= i < |noTabs| ensures NotBreakOrTab(noTabs[i]) {
      var x := noTabs[i];
      SubstituteChars(noReturns, '\t', "", x);
      SubstituteChars(noNewlines, '\r', "", x);
      SubstituteChars(s, '\n', "", x);
    }
    ReplaceAllShrinks(s, CharRule('\n', ""));
    ReplaceAllShrinks(noNewlines, CharRule('\r', ""));
    ReplaceAllShrinks(noReturns, CharRule('\t', ""));
  }

  /** A minified text holds no newline, carriage return or tab, no two
      adjacent whitespace characters, no `>` followed by whitespace and then
      `<`, no leading or trailing whitespace, and is never longer than its
      input. */
  lemma MinifyResult(s: string)
    ensures var r := Minify(s);
            && (forall i :: 0 <= i < |r| ==> r[i] != '\n' && r[i] != '\r' && r[i] != '\t')
            && NoDoubleSpace(r)
            && NoTagGap(r)
            && Trimmed(r)
            && |r| <= |s|
  {
    var stripped := StripBreaks(s);
    var gapsClosed := ReplaceAll(stripped, TagGapRule);
    var runsCollapsed := ReplaceAll(gapsClosed, SpaceRunRule);
    StripBreaksResult(s);
    ReplaceAllKeeps(stripped, TagGapRule, NotBreakOrTab);
    ReplaceAllKeeps(gapsClosed, SpaceRunRule, NotBreakOrTab);
    GapsClosed(stripped);
    RunsCollapsed(gapsClosed);
    RunsKeepNoTagGap(gapsClosed);
    TrimKeeps(runsCollapsed);
    ReplaceAllShrinks(stripped, TagGapRule);
    ReplaceAllShrinks(gapsClosed, SpaceRunRule);
  }

  lemma RemovingAbsentChar(y: string, c: char)
    requires c !in y
    ensures ReplaceAll(y, CharRule(c, "")) == y
  {
    CharRuleSubstitutes(y, c, "");
    SubstituteAbsent(y, c, "");
  }

  lemma BreaksAbsentUnchanged(y: string)
    requires NoBreaksOrTabs(y)
    ensures StripBreaks(y) == y
  {
    assert '\n' !in y && '\r' !in y && '\t' !in y by {
      forall i | 0 <= i < |y| ensures NotBreakOrTab(y[i]) {}
    }
    RemovingAbsentChar(y, '\n');
    RemovingAbsentChar(y, '\r');
    RemovingAbsentChar(y, '\t');
  }

  lemma TagGapsAbsentUnchanged(y: string)
    requires NoTagGap(y)
    ensures ReplaceAll(y, TagGapRule) == y
  {
    forall k | 0 <= k < |y| ensures !MatchesAt(TagGapRule, y[k..]) {
      assert y[k..][0] == y[k];
      assert y[k..][1..] == y[k + 1..];
    }
    NoMatchUnchanged(y, TagGapRule);
  }

  lemma SpaceRunsAbsentUnchanged(y: string)
    requires NoDoubleSpace(y)
    ensures ReplaceAll(y, SpaceRunRule) == y
  {
    forall k | 0 <= k < |y| ensures !MatchesAt(SpaceRunRule, y[k..]) {
      if k + 1 < |y| {
        assert y[k..][1] == y[k + 1];
      }
    }
    NoMatchUnchanged(y, SpaceRunRule);
  }

  /** A text that already has every property of a minified text is its own
      minification. */
  lemma MinifyFixes(y: string)
    requires NoBreaksOrTabs(y) && NoDoubleSpace(y) && NoTagGap(y) && Trimmed(y)
    ensures Minify(y) == y
  {
    BreaksAbsentUnchanged(y);
    TagGapsAbsentUnchanged(y);
    SpaceRunsAbsentUnchanged(y);
    TrimOfTrimmed(y);
  }

  /** Minifying a minified text changes nothing. */
  lemma MinifyIdempotent(s: string)
    ensures Minify(Minify(s)) == Minify(s)
  {
    var y := Minify(s);
    MinifyResult(s);
    assert NoBreaksOrTabs(y) by {
      forall i | 0 <= i < |y| ensures NotBreakOrTab(y[i]) {}
    }
    MinifyFixes(y);
  }
}
