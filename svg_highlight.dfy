/** `highlightSvgSyntax` (src/services/svgService.ts:146-160): three global
    replacements that escape `&`, `<` and `>` for HTML, then four that wrap
    comments, attribute values, attribute names and tag names in
    `<span class="syntax-…">` markers. */
module SvgHighlight {
  import opened Types
  import opened Text
  import opened Rewrite
  import opened SvgEscape

  // The wrapping passes.

  /** `<span class="cls">` + `inner` + `</span>` */
  function Span(cls: string, inner: string): string {
    "<span class=\"" + cls + "\">" + inner + "</span>"
  }

  predicate IsLetter(c: char) {
    ('a' <= c <= 'z') || ('A' <= c <= 'Z')
  }

  predicate IsDigit(c: char) {
    '0' <= c <= '9'
  }

  /** `[a-zA-Z-]` */
  predicate IsNameChar(c: char) {
    IsLetter(c) || c == '-'
  }

  /** `[a-zA-Z0-9]` */
  predicate IsAlnum(c: char) {
    IsLetter(c) || IsDigit(c)
  }

  /** The length of the longest run of characters satisfying `ok` that
      starts at `i`: what a greedy `[…]*` takes. */
  function Run(t: string, i: nat, ok: char -> bool): (n: nat)
    requires i <= |t|
    ensures i + n <= |t|
    ensures forall k :: i <= k < i + n ==> ok(t[k])
    ensures i + n < |t| ==> !ok(t[i + n])
    decreases |t| - i
  {
    if i < |t| && ok(t[i]) then 1 + Run(t, i + 1, ok) else 0
  }

  predicate OccursAt(t: string, pattern: string, k: nat) {
    k + |pattern| <= |t| && t[k..k + |pattern|] == pattern
  }

  /** The first place at or after `from` where `pattern` occurs: where a
      lazy `*?` followed by `pattern` stops. */
  function FindFrom(t: string, pattern: string, from: nat): (r: Option<nat>)
    requires from <= |t|
    ensures r.Some? ==> from <= r.value && OccursAt(t, pattern, r.value)
    ensures forall k :: from <= k < (if r.Some? then r.value else |t|) ==> !OccursAt(t, pattern, k)
    decreases |t| - from
  {
    if from + |pattern| > |t| then None
    else if t[from..from + |pattern|] == pattern then Some(from)
    else FindFrom(t, pattern, from + 1)
  }

  /** `/(&lt;!--[\s\S]*?--&gt;)/g`: an escaped comment, up to the first
      escaped `-->` after its opening. */
  function CommentMatch(t: string): Option<Match> {
    if StartsWith(t, "&lt;!--") then
      match FindFrom(t, "--&gt;", 7)
      case Some(j) => Some(Match(j + 6, Span("syntax-comment", t[..j + 6])))
      case None => None
    else None
  }

  /** `/="([^"]*)"/g`: `="`, the text up to the next `"`, and that `"`. */
  function ValueMatch(t: string): Option<Match> {
    if |t| >= 2 && t[0] == '=' && t[1] == '"' then
      var j := IndexFrom(t, '"', 2);
      if j < |t| then Some(Match(j + 1, "=\"" + Span("syntax-value", t[2..j]) + "\"")) else None
    else None
  }

  /** `/\s([a-zA-Z-]+)=/g`: one whitespace character, a name and `=`. The
      whitespace is replaced by a plain space. Since `=` is not a name
      character, the greedy run is the only candidate. */
  function AttrMatch(t: string): Option<Match> {
    if |t| >= 1 && IsSpace(t[0]) then
      var n := Run(t, 1, IsNameChar);
      if n >= 1 && 1 + n < |t| && t[1 + n] == '=' then
        Some(Match(n + 2, " " + Span("syntax-attr", t[1..1 + n]) + "="))
      else None
    else None
  }

  /** `/(&lt;\/?[a-zA-Z][a-zA-Z0-9]*)/g`: an escaped `<`, an optional `/`, a
      letter and then letters and digits. Since `/` is not a letter, taking
      the `/` whenever it is there is the only way to match. */
  function TagMatch(t: string): Option<Match> {
    if StartsWith(t, "&lt;") then
      var k := if |t| > 4 && t[4] == '/' then 5 else 4;
      if k < |t| && IsLetter(t[k]) then
        var n := k + 1 + Run(t, k + 1, IsAlnum);
        Some(Match(n, Span("syntax-tag", t[..n])))
      else None
    else None
  }

  function Highlight(svgCode: string): string {
    var escaped := Escape(svgCode);
    var comments := ReplaceAll(escaped, CommentMatch);
    var values := ReplaceAll(comments, ValueMatch);
    var attributes := ReplaceAll(values, AttrMatch);
    ReplaceAll(attributes, TagMatch)
  }

  // Every `<` of the result belongs to an inserted marker.

  /** Every `<` begins a `<span ` or a `</span>`, and the whole marker lies
      inside `s`. */
  predicate SpanMarkersOnly(s: string) {
    forall i :: 0 <= i < |s| && s[i] == '<' ==> StartsWith(s[i..], "<span ") || StartsWith(s[i..], "</span>")
  }

  lemma NoAngleMarked(s: string)
    requires '<' !in s
    ensures SpanMarkersOnly(s)
  {
    assert forall i :: 0 <= i < |s| ==> s[i] in s;
  }

  lemma StartsWithExtended(x: string, y: string, prefix: string)
    requires StartsWith(x, prefix)
    ensures StartsWith(x + y, prefix)
  {
    assert (x + y)[..|prefix|] == x[..|prefix|];
  }

  lemma MarkedConcat(a: string, b: string)
    requires SpanMarkersOnly(a) && SpanMarkersOnly(b)
    ensures SpanMarkersOnly(a + b)
  {
    forall i | 0 <= i < |a + b| && (a + b)[i] == '<'
      ensures StartsWith((a + b)[i..], "<span ") || StartsWith((a + b)[i..], "</span>")
    {
      if i < |a| {
        assert (a + b)[i..] == a[i..] + b;
        assert a[i] == '<';
        if StartsWith(a[i..], "<span ") {
          StartsWithExtended(a[i..], b, "<span ");
        } else {
          StartsWithExtended(a[i..], b, "</span>");
        }
      } else {
        assert (a + b)[i..] == b[i - |a|..];
        assert b[i - |a|] == '<';
      }
    }
  }

  lemma MarkedCons(c: char, r: string)
    requires c == '<' ==> StartsWith(r, "span ") || StartsWith(r, "/span>")
    requires SpanMarkersOnly(r)
    ensures SpanMarkersOnly([c] + r)
  {
    var s := [c] + r;
    forall i | 0 <= i < |s| && s[i] == '<'
      ensures StartsWith(s[i..], "<span ") || StartsWith(s[i..], "</span>")
    {
      if i == 0 {
        assert s[0..] == s;
        ConsMarker(r);
      } else {
        assert s[i..] == r[i - 1..];
        assert r[i - 1] == '<';
      }
    }
  }

  lemma ConsMarker(r: string)
    requires StartsWith(r, "span ") || StartsWith(r, "/span>")
    ensures StartsWith("<" + r, "<span ") || StartsWith("<" + r, "</span>")
  {
    if StartsWith(r, "span ") {
      assert ("<" + r)[..6] == "<" + r[..5];
    } else {
      assert ("<" + r)[..7] == "<" + r[..6];
    }
  }

  lemma MarkedSuffix(s: string, k: nat)
    requires SpanMarkersOnly(s) && k <= |s|
    ensures SpanMarkersOnly(s[k..])
  {
    forall i | 0 <= i < |s[k..]| && s[k..][i] == '<'
      ensures StartsWith(s[k..][i..], "<span ") || StartsWith(s[k..][i..], "</span>")
    {
      assert s[k..][i..] == s[k + i..];
      assert s[k + i] == '<';
    }
  }

  /** What follows the `<` of a marker. */
  lemma MarkerTail(s: string)
    requires |s| > 0 && (StartsWith(s, "<span ") || StartsWith(s, "</span>"))
    ensures StartsWith(s[1..], "span ") || StartsWith(s[1..], "/span>")
  {
    if StartsWith(s, "<span ") {
      assert s[1..][..5] == s[..6][1..];
    } else {
      assert s[1..][..6] == s[..7][1..];
    }
  }

  /** A span whose class and content hold no stray `<` holds none. */
  lemma SpanMarked(cls: string, inner: string)
    requires '<' !in cls && SpanMarkersOnly(inner)
    ensures SpanMarkersOnly(Span(cls, inner))
  {
    var open, close := "<span class=\"" + cls + "\">", "</span>";
    OpenMarkerMarked(cls);
    CloseMarkerMarked();
    MarkedConcat(open, inner);
    MarkedConcat(open + inner, close);
  }

  lemma OpenMarkerMarked(cls: string)
    requires '<' !in cls
    ensures SpanMarkersOnly("<span class=\"" + cls + "\">")
  {
    var rest := "span class=\"" + cls + "\">";
    assert '<' !in rest;
    NoAngleMarked(rest);
    assert rest[..5] == "span ";
    MarkedCons('<', rest);
    assert "<" + rest == "<span class=\"" + cls + "\">";
  }

  lemma CloseMarkerMarked()
    ensures SpanMarkersOnly("</span>")
  {
    var close := "/span>";
    assert '<' !in close;
    NoAngleMarked(close);
    assert close[..6] == "/span>";
    MarkedCons('<', close);
    assert ['<'] + close == "</span>";
  }

  /** A pass that never starts a match inside the text `span ` or `/span>`,
      except at a whitespace character that it replaces by text again
      beginning with a space. */
  ghost predicate KeepsSpanText(m: Matcher) {
    forall t :: MatchesAt(m, t) ==>
      && t[0] !in "/span>"
      && (t[0] == ' ' ==> |m(t).value.replacement| > 0 && m(t).value.replacement[0] == ' ')
  }

  lemma CopiesSpanWord(w: string, v: string, m: Matcher)
    requires KeepsSpanText(m)
    requires forall k :: 0 <= k < |w| ==> w[k] in "/span>"
    ensures ReplaceAll(w + v, m) == w + ReplaceAll(v, m)
  {
    forall k | 0 <= k < |w| ensures !MatchesAt(m, (w + v)[k..]) {
      assert (w + v)[k..][0] == w[k];
    }
    CopyUnmatched(w, v, m);
  }

  lemma LeadingSpaceKept(v: string, m: Matcher)
    requires KeepsSpanText(m)
    requires |v| > 0 && v[0] == ' '
    ensures |ReplaceAll(v, m)| > 0 && ReplaceAll(v, m)[0] == ' '
  {
  }

  lemma CloseWordKept(v: string, m: Matcher)
    requires KeepsSpanText(m)
    ensures StartsWith(ReplaceAll("/span>" + v, m), "/span>")
  {
    CopiesSpanWord("/span>", v, m);
    StartsWithExtended("/span>", ReplaceAll(v, m), "/span>");
  }

  lemma OpenWordKept(v: string, m: Matcher)
    requires KeepsSpanText(m)
    requires |v| > 0 && v[0] == ' '
    ensures StartsWith(ReplaceAll("span" + v, m), "span ")
  {
    CopiesSpanWord("span", v, m);
    LeadingSpaceKept(v, m);
    SpaceAfterWord(ReplaceAll(v, m));
  }

  lemma SpaceAfterWord(r: string)
    requires |r| > 0 && r[0] == ' '
    ensures StartsWith("span" + r, "span ")
  {
    assert ("span" + r)[..5] == "span" + [r[0]];
  }

  lemma SpanTextKept(u: string, m: Matcher)
    requires KeepsSpanText(m)
    requires StartsWith(u, "span ") || StartsWith(u, "/span>")
    ensures StartsWith(ReplaceAll(u, m), "span ") || StartsWith(ReplaceAll(u, m), "/span>")
  {
    if StartsWith(u, "/span>") {
      assert u == "/span>" + u[6..];
      CloseWordKept(u[6..], m);
    } else {
      assert u == "span" + u[4..];
      OpenWordKept(u[4..], m);
    }
  }

  /** A pass keeps every `<` inside a marker when the text it copies keeps
      the marker words and each of its replacements is marked itself. */
  lemma {:induction false} MarkedKept(s: string, m: Matcher)
    requires SpanMarkersOnly(s) && KeepsSpanText(m)
    requires forall k :: 0 <= k < |s| && MatchesAt(m, s[k..]) ==> SpanMarkersOnly(m(s[k..]).value.replacement)
    ensures SpanMarkersOnly(ReplaceAll(s, m))
    decreases |s|
  {
    if |s| > 0 {
      var n := if MatchesAt(m, s) then m(s).value.length else 1;
      var rest := s[n..];
      MarkedSuffix(s, n);
      forall k | 0 <= k < |rest| && MatchesAt(m, rest[k..])
        ensures SpanMarkersOnly(m(rest[k..]).value.replacement)
      {
        assert rest[k..] == s[n + k..];
      }
      MarkedKept(rest, m);
      assert s[0..] == s;
      if MatchesAt(m, s) {
        MarkedConcat(m(s).value.replacement, ReplaceAll(rest, m));
      } else {
        if s[0] == '<' {
          MarkerTail(s);
          SpanTextKept(rest, m);
        }
        MarkedCons(s[0], ReplaceAll(rest, m));
      }
    }
  }

  // The four wrapping passes keep the markers.

  lemma CommentKeepsSpanText()
    ensures KeepsSpanText(CommentMatch)
  {
    forall t | MatchesAt(CommentMatch, t) ensures t[0] == '&' {
      assert t[..7] == "&lt;!--";
    }
  }

  lemma ValueKeepsSpanText()
    ensures KeepsSpanText(ValueMatch)
  {
  }

  lemma AttrKeepsSpanText()
    ensures KeepsSpanText(AttrMatch)
  {
  }

  lemma TagKeepsSpanText()
    ensures KeepsSpanText(TagMatch)
  {
    forall t | MatchesAt(TagMatch, t) ensures t[0] == '&' {
      assert t[..4] == "&lt;";
    }
  }

  /** A marker ends before the next `"`, since it holds none. */
  lemma MarkerBeforeQuote(t: string, p: nat, marker: string, j: nat)
    requires p <= |t| && StartsWith(t[p..], marker) && '"' !in marker
    requires p <= j < |t| && t[j] == '"'
    ensures p + |marker| <= j
  {
    forall q | p <= q < p + |marker| ensures t[q] != '"' {
      assert t[q] == marker[q - p];
      assert marker[q - p] in marker;
    }
  }

  lemma MarkerWithin(t: string, p: nat, marker: string, j: nat)
    requires p <= |t| && StartsWith(t[p..], marker) && '"' !in marker
    requires p <= j < |t| && t[j] == '"'
    ensures StartsWith(t[p..j], marker)
  {
    MarkerBeforeQuote(t, p, marker, j);
    assert t[p..j][..|marker|] == t[p..][..|marker|];
  }

  /** The text between `="` and the next `"` keeps its markers whole. */
  lemma MarkedBeforeQuote(t: string, a: nat, j: nat)
    requires SpanMarkersOnly(t)
    requires a <= j < |t| && t[j] == '"'
    ensures SpanMarkersOnly(t[a..j])
  {
    var u := t[a..j];
    forall i | 0 <= i < |u| && u[i] == '<'
      ensures StartsWith(u[i..], "<span ") || StartsWith(u[i..], "</span>")
    {
      var p := a + i;
      assert t[p] == '<' && u[i..] == t[p..j];
      if StartsWith(t[p..], "<span ") {
        MarkerWithin(t, p, "<span ", j);
      } else {
        MarkerWithin(t, p, "</span>", j);
      }
    }
  }

  lemma CommentMarked(t: string)
    requires '<' !in t && MatchesAt(CommentMatch, t)
    ensures SpanMarkersOnly(CommentMatch(t).value.replacement)
  {
    var n := CommentMatch(t).value.length;
    assert forall k :: 0 <= k < n ==> t[..n][k] == t[k] && t[k] in t;
    NoAngleMarked(t[..n]);
    SpanMarked("syntax-comment", t[..n]);
  }

  /** A span between two texts without `<` */
  lemma WrapMarked(before: string, cls: string, inner: string, after: string)
    requires '<' !in before && '<' !in cls && '<' !in after && SpanMarkersOnly(inner)
    ensures SpanMarkersOnly(before + Span(cls, inner) + after)
  {
    SpanMarked(cls, inner);
    NoAngleMarked(before);
    NoAngleMarked(after);
    MarkedConcat(before, Span(cls, inner));
    MarkedConcat(before + Span(cls, inner), after);
  }

  lemma ValueMarked(t: string)
    requires SpanMarkersOnly(t) && MatchesAt(ValueMatch, t)
    ensures SpanMarkersOnly(ValueMatch(t).value.replacement)
  {
    var j := IndexFrom(t, '"', 2);
    MarkedBeforeQuote(t, 2, j);
    WrapMarked("=\"", "syntax-value", t[2..j], "\"");
  }

  lemma NameNoAngle(t: string, n: nat)
    requires 1 + n <= |t| && forall k :: 1 <= k < 1 + n ==> IsNameChar(t[k])
    ensures '<' !in t[1..1 + n]
  {
    var name := t[1..1 + n];
    assert forall k :: 0 <= k < n ==> name[k] == t[1 + k];
  }

  lemma AttrMarked(t: string)
    requires MatchesAt(AttrMatch, t)
    ensures SpanMarkersOnly(AttrMatch(t).value.replacement)
  {
    var n := Run(t, 1, IsNameChar);
    var name := t[1..1 + n];
    assert AttrMatch(t).value.replacement == " " + Span("syntax-attr", name) + "=";
    NameNoAngle(t, n);
    AttrReplacementMarked(name);
  }

  lemma AttrReplacementMarked(name: string)
    requires '<' !in name
    ensures SpanMarkersOnly(" " + Span("syntax-attr", name) + "=")
  {
    NoAngleMarked(name);
    WrapMarked(" ", "syntax-attr", name, "=");
  }

  lemma TagMarked(t: string)
    requires MatchesAt(TagMatch, t)
    ensures SpanMarkersOnly(TagMatch(t).value.replacement)
  {
    var n := TagMatch(t).value.length;
    var k := if |t| > 4 && t[4] == '/' then 5 else 4;
    assert t[..4] == "&lt;";
    forall q | 0 <= q < n ensures t[..n][q] != '<' {
      if q < 4 {
        assert t[q] == "&lt;"[q];
      }
    }
    NoAngleMarked(t[..n]);
    SpanMarked("syntax-tag", t[..n]);
  }

  /** Every `<` in the highlighted text begins an inserted `<span ` or
      `</span>`: escaping leaves no `<`, and each wrapping pass only adds
      whole markers and never breaks the words of the ones already there. */
  lemma HighlightMarked(svgCode: string)
    ensures SpanMarkersOnly(Highlight(svgCode))
  {
    var escaped := Escape(svgCode);
    EscapedNoAngles(svgCode);
    NoAngleMarked(escaped);
    forall k | 0 <= k < |escaped| && MatchesAt(CommentMatch, escaped[k..])
      ensures SpanMarkersOnly(CommentMatch(escaped[k..]).value.replacement)
    {
      assert forall q :: 0 <= q < |escaped[k..]| ==> escaped[k..][q] == escaped[k + q] && escaped[k + q] in escaped;
      CommentMarked(escaped[k..]);
    }
    CommentKeepsSpanText();
    MarkedKept(escaped, CommentMatch);

    var comments := ReplaceAll(escaped, CommentMatch);
    forall k | 0 <= k < |comments| && MatchesAt(ValueMatch, comments[k..])
      ensures SpanMarkersOnly(ValueMatch(comments[k..]).value.replacement)
    {
      MarkedSuffix(comments, k);
      ValueMarked(comments[k..]);
    }
    ValueKeepsSpanText();
    MarkedKept(comments, ValueMatch);

    var values := ReplaceAll(comments, ValueMatch);
    forall k | 0 <= k < |values| && MatchesAt(AttrMatch, values[k..])
      ensures SpanMarkersOnly(AttrMatch(values[k..]).value.replacement)
    {
      AttrMarked(values[k..]);
    }
    AttrKeepsSpanText();
    MarkedKept(values, AttrMatch);

    var attributes := ReplaceAll(values, AttrMatch);
    forall k | 0 <= k < |attributes| && MatchesAt(TagMatch, attributes[k..])
      ensures SpanMarkersOnly(TagMatch(attributes[k..]).value.replacement)
    {
      TagMarked(attributes[k..]);
    }
    TagKeepsSpanText();
    MarkedKept(attributes, TagMatch);
  }

  // Text the highlighter has nothing to do with.

  lemma CommentStart(t: string)
    ensures MatchesAt(CommentMatch, t) ==> |t| >= 7 && t[0] == '&' && t[4] == '!'
  {
    if StartsWith(t, "&lt;!--") {
      assert t[0] == t[..7][0] && t[4] == t[..7][4];
    }
  }

  lemma TagStart(t: string)
    ensures MatchesAt(TagMatch, t) ==> |t| >= 4 && t[..4] == "&lt;"
  {
  }

  lemma AttrNeedsEquals(t: string)
    ensures MatchesAt(AttrMatch, t) ==> '=' in t
  {
    if |t| >= 1 && IsSpace(t[0]) {
      var n := Run(t, 1, IsNameChar);
      if n >= 1 && 1 + n < |t| && t[1 + n] == '=' {
        assert t[1 + n] in t;
      }
    }
  }

  lemma InSuffix(s: string, k: nat, x: char)
    requires k <= |s|
    ensures x in s[k..] ==> x in s
  {
    if x in s[k..] {
      var i :| 0 <= i < |s[k..]| && s[k..][i] == x;
      assert s[k + i] == x;
    }
  }

  lemma EscapeIdentity(s: string)
    requires '&' !in s && '<' !in s && '>' !in s
    ensures Escape(s) == s
  {
    CharRuleSubstitutes(s, '&', "&amp;");
    SubstituteAbsent(s, '&', "&amp;");
    CharRuleSubstitutes(s, '<', "&lt;");
    SubstituteAbsent(s, '<', "&lt;");
    CharRuleSubstitutes(s, '>', "&gt;");
    SubstituteAbsent(s, '>', "&gt;");
  }

  lemma CommentsNeedAmp(s: string)
    requires '&' !in s
    ensures ReplaceAll(s, CommentMatch) == s
  {
    forall k | 0 <= k < |s| ensures !MatchesAt(CommentMatch, s[k..]) {
      assert s[k..][0] == s[k] && s[k] in s;
      CommentStart(s[k..]);
    }
    NoMatchUnchanged(s, CommentMatch);
  }

  lemma TagsNeedAmp(s: string)
    requires '&' !in s
    ensures ReplaceAll(s, TagMatch) == s
  {
    forall k | 0 <= k < |s| ensures !MatchesAt(TagMatch, s[k..]) {
      assert s[k..][0] == s[k] && s[k] in s;
      TagStart(s[k..]);
    }
    NoMatchUnchanged(s, TagMatch);
  }

  lemma ValuesNeedEquals(s: string)
    requires '=' !in s
    ensures ReplaceAll(s, ValueMatch) == s
  {
    forall k | 0 <= k < |s| ensures !MatchesAt(ValueMatch, s[k..]) {
      assert s[k..][0] == s[k] && s[k] in s;
    }
    NoMatchUnchanged(s, ValueMatch);
  }

  lemma AttrsNeedEquals(s: string)
    requires '=' !in s
    ensures ReplaceAll(s, AttrMatch) == s
  {
    forall k | 0 <= k < |s| ensures !MatchesAt(AttrMatch, s[k..]) {
      AttrNeedsEquals(s[k..]);
      InSuffix(s, k, '=');
    }
    NoMatchUnchanged(s, AttrMatch);
  }

  /** Text holding none of `&`, `<`, `>` and `=` comes back unchanged: there
      is nothing to escape, and every wrapping pattern needs `&` or `=`. */
  lemma HighlightIdentity(svgCode: string)
    requires '&' !in svgCode && '<' !in svgCode && '>' !in svgCode && '=' !in svgCode
    ensures Highlight(svgCode) == svgCode
  {
    EscapeIdentity(svgCode);
    CommentsNeedAmp(svgCode);
    ValuesNeedEquals(svgCode);
    AttrsNeedEquals(svgCode);
    TagsNeedAmp(svgCode);
  }

  lemma {:induction false} EscapeEachConcat(a: string, b: string)
    ensures EscapeEach(a + b) == EscapeEach(a) + EscapeEach(b)
    decreases |a|
  {
    if |a| == 0 {
      assert a + b == b;
    } else {
      assert (a + b)[1..] == a[1..] + b;
      EscapeEachConcat(a[1..], b);
    }
  }

  lemma {:induction false} EscapeEachPlain(s: string)
    requires forall i :: 0 <= i < |s| ==> IsAlnum(s[i])
    ensures EscapeEach(s) == s
    decreases |s|
  {
    if |s| > 0 {
      EscapeEachPlain(s[1..]);
      assert s == [s[0]] + s[1..];
    }
  }

  lemma CommentsNeedBang(s: string)
    requires '!' !in s
    ensures ReplaceAll(s, CommentMatch) == s
  {
    forall k | 0 <= k < |s| ensures !MatchesAt(CommentMatch, s[k..]) {
      CommentStart(s[k..]);
      InSuffix(s, k, '!');
      if |s[k..]| >= 7 {
        assert s[k..][4] in s[k..];
      }
    }
    NoMatchUnchanged(s, CommentMatch);
  }

  /** A tag with a plain name: `<name>` becomes the escaped `&lt;name`
      wrapped as a tag, followed by the escaped `&gt;`. */
  lemma HighlightTag(name: string)
    requires |name| > 0 && IsLetter(name[0]) && forall i :: 0 <= i < |name| ==> IsAlnum(name[i])
    ensures Highlight("<" + name + ">") == Span("syntax-tag", "&lt;" + name) + "&gt;"
  {
    var e := "&lt;" + name + "&gt;";
    EscapeIsEscapeEach("<" + name + ">");
    EscapeEachConcat("<" + name, ">");
    EscapeEachConcat("<", name);
    EscapeEachPlain(name);
    assert EscapeEach("<") == "&lt;" && EscapeEach(">") == "&gt;";
    assert Escape("<" + name + ">") == e;
    assert forall i :: 0 <= i < |name| ==> name[i] != '!' && name[i] != '=';
    assert '!' !in e && '=' !in e;
    CommentsNeedBang(e);
    ValuesNeedEquals(e);
    AttrsNeedEquals(e);
    TagOfName(name);
  }

  /** A run ends at the first character that does not belong to it. */
  lemma RunStops(t: string, i: nat, j: nat, ok: char -> bool)
    requires i <= j < |t| && !ok(t[j])
    requires forall k :: i <= k < j ==> ok(t[k])
    ensures Run(t, i, ok) == j - i
  {
  }

  /** An opening tag: the escaped `<`, a letter, and the run of letters and
      digits after it make up the match. */
  lemma TagMatchOpening(t: string, r: nat)
    requires StartsWith(t, "&lt;") && |t| > 4 && IsLetter(t[4]) && Run(t, 5, IsAlnum) == r
    ensures TagMatch(t) == Some(Match(5 + r, Span("syntax-tag", t[..5 + r])))
  {
    assert t[4] != '/';
  }

  lemma TagMatchOfName(name: string)
    requires |name| > 0 && IsLetter(name[0]) && forall i :: 0 <= i < |name| ==> IsAlnum(name[i])
    ensures TagMatch("&lt;" + name + "&gt;") == Some(Match(4 + |name|, Span("syntax-tag", "&lt;" + name)))
  {
    var e := "&lt;" + name + "&gt;";
    var n := 4 + |name|;
    assert StartsWith(e, "&lt;") && e[4] == name[0] by {
      assert e[..4] == "&lt;";
    }
    assert Run(e, 5, IsAlnum) == |name| - 1 by {
      assert e[n] == '&';
      assert forall i :: 4 <= i < n ==> e[i] == name[i - 4];
      RunStops(e, 5, n, IsAlnum);
    }
    TagMatchOpening(e, |name| - 1);
    assert e[..n] == "&lt;" + name;
  }

  lemma TagOfName(name: string)
    requires |name| > 0 && IsLetter(name[0]) && forall i :: 0 <= i < |name| ==> IsAlnum(name[i])
    ensures ReplaceAll("&lt;" + name + "&gt;", TagMatch) == Span("syntax-tag", "&lt;" + name) + "&gt;"
  {
    var e := "&lt;" + name + "&gt;";
    var n := 4 + |name|;
    TagMatchOfName(name);
    var rest := "&gt;";
    assert e[n..] == rest;
    forall k | 0 <= k < |rest| ensures !MatchesAt(TagMatch, rest[k..]) {
      TagStart(rest[k..]);
    }
    NoMatchUnchanged(rest, TagMatch);
  }

  /** `"<svg>"` gives `<span class="syntax-tag">&lt;svg</span>&gt;`. */
  lemma HighlightExample()
    ensures Highlight("<svg>") == Span("syntax-tag", "&lt;svg") + "&gt;"
  {
    HighlightTag("svg");
    assert "<" + "svg" + ">" == "<svg>";
    assert "&lt;" + "svg" == "&lt;svg";
  }
}
