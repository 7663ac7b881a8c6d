/** `formatSvgCode` (src/services/svgService.ts:11-48): the text is trimmed,
    its CRLF line ends become LF, it is cut into tag and text tokens, and an
    indentation counter walks the tokens, emitting one line per token that is
    not blank. */
module SvgFormat {
  import opened Types
  import opened Text
  import opened Rewrite

  const IndentSize: nat := 2

  /** `/\r\n/g` → `\n` */
  function CrLfRule(t: string): Option<Match> {
    if |t| >= 2 && t[0] == '\r' && t[1] == '\n' then Some(Match(2, "\n")) else None
  }

  /** `svgCode.trim().replace(/\r\n/g, '\n')` */
  function Normalize(s: string): string {
    ReplaceAll(Trim(s), CrLfRule)
  }

  // Tokenising: `formatted.split(/(<[^>]+>)/g).filter(Boolean)`.

  /** The end of the match of `<[^>]+>` that starts at `i`, if there is one:
      a `<`, at least one character other than `>`, and the first `>` after
      them. */
  function TagAt(s: string, i: nat): (e: Option<nat>)
    requires i < |s|
    ensures e.Some? ==> i + 3 <= e.value <= |s|
  {
    if s[i] == '<' then
      var j := IndexFrom(s, '>', i + 1);
      if i + 1 < j < |s| then Some(j + 1) else None
    else None
  }

  /** The pieces of `s[start..]`, scanning from `i`: the text before each
      leftmost tag match, the match itself, and the text after the last
      match. Because the pattern's group is capturing, `split` keeps the
      matches; the empty pieces it also produces are the ones that
      `filter(Boolean)` removes, so they are never emitted here. */
  function Split(s: string, start: nat, i: nat): seq<string>
    requires start <= i <= |s|
    decreases |s| - i
  {
    if i == |s| then
      if start < i then [s[start..]] else []
    else
      match TagAt(s, i)
      case Some(e) => (if start < i then [s[start..i]] else []) + [s[i..e]] + Split(s, e, e)
      case None => Split(s, start, i + 1)
  }

  function Tokens(s: string): seq<string> {
    Split(s, 0, 0)
  }

  function Concat(parts: seq<string>): string {
    if parts == [] then "" else parts[0] + Concat(parts[1..])
  }

  lemma {:induction false} ConcatAppend(a: seq<string>, b: seq<string>)
    ensures Concat(a + b) == Concat(a) + Concat(b)
    decreases |a|
  {
    if a == [] {
      assert a + b == b;
    } else {
      assert (a + b)[1..] == a[1..] + b;
      ConcatAppend(a[1..], b);
    }
  }

  lemma {:induction false} SplitReassembles(s: string, start: nat, i: nat)
    requires start <= i <= |s|
    ensures Concat(Split(s, start, i)) == s[start..]
    ensures forall k :: 0 <= k < |Split(s, start, i)| ==> Split(s, start, i)[k] != ""
    decreases |s| - i
  {
    if i == |s| {
    } else {
      match TagAt(s, i)
      case Some(e) =>
        SplitReassembles(s, e, e);
        SplitAtTag(s, start, i, e, Split(s, e, e));
      case None =>
        SplitReassembles(s, start, i + 1);
    }
  }

  lemma SplitAtTag(s: string, start: nat, i: nat, e: nat, rest: seq<string>)
    requires start <= i < e <= |s|
    requires Concat(rest) == s[e..]
    ensures var front := if start < i then [s[start..i]] else [];
            Concat(front + [s[i..e]] + rest) == s[start..]
  {
    var front := if start < i then [s[start..i]] else [];
    ConcatAppend(front + [s[i..e]], rest);
    ConcatAppend(front, [s[i..e]]);
    assert Concat([s[i..e]]) == s[i..e];
    assert s[start..] == s[start..i] + s[i..e] + s[e..];
  }

  // Where the text is cut.

  /** A whole match of `<[^>]+>`: a `<`, at least one character, none of
      them `>`, and a closing `>`. */
  predicate IsTag(t: string) {
    && |t| >= 3 && t[0] == '<' && t[|t| - 1] == '>'
    && forall k :: 0 < k < |t| - 1 ==> t[k] != '>'
  }

  /** Text in which no match of `<[^>]+>` starts. */
  predicate TagFree(t: string) {
    forall j :: 0 <= j < |t| ==> TagAt(t, j).None?
  }

  /** A match found by `TagAt` is a whole tag. */
  lemma TagAtIsTag(s: string, i: nat)
    requires i < |s|
    ensures TagAt(s, i).Some? ==> IsTag(s[i..TagAt(s, i).value])
  {
  }

  /** A match inside a slice is a match in the whole text. */
  lemma TagInSlice(s: string, a: nat, b: nat, j: nat)
    requires a <= b <= |s| && j < b - a
    ensures TagAt(s[a..b], j).Some? ==> TagAt(s, a + j).Some?
  {
    var t := s[a..b];
    if TagAt(t, j).Some? {
      var close := IndexFrom(t, '>', j + 1);
      var r := IndexFrom(s, '>', a + j + 1);
      assert s[a + close] == t[close];
      forall k | a + j + 1 <= k < a + close ensures s[k] != '>' {
        assert s[k] == t[k - a];
      }
      assert r == a + close;
    }
  }

  /** A slice of text where no match starts holds no match of its own. */
  lemma TagFreeSlice(s: string, a: nat, b: nat)
    requires a <= b <= |s|
    requires forall j :: a <= j < b ==> TagAt(s, j).None?
    ensures TagFree(s[a..b])
  {
    forall j | 0 <= j < b - a ensures TagAt(s[a..b], j).None? {
      TagInSlice(s, a, b, j);
    }
  }

  /** A whole tag is the match that starts at its own first character. */
  lemma TagMatchesItself(t: string)
    requires IsTag(t)
    ensures TagAt(t, 0) == Some(|t|)
  {
    assert IndexFrom(t, '>', 1) == |t| - 1;
  }

  /** No text is both a whole tag and free of tags. */
  lemma TagFreeNotTag(t: string)
    ensures TagFree(t) ==> !IsTag(t)
  {
    if IsTag(t) {
      TagMatchesItself(t);
    }
  }

  /** Piece `p` lies at offset `o` of `s`. A tag piece is the match of
      `<[^>]+>` that starts there; in any other piece no match starts. */
  predicate PieceAt(s: string, o: nat, p: string) {
    && o + |p| <= |s| && s[o..o + |p|] == p
    && (IsTag(p) ==> o < |s| && TagAt(s, o) == Some(o + |p|))
    && (!IsTag(p) ==> forall j :: o <= j < o + |p| ==> TagAt(s, j).None?)
  }

  /** Piece `k` or the piece after it is a tag. */
  predicate TagBeside(ps: seq<string>, k: nat)
    requires k + 1 < |ps|
  {
    IsTag(ps[k]) || IsTag(ps[k + 1])
  }

  /** Every piece of `ps` lies at the offset the pieces before it reach,
      counting from `start`. */
  predicate PiecesAt(s: string, start: nat, ps: seq<string>) {
    forall k :: 0 <= k < |ps| ==> PieceAt(s, start + |Concat(ps[..k])|, ps[k])
  }

  /** No two text pieces are adjacent. */
  predicate TagsBetweenTexts(ps: seq<string>) {
    forall k :: 0 <= k < |ps| - 1 ==> TagBeside(ps, k)
  }

  /** `ps` cuts `s[start..]` at the tags: every piece lies at its offset,
      and no two text pieces are adjacent. */
  predicate CutAtTags(s: string, start: nat, ps: seq<string>) {
    PiecesAt(s, start, ps) && TagsBetweenTexts(ps)
  }

  lemma PieceCons(s: string, o: nat, p: string, ps: seq<string>, k: nat)
    requires PieceAt(s, o, p) && PiecesAt(s, o + |p|, ps)
    requires k < |ps| + 1
    ensures PieceAt(s, o + |Concat(([p] + ps)[..k])|, ([p] + ps)[k])
  {
    var qs := [p] + ps;
    if k == 0 {
      assert qs[..k] == [];
    } else {
      var off := o + |p| + |Concat(ps[..k - 1])|;
      assert o + |Concat(qs[..k])| == off by {
        assert qs[..k][0] == p && qs[..k][1..] == ps[..k - 1];
      }
      assert PieceAt(s, off, ps[k - 1]);
      assert qs[k] == ps[k - 1];
    }
  }

  lemma PiecesCons(s: string, o: nat, p: string, ps: seq<string>)
    requires PieceAt(s, o, p) && PiecesAt(s, o + |p|, ps)
    ensures PiecesAt(s, o, [p] + ps)
  {
    forall k | 0 <= k < |ps| + 1 ensures PieceAt(s, o + |Concat(([p] + ps)[..k])|, ([p] + ps)[k]) {
      PieceCons(s, o, p, ps, k);
    }
  }

  lemma TagsBetweenTextsCons(p: string, ps: seq<string>)
    requires TagsBetweenTexts(ps)
    requires IsTag(p) || ps == [] || IsTag(ps[0])
    ensures TagsBetweenTexts([p] + ps)
  {
    var qs := [p] + ps;
    forall k | 0 <= k < |qs| - 1 ensures TagBeside(qs, k) {
      if k > 0 {
        assert TagBeside(ps, k - 1);
        assert qs[k] == ps[k - 1] && qs[k + 1] == ps[k];
      }
    }
  }

  /** A piece placed in front of a cut list at its offset extends it. */
  lemma CutCons(s: string, o: nat, p: string, ps: seq<string>)
    requires PieceAt(s, o, p) && CutAtTags(s, o + |p|, ps)
    requires IsTag(p) || ps == [] || IsTag(ps[0])
    ensures CutAtTags(s, o, [p] + ps)
  {
    PiecesCons(s, o, p, ps);
    TagsBetweenTextsCons(p, ps);
  }

  /** The text between two tags, or after the last one, is a text piece. */
  lemma TextPiece(s: string, a: nat, b: nat)
    requires a < b <= |s|
    requires forall j :: a <= j < b ==> TagAt(s, j).None?
    ensures PieceAt(s, a, s[a..b]) && !IsTag(s[a..b])
  {
    TagFreeSlice(s, a, b);
    TagFreeNotTag(s[a..b]);
  }

  /** The text after the last tag is cut as one piece. */
  lemma CutEnd(s: string, start: nat)
    requires start < |s|
    requires forall j :: start <= j < |s| ==> TagAt(s, j).None?
    ensures CutAtTags(s, start, [s[start..]])
  {
    TextPiece(s, start, |s|);
    assert s[start..] == s[start..|s|];
    CutCons(s, start, s[start..], []);
    assert [s[start..]] + [] == [s[start..]];
  }

  /** A match is a tag piece at its own offset. */
  lemma TagPiece(s: string, i: nat, e: nat)
    requires i < |s| && TagAt(s, i) == Some(e)
    ensures PieceAt(s, i, s[i..e]) && IsTag(s[i..e]) && i + |s[i..e]| == e
  {
    TagAtIsTag(s, i);
  }

  /** A match, then the cut rest. */
  lemma CutAtTag(s: string, i: nat, e: nat, rest: seq<string>)
    requires i < |s| && TagAt(s, i) == Some(e)
    requires CutAtTags(s, e, rest)
    ensures CutAtTags(s, i, [s[i..e]] + rest)
  {
    TagPiece(s, i, e);
    CutCons(s, i, s[i..e], rest);
  }

  /** Text with no match in it, then a match, then the cut rest. */
  lemma CutTextThenTag(s: string, start: nat, i: nat, e: nat, rest: seq<string>)
    requires start < i < |s| && TagAt(s, i) == Some(e)
    requires forall j :: start <= j < i ==> TagAt(s, j).None?
    requires CutAtTags(s, i, [s[i..e]] + rest)
    ensures CutAtTags(s, start, [s[start..i]] + ([s[i..e]] + rest))
  {
    TextPiece(s, start, i);
    var ps := [s[i..e]] + rest;
    assert start + |s[start..i]| == i;
    assert ps[0] == s[i..e];
    TagAtIsTag(s, i);
    CutCons(s, start, s[start..i], ps);
  }

  /** The text before a match, then the match, then the cut rest. */
  lemma CutAtMatch(s: string, start: nat, i: nat, e: nat, rest: seq<string>)
    requires start <= i < |s| && TagAt(s, i) == Some(e)
    requires forall j :: start <= j < i ==> TagAt(s, j).None?
    requires CutAtTags(s, e, rest)
    ensures CutAtTags(s, start, (if start < i then [s[start..i]] else []) + [s[i..e]] + rest)
  {
    CutAtTag(s, i, e, rest);
    if start < i {
      CutTextThenTag(s, start, i, e, rest);
      assert [s[start..i]] + [s[i..e]] + rest == [s[start..i]] + ([s[i..e]] + rest);
    } else {
      assert [] + [s[i..e]] + rest == [s[i..e]] + rest;
    }
  }

  /** Where the pieces fall: `Split` cuts at the leftmost matches, each tag
      is a piece of its own, and the text between two tags is one piece. */
  lemma {:induction false} SplitCuts(s: string, start: nat, i: nat)
    requires start <= i <= |s|
    requires forall j :: start <= j < i ==> TagAt(s, j).None?
    ensures CutAtTags(s, start, Split(s, start, i))
    decreases |s| - i
  {
    if i == |s| {
      if start < i {
        CutEnd(s, start);
      }
    } else {
      match TagAt(s, i)
      case Some(e) =>
        SplitCuts(s, e, e);
        CutAtMatch(s, start, i, e, Split(s, e, e));
      case None =>
        SplitCuts(s, start, i + 1);
    }
  }

  /** Every piece is a whole tag or text in which no tag starts. */
  lemma {:induction false} SplitPieces(s: string, start: nat, i: nat)
    requires start <= i <= |s|
    requires forall j :: start <= j < i ==> TagAt(s, j).None?
    ensures forall k :: 0 <= k < |Split(s, start, i)| ==>
      IsTag(Split(s, start, i)[k]) || TagFree(Split(s, start, i)[k])
    decreases |s| - i
  {
    if i == |s| {
      if start < i {
        TagFreeSlice(s, start, i);
        assert s[start..] == s[start..i];
      }
    } else {
      match TagAt(s, i)
      case Some(e) =>
        SplitPieces(s, e, e);
        TagAtIsTag(s, i);
        var front := if start < i then [s[start..i]] else [];
        if start < i {
          TagFreeSlice(s, start, i);
        }
        var ps := front + [s[i..e]] + Split(s, e, e);
        forall k | 0 <= k < |ps| ensures IsTag(ps[k]) || TagFree(ps[k]) {
          if k >= |front| + 1 {
            assert ps[k] == Split(s, e, e)[k - |front| - 1];
          }
        }
      case None =>
        SplitPieces(s, start, i + 1);
    }
  }

  /** The tokens are never empty and, put back together, give the trimmed,
      LF-normalised text; each is a whole tag or text with no tag in it, and
      they are cut exactly at the leftmost tag matches. */
  lemma TokensReassemble(svgCode: string)
    ensures var ts := Tokens(Normalize(svgCode));
            && Concat(ts) == Normalize(svgCode)
            && (forall k :: 0 <= k < |ts| ==> ts[k] != "")
            && (forall k :: 0 <= k < |ts| ==> IsTag(ts[k]) || TagFree(ts[k]))
            && CutAtTags(Normalize(svgCode), 0, ts)
  {
    SplitReassembles(Normalize(svgCode), 0, 0);
    SplitPieces(Normalize(svgCode), 0, 0);
    SplitCuts(Normalize(svgCode), 0, 0);
  }

  // The indentation counter.

  datatype Kind = Closing | SelfClosing | Declaration | Opening | Content

  /** The branches of the loop body, in their order. */
  function KindOf(t: string): Kind {
    if StartsWith(t, "</") then Closing
    else if StartsWith(t, "<") && EndsWith(t, "/>") then SelfClosing
    else if StartsWith(t, "<?") || StartsWith(t, "<!") then Declaration
    else if StartsWith(t, "<") then Opening
    else Content
  }

  /** The emitted lines, the indentation each was emitted at, and the
      counter. */
  datatype Layout = Layout(lines: seq<string>, levels: seq<nat>, indent: nat)

  /** Every token trimmed, in order. */
  function TrimAll(tokens: seq<string>): (r: seq<string>)
    ensures |r| == |tokens|
  {
    seq(|tokens|, i requires 0 <= i < |tokens| => Trim(tokens[i]))
  }

  /** The texts the loop emits a line for: the ones that are not empty. The
      blank tokens are the ones it skips with `continue`. */
  function NonEmpty(texts: seq<string>): seq<string>
    decreases |texts|
  {
    if texts == [] then []
    else
      var t := texts[|texts| - 1];
      NonEmpty(texts[..|texts| - 1]) + (if t == "" then [] else [t])
  }

  /** The counter after a closing tag: two less, but never below 0. */
  function Dedent(indent: nat): nat {
    if indent >= IndentSize then indent - IndentSize else 0
  }

  /** The indentation the line for `t` is emitted at. */
  function LevelOf(indent: nat, t: string): nat {
    if KindOf(t) == Closing then Dedent(indent) else indent
  }

  /** The counter after the line for `t`. */
  function IndentAfter(indent: nat, t: string): nat {
    match KindOf(t)
    case Closing => Dedent(indent)
    case Opening => indent + IndentSize
    case _ => indent
  }

  /** The loop body on one trimmed, non-empty token `t`. */
  function Place(prev: Layout, t: string): Layout {
    var at := LevelOf(prev.indent, t);
    Layout(prev.lines + [Spaces(at) + t], prev.levels + [at], IndentAfter(prev.indent, t))
  }

  /** What the loop has built after placing `texts`, one after another,
      starting from no lines and a counter of 0. */
  function LayOut(texts: seq<string>): Layout
    decreases |texts|
  {
    if texts == [] then Layout([], [], 0)
    else Place(LayOut(texts[..|texts| - 1]), texts[|texts| - 1])
  }

  /** The texts of the formatter's lines. */
  function LineTexts(svgCode: string): seq<string> {
    NonEmpty(TrimAll(Tokens(Normalize(svgCode))))
  }

  /** Trimming leaves a whole tag as it is and keeps text free of tags. */
  lemma TrimPiece(t: string)
    ensures IsTag(t) ==> Trim(t) == t
    ensures TagFree(t) ==> TagFree(Trim(t))
  {
    if IsTag(t) {
      TrimOfTrimmed(t);
    }
    TrimIsSlice(t);
    if TagFree(t) {
      TagFreeSlice(t, LeadingSpaces(t), LeadingSpaces(t) + |Trim(t)|);
    }
  }

  /** Every tag token is the text of a line, every line that is a whole tag
      is a tag token, and every other line holds no tag. */
  lemma LinesAreTagsOrText(svgCode: string)
    ensures var ts, texts := Tokens(Normalize(svgCode)), LineTexts(svgCode);
            && (forall k :: 0 <= k < |ts| && IsTag(ts[k]) ==> ts[k] in texts)
            && (forall k :: 0 <= k < |texts| && IsTag(texts[k]) ==> texts[k] in ts)
            && (forall k :: 0 <= k < |texts| ==> IsTag(texts[k]) || TagFree(texts[k]))
  {
    var ts := Tokens(Normalize(svgCode));
    var texts := LineTexts(svgCode);
    TokensReassemble(svgCode);
    NonEmptyKeeps(TrimAll(ts));
    forall k | 0 <= k < |ts| && IsTag(ts[k]) ensures ts[k] in texts {
      TrimPiece(ts[k]);
      assert TrimAll(ts)[k] == ts[k];
    }
    forall t | t in TrimAll(ts) ensures (IsTag(t) || TagFree(t)) && (IsTag(t) ==> t in ts) {
      var i :| 0 <= i < |ts| && TrimAll(ts)[i] == t;
      TrimPiece(ts[i]);
      TagFreeNotTag(t);
    }
    assert forall k :: 0 <= k < |texts| ==> texts[k] in texts;
  }

  method FormatSvgCode(svgCode: string) returns (formatted: string)
    ensures formatted == Join(LayOut(LineTexts(svgCode)).lines, "\n")
  {
    var text := Normalize(svgCode);
    var indent: nat := 0;
    var lines: seq<string> := [];
    var tokens := Tokens(text);
    ghost var trimmedTokens := TrimAll(tokens);
    ghost var layout := LayOut([]);
    for k := 0 to |tokens|
      invariant layout == LayOut(NonEmpty(trimmedTokens[..k]))
      invariant layout.lines == lines && layout.indent == indent
    {
      ghost var done := NonEmpty(trimmedTokens[..k]);
      NonEmptyStep(trimmedTokens, k);
      var trimmed := Trim(tokens[k]);
      assert trimmed == trimmedTokens[k];
      if trimmed == "" {
        assert NonEmpty(trimmedTokens[..k + 1]) == done;
        continue;
      }
      LayOutSnoc(done, trimmed);
      IndentStep(layout, trimmed);
      layout := Place(layout, trimmed);
      if StartsWith(trimmed, "</") {
        indent := if indent >= IndentSize then indent - IndentSize else 0;
        lines := lines + [Spaces(indent) + trimmed];
      } else if StartsWith(trimmed, "<") && EndsWith(trimmed, "/>") {
        lines := lines + [Spaces(indent) + trimmed];
      } else if StartsWith(trimmed, "<?") || StartsWith(trimmed, "<!") {
        lines := lines + [Spaces(indent) + trimmed];
      } else if StartsWith(trimmed, "<") {
        lines := lines + [Spaces(indent) + trimmed];
        indent := indent + IndentSize;
      } else {
        lines := lines + [Spaces(indent) + trimmed];
      }
    }
    assert trimmedTokens[..|tokens|] == trimmedTokens;
    formatted := Join(lines, "\n");
  }

  // Properties of the layout.

  lemma LayOutSnoc(texts: seq<string>, t: string)
    ensures LayOut(texts + [t]) == Place(LayOut(texts), t)
  {
    assert (texts + [t])[..|texts|] == texts;
  }

  /** `l` has one line per text, in order; each line is the text behind as
      many spaces as its level; the levels and the counter are even. */
  predicate Shaped(l: Layout, texts: seq<string>) {
    && |l.lines| == |l.levels| == |texts|
    && l.indent % 2 == 0
    && forall k :: 0 <= k < |texts| ==>
         l.lines[k] == Spaces(l.levels[k]) + texts[k] && l.levels[k] % 2 == 0
  }

  /** The step keeps the counter even. */
  lemma StepEven(indent: nat, t: string)
    requires indent % 2 == 0
    ensures LevelOf(indent, t) % 2 == 0 && IndentAfter(indent, t) % 2 == 0
  {
  }

  lemma PlaceShaped(prev: Layout, texts: seq<string>, t: string)
    requires Shaped(prev, texts)
    ensures Shaped(Place(prev, t), texts + [t])
  {
    StepEven(prev.indent, t);
    var l := Place(prev, t);
    forall k | 0 <= k < |texts| + 1
      ensures l.lines[k] == Spaces(l.levels[k]) + (texts + [t])[k] && l.levels[k] % 2 == 0
    {
      if k < |texts| {
        assert l.lines[k] == prev.lines[k] && l.levels[k] == prev.levels[k];
      }
    }
  }

  /** One line per text, in order; each line is the text behind as many
      spaces as its level; the levels and the counter are even. */
  lemma {:induction false} LayOutShape(texts: seq<string>)
    ensures Shaped(LayOut(texts), texts)
    decreases |texts|
  {
    if texts != [] {
      var init, t := texts[..|texts| - 1], texts[|texts| - 1];
      LayOutShape(init);
      assert texts == init + [t];
      LayOutSnoc(init, t);
      PlaceShaped(LayOut(init), init, t);
    }
  }

  /** `NonEmpty` keeps exactly the texts that are not empty, in order. */
  lemma {:induction false} NonEmptyKeeps(texts: seq<string>)
    ensures forall t :: t in NonEmpty(texts) <==> t in texts && t != ""
    decreases |texts|
  {
    if texts != [] {
      var init := texts[..|texts| - 1];
      NonEmptyKeeps(init);
      assert texts == init + [texts[|texts| - 1]];
    }
  }

  /** The texts are the tokens trimmed, and none is empty: no line of the
      output is blank and none begins or ends with whitespace after its
      indentation. */
  lemma NonEmptyTrimmed(tokens: seq<string>)
    ensures var texts := NonEmpty(TrimAll(tokens));
            forall k :: 0 <= k < |texts| ==> texts[k] != "" && Trimmed(texts[k])
  {
    var texts := NonEmpty(TrimAll(tokens));
    NonEmptyKeeps(TrimAll(tokens));
    TrimAllTrimmed(tokens);
    assert forall k :: 0 <= k < |texts| ==> texts[k] in texts;
  }

  lemma TrimAllTrimmed(tokens: seq<string>)
    ensures forall t :: t in TrimAll(tokens) ==> Trimmed(t)
  {
    forall t | t in TrimAll(tokens) ensures Trimmed(t) {
      var i :| 0 <= i < |tokens| && TrimAll(tokens)[i] == t;
    }
  }

  lemma NonEmptyStep(texts: seq<string>, k: nat)
    requires k < |texts|
    ensures NonEmpty(texts[..k + 1])
         == NonEmpty(texts[..k]) + (if texts[k] == "" then [] else [texts[k]])
  {
    assert texts[..k + 1][..k] == texts[..k];
  }

  lemma {:induction false} NonEmptyAppend(a: seq<string>, b: seq<string>)
    ensures NonEmpty(a + b) == NonEmpty(a) + NonEmpty(b)
    decreases |b|
  {
    if b == [] {
      assert a + b == a;
    } else {
      var b' := b[..|b| - 1];
      NonEmptyAppend(a, b');
      assert (a + b)[..|a + b| - 1] == a + b';
    }
  }

  /** The counter's step on one text, told with the source's own tests. */
  lemma IndentStep(prev: Layout, t: string)
    ensures var after := Place(prev, t);
            && |after.levels| == |prev.levels| + 1
            && after.levels[..|prev.levels|] == prev.levels
            && after.lines == prev.lines + [Spaces(after.levels[|prev.levels|]) + t]
            && (StartsWith(t, "</") ==>
                  && after.indent == (if prev.indent >= 2 then prev.indent - 2 else 0)
                  && after.levels[|prev.levels|] == after.indent)
            && (!StartsWith(t, "</") && StartsWith(t, "<") && !EndsWith(t, "/>")
                && !StartsWith(t, "<?") && !StartsWith(t, "<!") ==>
                  after.levels[|prev.levels|] == prev.indent && after.indent == prev.indent + 2)
            && (!StartsWith(t, "</")
                && ((StartsWith(t, "<") && EndsWith(t, "/>"))
                    || StartsWith(t, "<?") || StartsWith(t, "<!") || !StartsWith(t, "<")) ==>
                  after.levels[|prev.levels|] == prev.indent && after.indent == prev.indent)
  {
  }

  /** Placing more text never changes the lines already placed. */
  lemma {:induction false} LayOutExtends(a: seq<string>, b: seq<string>)
    ensures var la, lab := LayOut(a), LayOut(a + b);
            && |la.lines| <= |lab.lines| && lab.lines[..|la.lines|] == la.lines
            && |la.levels| <= |lab.levels| && lab.levels[..|la.levels|] == la.levels
    decreases |b|
  {
    if b == [] {
      assert a + b == a;
    } else {
      var b' := b[..|b| - 1];
      LayOutExtends(a, b');
      assert (a + b)[..|a + b| - 1] == a + b';
    }
  }

  // Nesting.

  /** How a text moves the nesting depth. */
  function Delta(t: string): int {
    match KindOf(t)
    case Opening => 1
    case Closing => -1
    case _ => 0
  }

  function Depth(texts: seq<string>): int
    decreases |texts|
  {
    if texts == [] then 0 else Depth(texts[..|texts| - 1]) + Delta(texts[|texts| - 1])
  }

  /** No prefix closes more tags than it opened. */
  predicate Nested(texts: seq<string>) {
    forall k :: 0 <= k <= |texts| ==> Depth(texts[..k]) >= 0
  }

  predicate Balanced(texts: seq<string>) {
    Nested(texts) && Depth(texts) == 0
  }

  /** Over texts that never close more than they open, the counter moves by
      exactly two per level of depth: the floor at 0 is never reached. */
  lemma {:induction false} IndentTracksDepth(before: seq<string>, texts: seq<string>)
    requires Nested(texts)
    ensures LayOut(before + texts).indent == LayOut(before).indent + 2 * Depth(texts)
    decreases |texts|
  {
    if texts == [] {
      assert before + texts == before;
    } else {
      var init := texts[..|texts| - 1];
      assert Nested(init) by {
        forall k | 0 <= k <= |init| ensures Depth(init[..k]) >= 0 {
          assert init[..k] == texts[..k];
        }
      }
      IndentTracksDepth(before, init);
      assert (before + texts)[..|before + texts| - 1] == before + init;
      assert texts[..|texts|] == texts;
    }
  }

  /** In properly nested input an opening tag and its closing tag are
      emitted at the same indentation. */
  lemma MatchingTagsAligned(before: seq<string>, open: string, inner: seq<string>, close: string, after: seq<string>)
    requires KindOf(open) == Opening && KindOf(close) == Closing
    requires Balanced(inner)
    ensures var l := LayOut(before + [open] + inner + [close] + after);
            var i, j := |before|, |before| + 1 + |inner|;
            j < |l.levels| && l.levels[i] == l.levels[j]
  {
    var pre := before + [open];
    var mid := pre + inner;
    var upTo := mid + [close];
    var i, j := |before|, |before| + 1 + |inner|;
    assert pre[..|pre| - 1] == before;
    assert upTo[..|upTo| - 1] == mid;
    IndentTracksDepth(pre, inner);
    LayOutShape(before);
    LayOutShape(mid);
    LayOutExtends(pre, inner);
    LayOutExtends(upTo, after);
    assert LayOut(pre).levels[i] == LayOut(before).indent;
    assert LayOut(upTo).levels[j] == LayOut(before).indent;
    assert LayOut(upTo).levels[i] == LayOut(mid).levels[i] == LayOut(pre).levels[i];
  }
}
