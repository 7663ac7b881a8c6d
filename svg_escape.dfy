/** The HTML escaping that `highlightSvgSyntax` starts with
    (src/services/svgService.ts:148-151): `&`, then `<`, then `>` replaced by
    their entities, and the decoder that undoes it. */
module SvgEscape {
  import opened Text
  import opened Rewrite

  /** The three escape passes, `&` first. */
  function Escape(s: string): string {
    var amps := ReplaceAll(s, CharRule('&', "&amp;"));
    var lts := ReplaceAll(amps, CharRule('<', "&lt;"));
    ReplaceAll(lts, CharRule('>', "&gt;"))
  }

  /** Reference definition: what each character becomes. */
  function EscapeChar(c: char): string {
    if c == '&' then "&amp;" else if c == '<' then "&lt;" else if c == '>' then "&gt;" else [c]
  }

  function EscapeEach(s: string): string {
    if |s| == 0 then "" else EscapeChar(s[0]) + EscapeEach(s[1..])
  }

  /** The entity decoder the escaping is meant to invert. */
  function Unescape(s: string): string
    decreases |s|
  {
    if |s| == 0 then ""
    else if StartsWith(s, "&amp;") then "&" + Unescape(s[5..])
    else if StartsWith(s, "&lt;") then "<" + Unescape(s[4..])
    else if StartsWith(s, "&gt;") then ">" + Unescape(s[4..])
    else [s[0]] + Unescape(s[1..])
  }

  lemma SubstituteOne(c: char, x: char, replacement: string)
    ensures SubstituteChar([c], x, replacement) == if c == x then replacement else [c]
  {
    assert [c][1..] == [];
  }

  /** Three single-character substitutions in a row, applied to one
      character: when no later pattern occurs in an earlier replacement, the
      character is replaced at most once. */
  lemma SubstituteThree(c: char, x1: char, r1: string, x2: char, r2: string, x3: char, r3: string)
    requires x2 !in r1 && x3 !in r1 && x3 !in r2
    ensures SubstituteChar(SubstituteChar(SubstituteChar([c], x1, r1), x2, r2), x3, r3)
         == if c == x1 then r1 else if c == x2 then r2 else if c == x3 then r3 else [c]
  {
    SubstituteOne(c, x1, r1);
    if c == x1 {
      SubstituteAbsent(r1, x2, r2);
      SubstituteAbsent(r1, x3, r3);
    } else {
      SubstituteOne(c, x2, r2);
      if c == x2 {
        SubstituteAbsent(r2, x3, r3);
      } else {
        SubstituteOne(c, x3, r3);
      }
    }
  }

  /** Each later pass only meets entities of the earlier ones that it
      leaves alone: `&amp;` holds neither `<` nor `>`, `&lt;` holds no `>`. */
  lemma EscapeOne(c: char)
    ensures SubstituteChar(SubstituteChar(SubstituteChar([c], '&', "&amp;"), '<', "&lt;"), '>', "&gt;")
         == EscapeChar(c)
  {
    SubstituteThree(c, '&', "&amp;", '<', "&lt;", '>', "&gt;");
  }

  lemma {:induction false} EscapeEachSubstitutes(s: string)
    ensures SubstituteChar(SubstituteChar(SubstituteChar(s, '&', "&amp;"), '<', "&lt;"), '>', "&gt;")
         == EscapeEach(s)
    decreases |s|
  {
    if |s| > 0 {
      var head, tail := [s[0]], s[1..];
      assert s == head + tail;
      var a1, a2 := SubstituteChar(head, '&', "&amp;"), SubstituteChar(tail, '&', "&amp;");
      SubstituteConcat(head, tail, '&', "&amp;");
      var b1, b2 := SubstituteChar(a1, '<', "&lt;"), SubstituteChar(a2, '<', "&lt;");
      SubstituteConcat(a1, a2, '<', "&lt;");
      SubstituteConcat(b1, b2, '>', "&gt;");
      EscapeOne(s[0]);
      EscapeEachSubstitutes(tail);
    }
  }

  /** The chain of passes escapes every character on its own. */
  lemma EscapeIsEscapeEach(s: string)
    ensures Escape(s) == EscapeEach(s)
  {
    var amps := ReplaceAll(s, CharRule('&', "&amp;"));
    var lts := ReplaceAll(amps, CharRule('<', "&lt;"));
    CharRuleSubstitutes(s, '&', "&amp;");
    CharRuleSubstitutes(amps, '<', "&lt;");
    CharRuleSubstitutes(lts, '>', "&gt;");
    EscapeEachSubstitutes(s);
  }

  lemma UnescapeAmp(rest: string)
    ensures Unescape("&amp;" + rest) == "&" + Unescape(rest)
  {
    var e := "&amp;" + rest;
    assert e[..5] == "&amp;" && e[5..] == rest;
  }

  lemma UnescapeLt(rest: string)
    ensures Unescape("&lt;" + rest) == "<" + Unescape(rest)
  {
    var e := "&lt;" + rest;
    assert e[..4] == "&lt;" && e[4..] == rest;
    assert !StartsWith(e, "&amp;") by { assert e[1] == 'l'; }
  }

  lemma UnescapeGt(rest: string)
    ensures Unescape("&gt;" + rest) == ">" + Unescape(rest)
  {
    var e := "&gt;" + rest;
    assert e[..4] == "&gt;" && e[4..] == rest;
    assert !StartsWith(e, "&amp;") && !StartsWith(e, "&lt;") by { assert e[1] == 'g'; }
  }

  lemma UnescapeOther(c: char, rest: string)
    requires c != '&'
    ensures Unescape([c] + rest) == [c] + Unescape(rest)
  {
    var e := [c] + rest;
    assert e[0] == c && e[1..] == rest;
  }

  lemma UnescapeEscapeChar(c: char, rest: string)
    ensures Unescape(EscapeChar(c) + rest) == [c] + Unescape(rest)
  {
    if c == '&' {
      UnescapeAmp(rest);
    } else if c == '<' {
      UnescapeLt(rest);
    } else if c == '>' {
      UnescapeGt(rest);
    } else {
      UnescapeOther(c, rest);
    }
  }

  lemma {:induction false} UnescapeEscapeEach(s: string)
    ensures Unescape(EscapeEach(s)) == s
    decreases |s|
  {
    if |s| > 0 {
      UnescapeEscapeEach(s[1..]);
      UnescapeEscapeChar(s[0], EscapeEach(s[1..]));
      assert s == [s[0]] + s[1..];
    }
  }

  /** Decoding the entities recovers the input. */
  lemma UnescapeEscape(s: string)
    ensures Unescape(Escape(s)) == s
  {
    EscapeIsEscapeEach(s);
    UnescapeEscapeEach(s);
  }

  lemma {:induction false} EscapeEachNoAngles(s: string)
    ensures '<' !in EscapeEach(s) && '>' !in EscapeEach(s)
    decreases |s|
  {
    if |s| > 0 {
      EscapeEachNoAngles(s[1..]);
    }
  }

  /** No raw `<` or `>` is left after escaping. */
  lemma EscapedNoAngles(s: string)
    ensures '<' !in Escape(s) && '>' !in Escape(s)
  {
    EscapeIsEscapeEach(s);
    EscapeEachNoAngles(s);
  }
}
