/** String primitives of JavaScript that the core relies on: the `\s` class,
    `trim`, `toLowerCase`, `startsWith`/`endsWith`, `lastIndexOf`, `repeat`
    and `Array.prototype.join`. */
module Text {

  /** JavaScript's `\s` class, which is also the set `String.prototype.trim`
      strips: the WhiteSpace and LineTerminator code points of ECMAScript. */
  predicate IsSpace(c: char) {
    || c == '\t' || c == '\n' || c == '\U{000B}' || c == '\U{000C}' || c == '\r'
    || c == ' ' || c == '\U{00A0}' || c == '\U{1680}'
    || ('\U{2000}' <= c <= '\U{200A}')
    || c == '\U{2028}' || c == '\U{2029}' || c == '\U{202F}' || c == '\U{205F}'
    || c == '\U{3000}' || c == '\U{FEFF}'
  }

  predicate AllSpace(s: string) {
    forall i :: 0 <= i < |s| ==> IsSpace(s[i])
  }

  /** `toLowerCase` restricted to ASCII letters. */
  function LowerChar(c: char): char {
    if 'A' <= c <= 'Z' then (c as int + 32) as char else c
  }

  function Lower(s: string): string {
    seq(|s|, i requires 0 <= i < |s| => LowerChar(s[i]))
  }

  lemma LowerIdempotent(s: string)
    ensures Lower(Lower(s)) == Lower(s)
  {
  }

  predicate StartsWith(s: string, prefix: string) {
    |prefix| <= |s| && s[..|prefix|] == prefix
  }

  predicate EndsWith(s: string, suffix: string) {
    |suffix| <= |s| && s[|s| - |suffix|..] == suffix
  }

  /** `' '.repeat(n)` */
  function Spaces(n: nat): (r: string)
    ensures |r| == n && forall i :: 0 <= i < n ==> r[i] == ' '
  {
    seq(n, _ => ' ')
  }

  /** The length of the run of whitespace that begins `s`. */
  function LeadingSpaces(s: string): (n: nat)
    ensures n <= |s| && AllSpace(s[..n])
    ensures n < |s| ==> !IsSpace(s[n])
  {
    if |s| > 0 && IsSpace(s[0]) then 1 + LeadingSpaces(s[1..]) else 0
  }

  /** Whitespace in front of a text lengthens its leading run by its own
      length. */
  lemma {:induction false} LeadingSpacesAfterSpaces(w: string, u: string)
    requires AllSpace(w)
    ensures LeadingSpaces(w + u) == |w| + LeadingSpaces(u)
    decreases |w|
  {
    if |w| == 0 {
      assert w + u == u;
    } else {
      assert (w + u)[1..] == w[1..] + u;
      LeadingSpacesAfterSpaces(w[1..], u);
    }
  }

  /** A leading run that stops inside `u` is not changed by what follows `u`. */
  lemma {:induction false} LeadingSpacesOfPrefix(u: string, v: string)
    requires LeadingSpaces(u) < |u|
    ensures LeadingSpaces(u + v) == LeadingSpaces(u)
    decreases |u|
  {
    if IsSpace(u[0]) {
      assert (u + v)[1..] == u[1..] + v;
      LeadingSpacesOfPrefix(u[1..], v);
    }
  }

  /** The length of the run of whitespace that ends `s`. */
  function TrailingSpaces(s: string): (n: nat)
    ensures n <= |s| && AllSpace(s[|s| - n..])
    ensures n < |s| ==> !IsSpace(s[|s| - 1 - n])
  {
    if |s| > 0 && IsSpace(s[|s| - 1]) then 1 + TrailingSpaces(s[..|s| - 1]) else 0
  }

  /** Neither begins nor ends with whitespace. */
  predicate Trimmed(s: string) {
    s == "" || (!IsSpace(s[0]) && !IsSpace(s[|s| - 1]))
  }

  /** `String.prototype.trim`: the input without its leading and trailing
      whitespace. */
  function Trim(s: string): (r: string)
    ensures Trimmed(r)
  {
    var a := LeadingSpaces(s);
    if a == |s| then ""
    else
      var n := TrailingSpaces(s);
      TrailingRunStops(s, a, n);
      s[a..|s| - n]
  }

  lemma TrailingRunStops(s: string, a: nat, n: nat)
    requires a < |s| && !IsSpace(s[a])
    requires n <= |s| && AllSpace(s[|s| - n..])
    ensures a < |s| - n
  {
    forall j | |s| - n <= j < |s| ensures IsSpace(s[j]) {
      assert s[j] == s[|s| - n..][j - (|s| - n)];
    }
  }

  /** What `Trim` removes is whitespace: the input is a run of whitespace, the
      result, and another run of whitespace. */
  lemma TrimSplits(s: string)
    ensures var r, a := Trim(s), LeadingSpaces(s);
            && a + |r| <= |s|
            && s == s[..a] + r + s[a + |r|..]
            && AllSpace(s[..a]) && AllSpace(s[a + |r|..])
  {
    var r, a := Trim(s), LeadingSpaces(s);
    TrimIsSlice(s);
    ThreeSlices(s, a, a + |r|);
    assert AllSpace(s[a + |r|..]);
  }

  /** The result of `Trim` is the part of the input after its leading run. */
  lemma TrimIsSlice(s: string)
    ensures var r, a := Trim(s), LeadingSpaces(s);
            a + |r| <= |s| && r == s[a..a + |r|]
  {
    var a := LeadingSpaces(s);
    if a < |s| {
      var n := TrailingSpaces(s);
      TrailingRunStops(s, a, n);
      assert Trim(s) == s[a..|s| - n];
    } else {
      assert Trim(s) == "";
    }
  }

  lemma ThreeSlices(s: string, a: nat, b: nat)
    requires a <= b <= |s|
    ensures s == s[..a] + s[a..b] + s[b..]
  {
    assert s == s[..a] + s[a..];
    assert s[a..] == s[a..b] + s[b..];
  }

  /** Trimming a string that neither begins nor ends with whitespace leaves
      it as it is. */
  lemma TrimOfTrimmed(s: string)
    requires Trimmed(s)
    ensures Trim(s) == s
  {
  }

  /** `String.prototype.lastIndexOf` for one character: -1 when absent. */
  function LastIndexOf(s: string, c: char): (r: int)
    ensures -1 <= r < |s|
    ensures r >= 0 ==> s[r] == c
    ensures forall j :: r < j < |s| ==> s[j] != c
  {
    if |s| == 0 then -1
    else if s[|s| - 1] == c then |s| - 1
    else LastIndexOf(s[..|s| - 1], c)
  }

  /** The first index at or after `from` that holds `c`, or `|s|` when there
      is none. */
  function IndexFrom(s: string, c: char, from: nat): (r: nat)
    requires from <= |s|
    ensures from <= r <= |s|
    ensures r < |s| ==> s[r] == c
    ensures forall k :: from <= k < r ==> s[k] != c
    decreases |s| - from
  {
    if from == |s| then |s|
    else if s[from] == c then from
    else IndexFrom(s, c, from + 1)
  }

  /** `Array.prototype.join` */
  function Join(parts: seq<string>, separator: string): string {
    if |parts| == 0 then ""
    else if |parts| == 1 then parts[0]
    else parts[0] + separator + Join(parts[1..], separator)
  }
}
