/** `getSvgMetadata` and `validateSvg` of src/services/svgService.ts. The host's
    `DOMParser` and its selector engine are not modelled: their result is an
    input, a `Document` holding the parser-error element's text (if the parser
    produced one) and the first `svg` element (if there is one). */
module SvgMetadata {
  import opened Types
  import opened Text

  /** The part of an `svg` element the service looks at: its attributes and
      the tag names of all its descendants, in document order (the result of
      `querySelectorAll('*')`, which leaves the element itself out). */
  datatype SvgElement = SvgElement(attributes: map<string, string>, descendants: seq<string>)

  /** What `querySelector('parsererror')` and `querySelector('svg')` find in
      the parsed document. */
  datatype Document = Document(parserError: Option<string>, svg: Option<SvgElement>)

  /** The `SvgMetadata` record of src/types/index.ts; `null` and an absent
      `error` are `None`. */
  datatype Metadata = Metadata(
    viewBox: Option<string>,
    width: Option<string>,
    height: Option<string>,
    totalElements: nat,
    elementCounts: map<string, nat>,
    hasAnimations: bool,
    hasFilters: bool,
    hasGradients: bool,
    error: Option<string>)

  const AnimationTags: set<string> := {"animate", "animateTransform", "animateMotion"}
  const FilterTags: set<string> := {"filter"}
  const GradientTags: set<string> := {"linearGradient", "radialGradient"}

  /** The record returned when the document has no `svg` element. */
  const NoSvgMetadata: Metadata :=
    Metadata(None, None, None, 0, map[], false, false, false, Some("Invalid SVG"))

  /** `element.getAttribute(name)`: the value verbatim, or `null`. */
  function GetAttribute(element: SvgElement, name: string): (r: Option<string>)
    ensures r.Some? <==> name in element.attributes
    ensures r.Some? ==> r.value == element.attributes[name]
  {
    if name in element.attributes then Some(element.attributes[name]) else None
  }

  /** `querySelectorAll(selector).length > 0` for a selector list of plain
      tag names: some descendant carries one of them. XML documents compare
      tag names case-sensitively. */
  function HasAny(names: seq<string>, tags: set<string>): (r: bool)
    ensures r <==> exists i :: 0 <= i < |names| && names[i] in tags
  {
    if |names| == 0 then false
    else names[|names| - 1] in tags || HasAny(names[..|names| - 1], tags)
  }

  /** The lower-cased tag names, one per descendant. */
  function LowerNames(names: seq<string>): (r: seq<string>)
    ensures |r| == |names| && forall i :: 0 <= i < |names| ==> r[i] == Lower(names[i])
  {
    seq(|names|, i requires 0 <= i < |names| => Lower(names[i]))
  }

  /** The dictionary the counting loop builds: each lower-cased name seen so
      far mapped to the number of times it was seen. */
  function ElementCounts(names: seq<string>): map<string, nat>
  {
    if |names| == 0 then map[]
    else
      var counts := ElementCounts(names[..|names| - 1]);
      var key := Lower(names[|names| - 1]);
      counts[key := (if key in counts then counts[key] else 0) + 1]
  }

  /** The sum of the values of a dictionary. */
  ghost function Total(counts: map<string, nat>): nat
    decreases |counts.Keys|
  {
    if counts == map[] then 0
    else
      var k :| k in counts;
      counts[k] + Total(counts - {k})
  }

  /** `getSvgMetadata`: the attributes are copied, the descendants counted by
      their lower-cased tag names in one pass, and the three flags are tested
      on the names as written. */
  method GetSvgMetadata(root: Option<SvgElement>) returns (meta: Metadata)
    ensures root.None? ==> meta == NoSvgMetadata
    ensures root.Some? ==>
      && meta.error.None?
      && meta.viewBox == GetAttribute(root.value, "viewBox")
      && meta.width == GetAttribute(root.value, "width")
      && meta.height == GetAttribute(root.value, "height")
      && meta.totalElements == |root.value.descendants|
      && meta.elementCounts == ElementCounts(root.value.descendants)
      && (meta.hasAnimations <==> exists i :: 0 <= i < |root.value.descendants| && root.value.descendants[i] in AnimationTags)
      && (meta.hasFilters <==> exists i :: 0 <= i < |root.value.descendants| && root.value.descendants[i] in FilterTags)
      && (meta.hasGradients <==> exists i :: 0 <= i < |root.value.descendants| && root.value.descendants[i] in GradientTags)
    ensures root.Some? ==> forall k :: k in meta.elementCounts ==>
      Lower(k) == k && meta.elementCounts[k] == multiset(LowerNames(root.value.descendants))[k]
    ensures root.Some? ==> forall k :: k in multiset(LowerNames(root.value.descendants)) ==> k in meta.elementCounts
    ensures Total(meta.elementCounts) == meta.totalElements
  {
    if root.None? {
      return NoSvgMetadata;
    }
    var svg := root.value;
    var names := svg.descendants;
    var counts: map<string, nat> := map[];
    var i := 0;
    while i < |names|
      invariant 0 <= i <= |names|
      invariant counts == ElementCounts(names[..i])
      invariant Total(counts) == i
    {
      var tagName := Lower(names[i]);
      assert names[..i + 1][..i] == names[..i];
      TotalUpdate(counts, tagName, (if tagName in counts then counts[tagName] else 0) + 1);
      counts := counts[tagName := (if tagName in counts then counts[tagName] else 0) + 1];
      i := i + 1;
    }
    assert names[..i] == names;
    ElementCountsCount(names);
    ElementCountsLowered(names);
    meta := Metadata(
      GetAttribute(svg, "viewBox"), GetAttribute(svg, "width"), GetAttribute(svg, "height"),
      |names|, counts,
      HasAny(names, AnimationTags), HasAny(names, FilterTags), HasAny(names, GradientTags),
      None);
  }

  /** The dictionary has a key exactly for each lower-cased tag name that
      occurs, and its value is the number of descendants bearing that name. */
  lemma {:induction false} ElementCountsCount(names: seq<string>)
    ensures forall k :: k in ElementCounts(names) <==> k in multiset(LowerNames(names))
    ensures forall k :: k in ElementCounts(names) ==> ElementCounts(names)[k] == multiset(LowerNames(names))[k]
  {
    if |names| > 0 {
      var init := names[..|names| - 1];
      ElementCountsCount(init);
      assert LowerNames(names) == LowerNames(init) + [Lower(names[|names| - 1])];
    }
  }

  /** Every key of the dictionary is in lower case. */
  lemma ElementCountsLowered(names: seq<string>)
    ensures forall k :: k in ElementCounts(names) ==> Lower(k) == k
  {
    ElementCountsCount(names);
    forall k | k in ElementCounts(names) ensures Lower(k) == k {
      assert k in multiset(LowerNames(names));
      var i :| 0 <= i < |names| && LowerNames(names)[i] == k;
      LowerIdempotent(names[i]);
    }
  }

  /** Removing one key takes its value off the sum, whichever key the sum
      happens to take first. */
  lemma {:induction false} TotalRemove(counts: map<string, nat>, k: string)
    requires k in counts
    ensures Total(counts) == counts[k] + Total(counts - {k})
    decreases |counts.Keys|
  {
    var j :| j in counts && Total(counts) == counts[j] + Total(counts - {j});
    if j != k {
      assert |(counts - {j}).Keys| < |counts.Keys| by {
        assert counts.Keys == (counts - {j}).Keys + {j};
      }
      assert |(counts - {k}).Keys| < |counts.Keys| by {
        assert counts.Keys == (counts - {k}).Keys + {k};
      }
      TotalRemove(counts - {j}, k);
      TotalRemove(counts - {k}, j);
      assert counts - {j} - {k} == counts - {k} - {j};
    }
  }

  lemma TotalUpdate(counts: map<string, nat>, k: string, v: nat)
    ensures Total(counts[k := v]) + (if k in counts then counts[k] else 0) == Total(counts) + v
  {
    TotalRemove(counts[k := v], k);
    assert counts[k := v] - {k} == counts - {k};
    if k in counts {
      TotalRemove(counts, k);
    } else {
      assert counts - {k} == counts;
    }
  }

  /** The counts add up to the number of descendants. */
  lemma {:induction false} ElementCountsTotal(names: seq<string>)
    ensures Total(ElementCounts(names)) == |names|
  {
    if |names| > 0 {
      var counts := ElementCounts(names[..|names| - 1]);
      var key := Lower(names[|names| - 1]);
      ElementCountsTotal(names[..|names| - 1]);
      TotalUpdate(counts, key, (if key in counts then counts[key] else 0) + 1);
    }
  }

  /** `validateSvg`: a parser error wins over everything, its text becoming
      the message unless it is empty; then a document without an `svg`
      element is rejected; anything else is valid. */
  function ValidateSvg(doc: Document): (r: ValidationResult)
    ensures r.valid <==> doc.parserError.None? && doc.svg.Some?
    ensures r.valid <==> r.error.None?
    ensures doc.parserError.Some? && doc.parserError.value != "" ==> r.error == doc.parserError
    ensures doc.parserError == Some("") ==> r.error == Some("Invalid SVG format")
    ensures doc.parserError.None? && doc.svg.None? ==> r.error == Some("No SVG element found")
  {
    match doc.parserError
    case Some(text) => ValidationResult(false, Some(if text != "" then text else "Invalid SVG format"))
    case None =>
      if doc.svg.None? then ValidationResult(false, Some("No SVG element found"))
      else ValidationResult(true, None)
  }

  /** A rejection always says why: its message is never empty. */
  lemma ValidateSvgExplains(doc: Document)
    ensures var r := ValidateSvg(doc); r.error.Some? ==> r.error.value != ""
  {
  }
}
