/** Text extraction: `getTag`, and `getText` with its closure `addToResult`, as functions.
    `TextOf` is what one call of `getText(element, [], parents, level)` returns; the class in
    module Generator runs the same walk imperatively and is proved equal to it. */
module Extraction {
  import opened Wrappers
  import opened JsText
  import opened Dom

  /** The name test the generator writes for an `svg` element. */
  const SvgNameTest: string := "*[name()='svg']"

  /** The deepest level `getText` descends to. */
  const MaxLevel: nat := 5

  /** One entry of the array `getText` returns. `tag` is `None` for the JavaScript `null`
      that a text node reached directly is recorded with. */
  datatype Fragment = Fragment(level: nat, text: string, tag: Option<string>, parents: seq<string>)

  /** `getTag`: the lowercased tag name, with `svg` replaced by a test on `name()`. */
  function GetTag(tagName: string): (r: string)
    ensures r != "svg"
    ensures ToLowerCase(tagName) == "svg" ==> r == SvgNameTest
    ensures ToLowerCase(tagName) != "svg" ==> r == ToLowerCase(tagName) && HasNoAsciiUpper(r)
  {
    var tag := ToLowerCase(tagName);
    if tag == "svg" then SvgNameTest else tag
  }

  /** The tag is case-insensitive: a tag name and its lowercased form render alike. */
  lemma GetTagCaseInsensitive(tagName: string)
    ensures GetTag(ToLowerCase(tagName)) == GetTag(tagName)
  {
    ToLowerCaseIdempotent(tagName);
  }

  /** Whether raw text `text` is admitted by `addToResult`. */
  predicate Admits(text: Option<string>) {
    text.Some? && text.value != "" && !IsBlank(StripLineBreaks(text.value))
  }

  /** `addToResult(level, text, p, tag)`: what it pushes, as a list of zero or one entry. */
  function AddToResult(level: nat, text: Option<string>, p: seq<string>, tag: Option<string>)
    : (r: seq<Fragment>)
    ensures |r| <= 1
    ensures |r| == 1 <==> Admits(text)
    ensures |r| == 1 ==> r[0] == Fragment(level, StripLineBreaks(text.value), tag, p)
  {
    if text.None? || text.value == "" then []
    else
      var t := StripLineBreaks(text.value);
      if IsBlank(t) then [] else [Fragment(level, t, tag, p)]
  }

  /** The admission rule: a missing or empty text adds nothing; a text made of line breaks
      only is still admitted, as the empty string; whatever is admitted has neither CR nor LF
      and is not blank. */
  lemma AdmissionRule(level: nat, text: Option<string>, p: seq<string>, tag: Option<string>)
    ensures text.None? || text == Some("") ==> AddToResult(level, text, p, tag) == []
    ensures text.Some? && text.value != "" && (forall i :: 0 <= i < |text.value| ==> IsLineBreak(text.value[i]))
            ==> AddToResult(level, text, p, tag) == [Fragment(level, "", tag, p)]
    ensures forall f :: f in AddToResult(level, text, p, tag) ==> NoLineBreak(f.text) && !IsBlank(f.text)
  {
  }

  /** What `getText(n, [], parents, level)` returns. */
  function TextOf(n: Node, parents: seq<string>, level: nat): seq<Fragment>
    decreases n, 1, 0
  {
    if level > MaxLevel then []
    else match n
      case Element(_, tagName, childNodes, innerText, _) =>
        if |childNodes| > 0 then ChildrenText(n, 0, parents, level)
        else AddToResult(level, innerText, parents, Some(GetTag(tagName)))
      case Text(textContent) => AddToResult(level, Some(textContent), parents, None)
      case Other => []
  }

  /** What the loop over `childNodes` of element `e` pushes from iteration `i` on, when the
      shared `parents` list holds `parents` at the start of that iteration. A text child pushes
      the element's tag onto the list when it is the only child; an element child pushes it
      whenever `level` is not 0, so the list grows by one for every element child. */
  function ChildrenText(e: Node, i: nat, parents: seq<string>, level: nat): seq<Fragment>
    requires e.Element? && i <= |e.childNodes|
    decreases e, 0, |e.childNodes| - i
  {
    if i == |e.childNodes| then []
    else
      var tag := GetTag(e.tagName);
      match e.childNodes[i]
      case Text(textContent) =>
        var p := if |e.childNodes| == 1 then parents + [tag] else parents;
        AddToResult(level, Some(textContent), p, Some(tag)) + ChildrenText(e, i + 1, p, level)
      case Element(_, _, _, _, _) =>
        var p := if level != 0 then parents + [tag] else parents;
        TextOf(e.childNodes[i], p, level + 1) + ChildrenText(e, i + 1, p, level)
      case Other => ChildrenText(e, i + 1, parents, level)
  }

  /** What every extracted fragment satisfies, for a walk started at `level` with `parents`:
      its level lies between `level` and 5, its text has no CR or LF and is not blank, its tag
      is never the bare `svg`, and its ancestor list extends `parents` by tags none of which is
      the bare `svg`. */
  predicate WellFormed(f: Fragment, parents: seq<string>, level: nat) {
    && level <= f.level <= MaxLevel
    && NoLineBreak(f.text)
    && !IsBlank(f.text)
    && f.tag != Some("svg")
    && parents <= f.parents
    && forall k :: |parents| <= k < |f.parents| ==> f.parents[k] != "svg"
  }

  lemma {:induction false} TextOfWellFormed(n: Node, parents: seq<string>, level: nat)
    ensures forall f :: f in TextOf(n, parents, level) ==> WellFormed(f, parents, level)
    decreases n, 1, 0
  {
    if level <= MaxLevel && n.Element? && |n.childNodes| > 0 {
      ChildrenTextWellFormed(n, 0, parents, level);
    }
  }

  lemma {:induction false} ChildrenTextWellFormed(e: Node, i: nat, parents: seq<string>, level: nat)
    requires e.Element? && i <= |e.childNodes| && level <= MaxLevel
    ensures forall f :: f in ChildrenText(e, i, parents, level) ==> WellFormed(f, parents, level)
    decreases e, 0, |e.childNodes| - i
  {
    if i < |e.childNodes| {
      var tag := GetTag(e.tagName);
      match e.childNodes[i]
      case Text(textContent) =>
        var p := if |e.childNodes| == 1 then parents + [tag] else parents;
        ChildrenTextWellFormed(e, i + 1, p, level);
        WellFormedWeaken(ChildrenText(e, i + 1, p, level), parents, p, level, level);
      case Element(_, _, _, _, _) =>
        var p := if level != 0 then parents + [tag] else parents;
        TextOfWellFormed(e.childNodes[i], p, level + 1);
        ChildrenTextWellFormed(e, i + 1, p, level);
        WellFormedWeaken(TextOf(e.childNodes[i], p, level + 1), parents, p, level, level + 1);
        WellFormedWeaken(ChildrenText(e, i + 1, p, level), parents, p, level, level);
      case Other =>
        ChildrenTextWellFormed(e, i + 1, parents, level);
    }
  }

  /** A fragment well formed for a longer ancestor list and a deeper start is well formed for
      a prefix of that list, extended by tags none of which is the bare `svg`, and a shallower
      start. */
  lemma WellFormedWeaken(fs: seq<Fragment>, parents: seq<string>, p: seq<string>, level: nat, deeper: nat)
    requires parents <= p && level <= deeper
    requires forall k :: |parents| <= k < |p| ==> p[k] != "svg"
    requires forall f :: f in fs ==> WellFormed(f, p, deeper)
    ensures forall f :: f in fs ==> WellFormed(f, parents, level)
  {
  }

  /** Depth bound: no fragment is deeper than level 5, and a walk started below level 5
      extracts nothing. */
  lemma TextOfDepthBound(n: Node, parents: seq<string>, level: nat)
    ensures level > MaxLevel ==> TextOf(n, parents, level) == []
    ensures forall f :: f in TextOf(n, parents, level) ==> level <= f.level <= MaxLevel
  {
    TextOfWellFormed(n, parents, level);
  }

  /** `n` and `m` look alike to a walk that may still descend `depth` element levels: same
      kinds of node, the same text nodes, and, above that depth, the same tag names, inner
      texts and number of children. Below it, element children may differ arbitrarily. */
  predicate Agree(n: Node, m: Node, depth: nat)
    decreases n
  {
    match n
    case Text(_) => m == n
    case Other => m.Other?
    case Element(_, tagName, childNodes, innerText, _) =>
      && m.Element?
      && (depth > 0 ==>
            && m.tagName == tagName && m.innerText == innerText
            && |m.childNodes| == |childNodes|
            && forall k :: 0 <= k < |childNodes| ==> Agree(childNodes[k], m.childNodes[k], depth - 1))
  }

  /** Content more than 5 element levels below the root of the walk never reaches the result:
      replacing it changes nothing. */
  lemma {:induction false} TextOfIgnoresDeepContent(n: Node, m: Node, parents: seq<string>, level: nat)
    requires level <= MaxLevel + 1 && Agree(n, m, MaxLevel + 1 - level)
    ensures TextOf(n, parents, level) == TextOf(m, parents, level)
    decreases n, 1, 0
  {
    if level <= MaxLevel && n.Element? && |n.childNodes| > 0 {
      ChildrenTextIgnoresDeepContent(n, m, 0, parents, level);
    }
  }

  lemma {:induction false} ChildrenTextIgnoresDeepContent(e: Node, m: Node, i: nat, parents: seq<string>, level: nat)
    requires e.Element? && i <= |e.childNodes| && level <= MaxLevel
    requires Agree(e, m, MaxLevel + 1 - level)
    ensures m.Element? && i <= |m.childNodes|
    ensures ChildrenText(e, i, parents, level) == ChildrenText(m, i, parents, level)
    decreases e, 0, |e.childNodes| - i
  {
    if i < |e.childNodes| {
      var tag := GetTag(e.tagName);
      assert Agree(e.childNodes[i], m.childNodes[i], MaxLevel - level);
      match e.childNodes[i]
      case Text(textContent) =>
        var p := if |e.childNodes| == 1 then parents + [tag] else parents;
        ChildrenTextIgnoresDeepContent(e, m, i + 1, p, level);
      case Element(_, _, _, _, _) =>
        var p := if level != 0 then parents + [tag] else parents;
        TextOfIgnoresDeepContent(e.childNodes[i], m.childNodes[i], p, level + 1);
        ChildrenTextIgnoresDeepContent(e, m, i + 1, p, level);
      case Other =>
        ChildrenTextIgnoresDeepContent(e, m, i + 1, parents, level);
    }
  }
}
