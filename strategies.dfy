/** Candidate synthesis: the candidates `xpathStrategyFormElement` and `xpathStrategyText`
    write, and the full candidate list `xpathStrategies` classifies. */
module Strategies {
  import opened Wrappers
  import opened JsText
  import opened Dom
  import opened Extraction
  import opened XPaths

  /** The texts `getText` finds in `siblings[lo..hi]`, nearest to `hi` first: the order in
      which walking `previousSibling` from `siblings[hi]` pushes them. */
  function BackwardTexts(siblings: seq<Node>, lo: nat, hi: nat): seq<Fragment>
    requires lo <= hi <= |siblings|
    decreases hi - lo
  {
    if lo == hi then [] else BackwardTexts(siblings, lo + 1, hi) + TextOf(siblings[lo], [], 0)
  }

  /** The texts `getText` finds in `siblings[lo..hi]`, in document order: the order in which
      walking `nextSibling` from `siblings[lo - 1]` pushes them. */
  function ForwardTexts(siblings: seq<Node>, lo: nat, hi: nat): seq<Fragment>
    requires lo <= hi <= |siblings|
  {
    if lo == hi then [] else ForwardTexts(siblings, lo, hi - 1) + TextOf(siblings[hi - 1], [], 0)
  }

  /** The fragments of the siblings before the target, nearest first. */
  function Before(loc: Located): seq<Fragment>
    requires loc.Valid()
  {
    BackwardTexts(loc.siblings, 0, loc.index)
  }

  /** The fragments of the siblings after the target, nearest first. */
  function After(loc: Located): seq<Fragment>
    requires loc.Valid()
  {
    ForwardTexts(loc.siblings, loc.index + 1, |loc.siblings|)
  }

  /** The three templates a fragment is written into. */
  datatype Template = PrecedingText | FollowingText | OwnText

  /** The candidate the loop of a strategy writes for fragment `f` of a target rendered as
      `tag`. The `text()` candidate takes the tag recorded with the fragment instead, and a
      `null` tag is interpolated as the word `null`. */
  function Candidate(t: Template, tag: string, f: Fragment): XPath {
    match t
    case PrecedingText => Step(tag, PrecedingSibling(f.text))
    case FollowingText => Step(tag, FollowingSibling(f.text))
    case OwnText => Step(f.tag.GetOr("null"), TextIs(f.text))
  }

  /** One candidate per fragment, in fragment order. */
  function Candidates(t: Template, tag: string, texts: seq<Fragment>): (r: seq<XPath>)
    ensures |r| == |texts|
  {
    if texts == [] then []
    else Candidates(t, tag, texts[..|texts| - 1]) + [Candidate(t, tag, texts[|texts| - 1])]
  }

  /** The k-th candidate is written from the k-th fragment. */
  lemma {:induction false} CandidatesAt(t: Template, tag: string, texts: seq<Fragment>)
    ensures forall k :: 0 <= k < |texts| ==> Candidates(t, tag, texts)[k] == Candidate(t, tag, texts[k])
  {
    if texts != [] {
      var init := texts[..|texts| - 1];
      CandidatesAt(t, tag, init);
      assert forall k :: 0 <= k < |init| ==> texts[k] == init[k];
    }
  }

  /** The candidates of the sibling strategy for a target rendered as `tag`, with fragments
      `b` before the target (nearest first) and `f` after it. The accumulator of the backward
      walk is not reset before the forward walk, so the following-sibling candidates are
      built from `b` followed by `f`. */
  function SiblingCandidates(tag: string, b: seq<Fragment>, f: seq<Fragment>): seq<XPath> {
    Candidates(PrecedingText, tag, b) + Candidates(FollowingText, tag, b + f)
  }

  /** What `xpathStrategyFormElement(el)` returns. */
  function SiblingStrategy(loc: Located): seq<XPath>
    requires loc.Valid()
  {
    SiblingCandidates(GetTag(loc.Target().tagName), Before(loc), After(loc))
  }

  /** The candidates of the text strategy for target `el` with fragments `texts`: a
      `normalize-space` candidate when `el` is an element with an `innerText`, then one
      `text()` candidate per fragment. */
  function TextCandidates(el: Node, texts: seq<Fragment>): seq<XPath> {
    (if el.Element? && el.innerText.Some?
     then [Step(GetTag(el.tagName), NormalizeSpace(Trim(el.innerText.value)))]
     else [])
    + Candidates(OwnText, "", texts)
  }

  /** What `xpathStrategyText(el)` returns. */
  function TextStrategy(el: Node): seq<XPath> {
    TextCandidates(el, TextOf(el, [], 0))
  }

  /** The list `xpathStrategies` classifies. */
  function AllCandidates(loc: Located): seq<XPath>
    requires loc.Valid()
  {
    SiblingStrategy(loc) + TextStrategy(loc.Target())
  }

  /** The sibling strategy yields |b| preceding-sibling candidates, one per fragment b[k] of
      the earlier siblings, then |b| + |f| following-sibling candidates, from b then f; all
      are steps on the target's tag. */
  lemma SiblingCandidatesShape(tag: string, b: seq<Fragment>, f: seq<Fragment>)
    ensures var s := SiblingCandidates(tag, b, f);
      && |s| == 2 * |b| + |f|
      && (forall k :: 0 <= k < |b| ==> s[k] == Step(tag, PrecedingSibling(b[k].text)))
      && (forall k :: 0 <= k < |b| ==> s[|b| + k] == Step(tag, FollowingSibling(b[k].text)))
      && (forall k :: 0 <= k < |f| ==> s[2 * |b| + k] == Step(tag, FollowingSibling(f[k].text)))
  {
    var p, q, s := Candidates(PrecedingText, tag, b), Candidates(FollowingText, tag, b + f), SiblingCandidates(tag, b, f);
    CandidatesAt(PrecedingText, tag, b);
    CandidatesAt(FollowingText, tag, b + f);
    forall k | 0 <= k < |b|
      ensures s[k] == Step(tag, PrecedingSibling(b[k].text))
    {
      assert s[k] == p[k];
    }
    forall k | 0 <= k < |b|
      ensures s[|b| + k] == Step(tag, FollowingSibling(b[k].text))
    {
      assert s[|b| + k] == q[k];
      assert (b + f)[k] == b[k];
    }
    forall k | 0 <= k < |f|
      ensures s[2 * |b| + k] == Step(tag, FollowingSibling(f[k].text))
    {
      assert s[2 * |b| + k] == q[|b| + k];
      assert (b + f)[|b| + k] == f[k];
    }
  }

  /** The text strategy yields the `normalize-space` candidate exactly when the target has an
      `innerText`, followed by one `text()` candidate per fragment, in fragment order. */
  lemma TextCandidatesShape(el: Node, texts: seq<Fragment>)
    requires el.Element?
    ensures var n, s := if el.innerText.Some? then 1 else 0, TextCandidates(el, texts);
      && |s| == n + |texts|
      && (el.innerText.Some? ==> s[0] == Step(GetTag(el.tagName), NormalizeSpace(Trim(el.innerText.value))))
      && (forall k :: 0 <= k < |texts| ==> s[n + k] == Step(texts[k].tag.GetOr("null"), TextIs(texts[k].text)))
  {
    CandidatesAt(OwnText, "", texts);
  }

  /** An `svg` target is always written with the `name()` test: every sibling candidate and
      the `normalize-space` candidate render as two slashes, that test and a bracket. */
  lemma SvgTargetUsesNameTest(loc: Located)
    requires loc.Valid() && ToLowerCase(loc.Target().tagName) == "svg"
    ensures forall k :: 0 <= k < |SiblingStrategy(loc)| ==>
              "//" + SvgNameTest + "[" <= Render(SiblingStrategy(loc)[k])
    ensures loc.Target().innerText.Some? ==> "//" + SvgNameTest + "[" <= Render(TextStrategy(loc.Target())[0])
  {
    var el, b, f := loc.Target(), Before(loc), After(loc);
    var s := SiblingCandidates(SvgNameTest, b, f);
    assert GetTag(el.tagName) == SvgNameTest;
    SiblingCandidatesShape(SvgNameTest, b, f);
    forall k | 0 <= k < |s|
      ensures "//" + SvgNameTest + "[" <= Render(s[k])
    {
      if k < |b| {
        StepShape(SvgNameTest, PrecedingSibling(b[k].text));
      } else if k < 2 * |b| {
        StepShape(SvgNameTest, FollowingSibling(b[k - |b|].text));
      } else {
        StepShape(SvgNameTest, FollowingSibling(f[k - 2 * |b|].text));
      }
    }
    if el.innerText.Some? {
      TextCandidatesShape(el, TextOf(el, [], 0));
      StepShape(SvgNameTest, NormalizeSpace(Trim(el.innerText.value)));
    }
  }
}
