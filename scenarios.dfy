/** Concrete documents worked through the model. */
module Scenarios {
  import opened Wrappers
  import opened JsText
  import opened Dom
  import opened Extraction
  import opened XPaths
  import opened Strategies
  import opened Classify

  /** `<li>text</li>` with the given node id. */
  function Li(id: NodeId, text: string): Node {
    Element(id, "LI", [Text(text)], Some(text), null)
  }

  /** A one-line text that is not blank is admitted unchanged. */
  lemma PlainText(s: string)
    requires OneLine(s)
    ensures Admits(Some(s)) && StripLineBreaks(s) == s
  {
  }

  /** An element whose only child is an admitted text yields one fragment at its own level,
      carrying the element's tag, pushed onto the parents by that sole text child. */
  lemma SoleText(id: NodeId, tagName: string, text: string, p: seq<string>, level: nat)
    requires OneLine(text) && level <= MaxLevel
    ensures var n, tag := Element(id, tagName, [Text(text)], Some(text), null), GetTag(tagName);
      TextOf(n, p, level) == [Fragment(level, text, Some(tag), p + [tag])]
  {
    PlainText(text);
    var n, tag := Element(id, tagName, [Text(text)], Some(text), null), GetTag(tagName);
    var q := p + [tag];
    assert ChildrenText(n, 1, q, level) == [];
    assert AddToResult(level, Some(text), q, Some(tag)) == [Fragment(level, text, Some(tag), q)];
    assert ChildrenText(n, 0, p, level) == AddToResult(level, Some(text), q, Some(tag)) + ChildrenText(n, 1, q, level);
  }

  lemma LiText(id: NodeId, text: string, p: seq<string>)
    requires OneLine(text)
    ensures TextOf(Li(id, text), p, 0) == [Fragment(0, text, Some("li"), p + ["li"])]
  {
    assert GetTag("LI") == "li" by {
      assert ToLowerCase("LI") == "li";
    }
    SoleText(id, "LI", text, p, 0);
  }

  /** A text that `getText` admits unchanged: non-empty, on one line, not starting with
      white space. */
  predicate OneLine(text: string) {
    text != [] && NoLineBreak(text) && !IsSpace(text[0])
  }

  /** One fragment before the target and one after it give three sibling candidates. */
  lemma SiblingsOfOneAndOne(tag: string, f: Fragment, g: Fragment)
    ensures Candidates(PrecedingText, tag, [f]) + Candidates(FollowingText, tag, [f] + [g])
            == [Step(tag, PrecedingSibling(f.text)), Step(tag, FollowingSibling(f.text)), Step(tag, FollowingSibling(g.text))]
  {
    assert [f] + [g] == [f, g];
  }

  lemma TextOfOne(f: Fragment)
    ensures Candidates(OwnText, "", [f]) == [Step(f.tag.GetOr("null"), TextIs(f.text))]
  {
  }

  lemma Concat3And2<T>(x: T, y: T, z: T, u: T, v: T)
    ensures [x, y, z] + ([u] + [v]) == [x, y, z, u, v]
  {
  }

  /** `<ul><li>a</li><li>b</li><li>c</li></ul>` with the middle item as the target: the sibling
      strategy writes one preceding-sibling candidate for `a` and following-sibling candidates
      for `a` and then `c`; the text strategy writes the `normalize-space` and the `text()`
      candidate for `b`. */
  lemma ThreeItems(a: string, b: string, c: string, ids: seq<NodeId>)
    requires OneLine(a) && OneLine(b) && OneLine(c) && Trim(b) == b && |ids| == 3
    ensures var loc := Located([Li(ids[0], a), Li(ids[1], b), Li(ids[2], c)], 1);
      && loc.Valid()
      && AllCandidates(loc) == [
           Step("li", PrecedingSibling(a)),
           Step("li", FollowingSibling(a)),
           Step("li", FollowingSibling(c)),
           Step("li", NormalizeSpace(b)),
           Step("li", TextIs(b))]
  {
    var s := [Li(ids[0], a), Li(ids[1], b), Li(ids[2], c)];
    var loc := Located(s, 1);
    var fa, fb, fc := Fragment(0, a, Some("li"), ["li"]), Fragment(0, b, Some("li"), ["li"]),
                      Fragment(0, c, Some("li"), ["li"]);
    var top: seq<string> := [];
    assert top + ["li"] == ["li"];
    LiText(ids[0], a, top);
    LiText(ids[1], b, top);
    LiText(ids[2], c, top);
    assert TextOf(s[0], top, 0) == [fa];
    assert TextOf(s[0], [], 0) == [fa];
    assert BackwardTexts(s, 1, 1) == [];
    assert BackwardTexts(s, 0, 1) == [fa];
    assert Before(loc) == [fa];
    assert TextOf(s[2], top, 0) == [fc];
    assert TextOf(s[2], [], 0) == [fc];
    assert ForwardTexts(s, 2, 2) == [];
    assert ForwardTexts(s, 2, 3) == [fc];
    assert After(loc) == [fc];
    assert GetTag("LI") == "li" by {
      assert ToLowerCase("LI") == "li";
    }
    assert loc.Target().tagName == "LI";
    SiblingsOfOneAndOne(GetTag(loc.Target().tagName), fa, fc);
    assert SiblingStrategy(loc) == [Step("li", PrecedingSibling(a)), Step("li", FollowingSibling(a)), Step("li", FollowingSibling(c))];
    assert TextOf(s[1], [], 0) == [fb];
    TextOfOne(fb);
    assert Trim(s[1].innerText.value) == b;
    assert TextStrategy(s[1]) == [Step("li", NormalizeSpace(b))] + [Step("li", TextIs(b))];
    Concat3And2(Step("li", PrecedingSibling(a)), Step("li", FollowingSibling(a)), Step("li", FollowingSibling(c)),
                Step("li", NormalizeSpace(b)), Step("li", TextIs(b)));
  }

  /** An element whose children are an element and then an admitted text: the element child
      is walked one level down under the list as it stands after the push for it (none at the
      top level); the text then yields one fragment under that same list. */
  lemma ElementThenText(e: Node, y: string, p: seq<string>, level: nat)
    requires e.Element? && |e.childNodes| == 2 && e.childNodes[0].Element? && e.childNodes[1] == Text(y)
    requires OneLine(y) && level <= MaxLevel
    ensures var d := GetTag(e.tagName);
      level == 0 ==> TextOf(e, p, level) == TextOf(e.childNodes[0], p, 1) + [Fragment(0, y, Some(d), p)]
    ensures var d := GetTag(e.tagName);
      level != 0 ==> TextOf(e, p, level)
                     == TextOf(e.childNodes[0], p + [d], level + 1) + [Fragment(level, y, Some(d), p + [d])]
  {
    var d, c := GetTag(e.tagName), e.childNodes[0];
    var q := if level == 0 then p else p + [d];
    PlainText(y);
    assert ChildrenText(e, 2, q, level) == [];
    assert ChildrenText(e, 1, q, level) == [Fragment(level, y, Some(d), q)];
    if level == 0 {
      assert ChildrenText(e, 0, p, level) == TextOf(c, p, level + 1) + ChildrenText(e, 1, p, level);
    } else {
      assert ChildrenText(e, 0, p, level) == TextOf(c, p + [d], level + 1) + ChildrenText(e, 1, p + [d], level);
    }
  }

  /** `<div><b>x</b>y</div>` walked at `level` under `p`: below the top level the element
      child pushes the outer tag onto the shared list before it is visited, so both fragments
      carry it; at the top level nothing is pushed for it. The inner text also carries the
      inner tag, pushed by its sole text child, one level down. */
  lemma NestedParents(outer: string, inner: string, x: string, y: string, p: seq<string>, level: nat)
    requires OneLine(x) && OneLine(y) && level < MaxLevel
    ensures var d, b := GetTag(outer), GetTag(inner);
      level == 0 ==>
        TextOf(Element(0, outer, [Element(1, inner, [Text(x)], Some(x), null), Text(y)], Some(x + y), null), p, level)
        == [Fragment(1, x, Some(b), p + [b]), Fragment(0, y, Some(d), p)]
    ensures var d, b := GetTag(outer), GetTag(inner);
      level != 0 ==>
        TextOf(Element(0, outer, [Element(1, inner, [Text(x)], Some(x), null), Text(y)], Some(x + y), null), p, level)
        == [Fragment(level + 1, x, Some(b), p + [d, b]), Fragment(level, y, Some(d), p + [d])]
  {
    var d := GetTag(outer);
    var bold := Element(1, inner, [Text(x)], Some(x), null);
    ElementThenText(Element(0, outer, [bold, Text(y)], Some(x + y), null), y, p, level);
    if level == 0 {
      SoleText(1, inner, x, p, 1);
    } else {
      SoleText(1, inner, x, p + [d], level + 1);
      assert p + [d] + [GetTag(inner)] == p + [d, GetTag(inner)];
    }
  }

  /** A non-empty run of ASCII letters: no apostrophe can end the quoted literal early and no
      white space can be collapsed by `normalize-space`, so the quoted text means itself in
      every template. */
  predicate IsWord(t: string) {
    t != [] && forall i :: 0 <= i < |t| ==> 'a' <= t[i] <= 'z' || 'A' <= t[i] <= 'Z'
  }

  /** The answers of the document of `ThreeIdenticalItems` to each candidate, filtered: every
      candidate has several visible matches among which the target is found, and each
      positional form selects the target alone. For a word `t` these are the answers of an
      XPath 1.0 engine. */
  lemma ThreeIdenticalMatches(t: string, doc: Document)
    requires IsWord(t)
    requires forall id :: doc.metrics(id).offsetWidth != Some(0)
    requires doc.evaluate(Render(Step("li", PrecedingSibling(t)))) == Some([2, 3])
    requires doc.evaluate(Render(Step("li", FollowingSibling(t)))) == Some([1, 2])
    requires doc.evaluate(Render(Step("li", NormalizeSpace(t)))) == Some([1, 2, 3])
    requires doc.evaluate(Render(Step("li", TextIs(t)))) == Some([1, 2, 3])
    requires doc.evaluate(Render(Positional(Step("li", PrecedingSibling(t)), 1))) == Some([2])
    requires doc.evaluate(Render(Positional(Step("li", FollowingSibling(t)), 2))) == Some([2])
    requires doc.evaluate(Render(Positional(Step("li", NormalizeSpace(t)), 2))) == Some([2])
    requires doc.evaluate(Render(Positional(Step("li", TextIs(t)), 2))) == Some([2])
    ensures var m, pre := VisibleMatches(DefaultOptions, doc), Step("li", PrecedingSibling(t));
      HasFallback(m, 2, pre) && PositionalFor(m, 2, pre) == Positional(pre, 1)
    ensures var m, fol := VisibleMatches(DefaultOptions, doc), Step("li", FollowingSibling(t));
      HasFallback(m, 2, fol) && PositionalFor(m, 2, fol) == Positional(fol, 2)
    ensures var m, norm := VisibleMatches(DefaultOptions, doc), Step("li", NormalizeSpace(t));
      HasFallback(m, 2, norm) && PositionalFor(m, 2, norm) == Positional(norm, 2)
    ensures var m, txt := VisibleMatches(DefaultOptions, doc), Step("li", TextIs(t));
      HasFallback(m, 2, txt) && PositionalFor(m, 2, txt) == Positional(txt, 2)
  {
    var o := DefaultOptions;
    var v23, v12, v123: seq<NodeId> := [2, 3], [1, 2], [1, 2, 3];
    assert forall id :: IsVisible(o, doc.metrics(id));
    assert Position(v23, 2) == 1;
    assert Position(v12, 2) == 2;
    assert Position(v123, 2) == 2;
    FallbackFromAnswers(o, doc, 2, Step("li", PrecedingSibling(t)), v23);
    FallbackFromAnswers(o, doc, 2, Step("li", FollowingSibling(t)), v12);
    FallbackFromAnswers(o, doc, 2, Step("li", NormalizeSpace(t)), v123);
    FallbackFromAnswers(o, doc, 2, Step("li", TextIs(t)), v123);
  }

  /** Three `<li>` siblings with the same word `t`, the middle one the target, every box
      visible, and a document that answers each candidate as an XPath 1.0 engine does for
      such a `t`: the
      preceding-sibling candidate selects the last two items, the following-sibling candidate
      the first two, the `normalize-space` and `text()` candidates all three, and each
      positional form the middle item. No candidate is unique, and every candidate yields a
      fallback: the following-sibling one twice, once for each of the two fragments with
      text `t`. */
  lemma ThreeIdenticalItems(t: string, doc: Document)
    requires IsWord(t)
    requires forall id :: doc.metrics(id).offsetWidth != Some(0)
    requires doc.evaluate(Render(Step("li", PrecedingSibling(t)))) == Some([2, 3])
    requires doc.evaluate(Render(Step("li", FollowingSibling(t)))) == Some([1, 2])
    requires doc.evaluate(Render(Step("li", NormalizeSpace(t)))) == Some([1, 2, 3])
    requires doc.evaluate(Render(Step("li", TextIs(t)))) == Some([1, 2, 3])
    requires doc.evaluate(Render(Positional(Step("li", PrecedingSibling(t)), 1))) == Some([2])
    requires doc.evaluate(Render(Positional(Step("li", FollowingSibling(t)), 2))) == Some([2])
    requires doc.evaluate(Render(Positional(Step("li", NormalizeSpace(t)), 2))) == Some([2])
    requires doc.evaluate(Render(Positional(Step("li", TextIs(t)), 2))) == Some([2])
    ensures ResultOf(VisibleMatches(DefaultOptions, doc), 2, AllCandidates(Located([Li(1, t), Li(2, t), Li(3, t)], 1)))
            == FallbackOnly([
                 Positional(Step("li", PrecedingSibling(t)), 1),
                 Positional(Step("li", FollowingSibling(t)), 2),
                 Positional(Step("li", FollowingSibling(t)), 2),
                 Positional(Step("li", NormalizeSpace(t)), 2),
                 Positional(Step("li", TextIs(t)), 2)])
  {
    var pre, fol, norm, txt := Step("li", PrecedingSibling(t)), Step("li", FollowingSibling(t)),
                               Step("li", NormalizeSpace(t)), Step("li", TextIs(t));
    assert OneLine(t) && Trim(t) == t;
    ThreeItems(t, t, t, [1, 2, 3]);
    ThreeIdenticalMatches(t, doc);
    FiveFallbacks(VisibleMatches(DefaultOptions, doc), 2, pre, fol, norm, txt);
  }

  /** Four candidates, the second one listed twice, that all have a fallback. */
  lemma FiveFallbacks(m: Matcher, el: NodeId, a: XPath, b: XPath, c: XPath, d: XPath)
    requires HasFallback(m, el, a) && HasFallback(m, el, b)
    requires HasFallback(m, el, c) && HasFallback(m, el, d)
    ensures ResultOf(m, el, [a, b, b, c, d])
            == FallbackOnly([PositionalFor(m, el, a), PositionalFor(m, el, b), PositionalFor(m, el, b),
                             PositionalFor(m, el, c), PositionalFor(m, el, d)])
  {
    var xs := [a, b, b, c, d];
    forall k | 0 <= k < |xs|
      ensures HasFallback(m, el, xs[k])
    {
      assert xs[k] in {a, b, c, d};
    }
    AllFallback(m, el, xs);
    PositionalFormsAt(m, el, xs);
    var forms := PositionalForms(m, el, xs);
    var pa, pb, pc, pd := PositionalFor(m, el, a), PositionalFor(m, el, b),
                          PositionalFor(m, el, c), PositionalFor(m, el, d);
    assert forms[0] == pa && forms[1] == pb && forms[2] == pb && forms[3] == pc && forms[4] == pd;
    FiveElements(forms, pa, pb, pb, pc, pd);
  }

  lemma FiveElements<T>(s: seq<T>, a: T, b: T, c: T, d: T, e: T)
    requires |s| == 5 && s[0] == a && s[1] == b && s[2] == c && s[3] == d && s[4] == e
    ensures s == [a, b, c, d, e]
  {
  }
}
