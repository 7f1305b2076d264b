/** The class `xPathGenerator`: its constructor and the methods of the candidate pipeline,
    each proved to compute the function that specifies it in modules Extraction, Strategies
    and Classify. */
module Generator {
  import opened Wrappers
  import opened JsText
  import opened Dom
  import opened Extraction
  import opened XPaths
  import opened Strategies
  import opened Classify

  class XPathGenerator {
    const doc: Document
    const options: Options

    /** `constructor(doc, options)`: the default options replace only a missing object. */
    constructor (doc: Document, options: Option<Options>)
      ensures this.doc == doc && this.options == EffectiveOptions(options)
    {
      this.doc := doc;
      this.options := EffectiveOptions(options);
    }

    /** `findElementsByXpath`: copies the snapshot node by node; a throwing evaluation leaves
        the result empty. */
    method FindElementsByXpath(xpathToExecute: string) returns (result: seq<NodeId>)
      ensures result == FoundBy(doc, xpathToExecute)
    {
      result := [];
      var snapshot := doc.evaluate(xpathToExecute);
      if snapshot.Some? {
        var nodes := snapshot.value;
        for i := 0 to |nodes|
          invariant result == nodes[..i]
        {
          result := result + [nodes[i]];
        }
      }
    }

    /** `getText(element, result, parents, level)`: appends the fragments of `element` to
        `result`. The `parents` list is a local that the loop extends in place; each child
        receives the list as it stands. */
    method GetText(element: Node, result: seq<Fragment>, parents: seq<string>, level: nat)
      returns (r: seq<Fragment>)
      ensures r == result + TextOf(element, parents, level)
      decreases element
    {
      if level > MaxLevel {
        return result;
      }
      r := result;
      match element
      case Element(_, tagName, childNodes, innerText, _) =>
        if |childNodes| > 0 {
          var p := parents;
          for i := 0 to |childNodes|
            invariant r + ChildrenText(element, i, p, level) == result + TextOf(element, parents, level)
          {
            var tag := GetTag(tagName);
            match childNodes[i] {
              case Text(textContent) =>
                if |childNodes| == 1 {
                  p := p + [tag];
                }
                r := r + AddToResult(level, Some(textContent), p, Some(tag));
              case Element(_, _, _, _, _) =>
                if level != 0 {
                  p := p + [tag];
                }
                r := GetText(childNodes[i], r, p, level + 1);
              case Other =>
            }
          }
        } else {
          r := r + AddToResult(level, innerText, parents, Some(GetTag(tagName)));
        }
      case Text(textContent) =>
        r := r + AddToResult(level, Some(textContent), parents, None);
      case Other =>
    }

    /** The `for` loop each strategy ends with: one candidate per fragment, pushed in
        fragment order. */
    method WriteCandidates(t: Template, tag: string, texts: seq<Fragment>) returns (xpaths: seq<XPath>)
      ensures xpaths == Candidates(t, tag, texts)
    {
      xpaths := [];
      for i := 0 to |texts|
        invariant xpaths == Candidates(t, tag, texts[..i])
      {
        assert texts[..i + 1][..i] == texts[..i];
        xpaths := xpaths + [Candidate(t, tag, texts[i])];
      }
      assert texts[..|texts|] == texts;
    }

    /** `xpathStrategyFormElement(el)`: walks the previous siblings, then the next ones, into
        one accumulator of fragments. */
    method XPathStrategyFormElement(loc: Located) returns (xpaths: seq<XPath>)
      requires loc.Valid()
      ensures xpaths == SiblingStrategy(loc)
    {
      var tag := GetTag(loc.Target().tagName);
      var texts: seq<Fragment> := [];
      var j: nat := loc.index;
      while j > 0
        invariant j <= loc.index
        invariant texts == BackwardTexts(loc.siblings, j, loc.index)
      {
        j := j - 1;
        var t := GetText(loc.siblings[j], [], [], 0);
        texts := texts + t;
      }
      assert texts == Before(loc);
      xpaths := WriteCandidates(PrecedingText, tag, texts);
      var before := texts;
      j := loc.index;
      while j + 1 < |loc.siblings|
        invariant loc.index <= j < |loc.siblings|
        invariant texts == before + ForwardTexts(loc.siblings, loc.index + 1, j + 1)
      {
        j := j + 1;
        var t := GetText(loc.siblings[j], [], [], 0);
        texts := texts + t;
      }
      assert texts == Before(loc) + After(loc);
      var following := WriteCandidates(FollowingText, tag, texts);
      xpaths := xpaths + following;
    }

    /** `xpathStrategyText(el)` */
    method XPathStrategyText(el: Node) returns (xpaths: seq<XPath>)
      ensures xpaths == TextStrategy(el)
    {
      xpaths := [];
      if el.Element? && el.innerText.Some? {
        xpaths := xpaths + [Step(GetTag(el.tagName), NormalizeSpace(Trim(el.innerText.value)))];
      }
      var texts := GetText(el, [], [], 0);
      assert texts == TextOf(el, [], 0);
      var own := WriteCandidates(OwnText, "", texts);
      xpaths := xpaths + own;
      assert xpaths == TextCandidates(el, texts);
    }

    /** One pass of the classification loop of `xpathStrategies`: the candidate is evaluated
        and filtered; it is unique when its visible matches are exactly `el`; with several
        visible matches it is re-evaluated in its positional form, which is the fallback if
        that matches exactly `el`. */
    method ClassifyCandidate(el: NodeId, xpath: XPath) returns (unique: bool, fallback: Option<XPath>)
      ensures unique <==> IsUnique(VisibleMatches(options, doc), el, xpath)
      ensures fallback.Some? <==> HasFallback(VisibleMatches(options, doc), el, xpath)
      ensures fallback.Some? ==> fallback.value == PositionalFor(VisibleMatches(options, doc), el, xpath)
    {
      unique, fallback := false, None;
      var foundElements := FindElementsByXpath(Render(xpath));
      var visibleElements := VisibleOnly(options, doc, foundElements);
      if |visibleElements| == 1 && el == visibleElements[0] {
        unique := true;
        assert visibleElements == [el];
      } else if |visibleElements| > 1 {
        var index := Position(visibleElements, el);
        var xpathWithPosition := Positional(xpath, index);
        foundElements := FindElementsByXpath(Render(xpathWithPosition));
        visibleElements := VisibleOnly(options, doc, foundElements);
        if |visibleElements| == 1 && el == visibleElements[0] {
          assert visibleElements == [el];
          fallback := Some(xpathWithPosition);
        }
      }
    }

    /** The classification loop of `xpathStrategies`, candidate by candidate in order. */
    method ClassifyCandidates(el: NodeId, xpaths: seq<XPath>)
      returns (uniqueXpaths: seq<XPath>, fallbackXpaths: seq<XPath>)
      ensures uniqueXpaths == UniqueOf(VisibleMatches(options, doc), el, xpaths)
      ensures fallbackXpaths == FallbackOf(VisibleMatches(options, doc), el, xpaths)
    {
      uniqueXpaths, fallbackXpaths := [], [];
      for i := 0 to |xpaths|
        invariant uniqueXpaths == UniqueOf(VisibleMatches(options, doc), el, xpaths[..i])
        invariant fallbackXpaths == FallbackOf(VisibleMatches(options, doc), el, xpaths[..i])
      {
        var xpath := xpaths[i];
        ClassifyPrefix(VisibleMatches(options, doc), el, xpaths, i);
        var unique, fallback := ClassifyCandidate(el, xpath);
        if unique {
          uniqueXpaths := uniqueXpaths + [xpath];
        } else if fallback.Some? {
          fallbackXpaths := fallbackXpaths + [fallback.value];
        }
      }
      assert xpaths[..|xpaths|] == xpaths;
    }

    /** `prepareElement(el)`: neutralises `text-transform`; without a style object nothing
        happens, as the thrown error is caught. */
    method PrepareElement(el: Node)
      modifies StyleObjects(el)
      ensures el.Element? && el.style != null ==> el.style.textTransform == "none"
    {
      if el.Element? && el.style != null {
        el.style.textTransform := "none";
      }
    }

    /** `neutralizeElement(el)`: clears the inline `text-transform`, whatever it was before
        `prepareElement` ran. */
    method NeutralizeElement(el: Node)
      modifies StyleObjects(el)
      ensures el.Element? && el.style != null ==> el.style.textTransform == ""
    {
      if el.Element? && el.style != null {
        el.style.textTransform := "";
      }
    }

    /** `xpathStrategies(el)`: the candidates of both strategies, classified; the inline
        `text-transform` of the target is left empty afterwards. */
    method XPathStrategies(loc: Located) returns (result: Outcome)
      requires loc.Valid()
      modifies StyleObjects(loc.Target())
      ensures result == ResultOf(VisibleMatches(options, doc), loc.Target().id, AllCandidates(loc))
      ensures loc.Target().style != null ==> loc.Target().style.textTransform == ""
    {
      var el := loc.Target();
      PrepareElement(el);
      var xpaths := XPathStrategyFormElement(loc);
      var textXpaths := XPathStrategyText(el);
      xpaths := xpaths + textXpaths;
      var uniqueXpaths, fallbackXpaths := ClassifyCandidates(el.id, xpaths);
      NeutralizeElement(el);
      if |uniqueXpaths| == 0 {
        return FallbackOnly(fallbackXpaths);
      }
      return UniqueAndAll(uniqueXpaths, xpaths);
    }
  }
}
