/** Classification of candidates against the document: `isVisible`, the oracle wrapper
    `findElementsByXpath`, and the unique / positional-fallback split of `xpathStrategies`. */
module Classify {
  import opened Wrappers
  import opened JsText
  import opened Dom
  import opened XPaths

  /** The options object the constructor substitutes when none is given. */
  const DefaultOptions: Options := Options(Some(true))

  /** `options || {checkVisibility: true}`: the default applies only when no options object
      is passed at all. */
  function EffectiveOptions(options: Option<Options>): (o: Options)
    ensures options.None? ==> o == DefaultOptions
    ensures options.Some? ==> o == options.value
  {
    options.GetOr(DefaultOptions)
  }

  /** Whether `options.checkVisibility` is truthy. */
  predicate ChecksVisibility(o: Options) {
    o.checkVisibility == Some(true)
  }

  /** `isVisible(el)`: always true when visibility is not checked; otherwise false exactly for
      a box whose `offsetWidth` and `offsetHeight` are both the number 0. */
  predicate IsVisible(o: Options, m: Metrics) {
    !ChecksVisibility(o) || !(m.offsetWidth == Some(0) && m.offsetHeight == Some(0))
  }

  /** The visibility toggle: a zero-sized box is hidden under the default options and
      visible when `checkVisibility` is false or absent from a given options object; a box
      without `offsetWidth` is never hidden. */
  lemma VisibilityToggle(m: Metrics)
    requires m.offsetWidth == Some(0) && m.offsetHeight == Some(0)
    ensures !IsVisible(EffectiveOptions(None), m)
    ensures IsVisible(EffectiveOptions(Some(Options(Some(false)))), m)
    ensures IsVisible(EffectiveOptions(Some(Options(None))), m)
    ensures forall o :: IsVisible(o, Metrics(None, m.offsetHeight))
  {
  }

  /** What `findElementsByXpath(x)` returns: the snapshot, or nothing when evaluation throws. */
  function FoundBy(doc: Document, x: string): seq<NodeId> {
    match doc.evaluate(x)
    case Some(nodes) => nodes
    case None => []
  }

  /** `nodes.filter(d => this.isVisible(d))` */
  function VisibleOnly(o: Options, doc: Document, nodes: seq<NodeId>): seq<NodeId>
    decreases |nodes|
  {
    if nodes == [] then []
    else
      var last := nodes[|nodes| - 1];
      VisibleOnly(o, doc, nodes[..|nodes| - 1]) + (if IsVisible(o, doc.metrics(last)) then [last] else [])
  }

  /** The filter keeps exactly the visible nodes, in their order, each as often as it is
      listed. */
  lemma {:induction false} VisibleOnlySpec(o: Options, doc: Document, nodes: seq<NodeId>)
    ensures forall id :: id in VisibleOnly(o, doc, nodes) <==> id in nodes && IsVisible(o, doc.metrics(id))
    ensures forall id :: multiset(VisibleOnly(o, doc, nodes))[id]
                         == if IsVisible(o, doc.metrics(id)) then multiset(nodes)[id] else 0
    ensures IsSubsequence(VisibleOnly(o, doc, nodes), nodes)
    decreases |nodes|
  {
    if nodes != [] {
      var init, last := nodes[..|nodes| - 1], nodes[|nodes| - 1];
      assert nodes == init + [last];
      VisibleOnlySpec(o, doc, init);
      var rest := VisibleOnly(o, doc, init);
      assert multiset(nodes) == multiset(init) + multiset{last};
      if IsVisible(o, doc.metrics(last)) {
        assert multiset(VisibleOnly(o, doc, nodes)) == multiset(rest) + multiset{last};
        SubsequenceKeep(rest, init, last);
      } else {
        assert VisibleOnly(o, doc, nodes) == rest;
        SubsequenceDrop(rest, init, last);
      }
    }
  }

  /** With visibility not checked, filtering keeps every node. */
  lemma {:induction false} VisibleOnlyWithoutCheck(o: Options, doc: Document, nodes: seq<NodeId>)
    requires !ChecksVisibility(o)
    ensures VisibleOnly(o, doc, nodes) == nodes
    decreases |nodes|
  {
    if nodes != [] {
      VisibleOnlyWithoutCheck(o, doc, nodes[..|nodes| - 1]);
    }
  }

  /** Filtering nodes that are all visible keeps every one of them. */
  lemma {:induction false} VisibleOnlyAllVisible(o: Options, doc: Document, nodes: seq<NodeId>)
    requires forall i :: 0 <= i < |nodes| ==> IsVisible(o, doc.metrics(nodes[i]))
    ensures VisibleOnly(o, doc, nodes) == nodes
    decreases |nodes|
  {
    if nodes != [] {
      var init := nodes[..|nodes| - 1];
      assert forall i :: 0 <= i < |init| ==> init[i] == nodes[i];
      VisibleOnlyAllVisible(o, doc, init);
    }
  }

  /** `a` is `b` with some elements deleted, the rest kept in order. */
  predicate IsSubsequence<T(==)>(a: seq<T>, b: seq<T>)
    decreases |b|
  {
    if b == [] then a == []
    else
      || (a != [] && a[|a| - 1] == b[|b| - 1] && IsSubsequence(a[..|a| - 1], b[..|b| - 1]))
      || IsSubsequence(a, b[..|b| - 1])
  }

  lemma SubsequenceKeep<T>(a: seq<T>, b: seq<T>, x: T)
    requires IsSubsequence(a, b)
    ensures IsSubsequence(a + [x], b + [x])
  {
    assert (a + [x])[..|a|] == a;
    assert (b + [x])[..|b|] == b;
  }

  lemma SubsequenceDrop<T>(a: seq<T>, b: seq<T>, x: T)
    requires IsSubsequence(a, b)
    ensures IsSubsequence(a, b + [x])
  {
    assert (b + [x])[..|b|] == b;
  }

  /** The visible matches of candidate `x`, evaluated as the string it renders to. */
  function Matches(o: Options, doc: Document, x: XPath): seq<NodeId> {
    VisibleOnly(o, doc, FoundBy(doc, Render(x)))
  }

  /** The visible matches of each candidate. The classification reads the document only
      through this function, so it is stated for any such function `m`. */
  type Matcher = XPath -> seq<NodeId>

  /** The matcher of a document under given options. */
  function VisibleMatches(o: Options, doc: Document): Matcher {
    x => Matches(o, doc, x)
  }

  /** `v.indexOf(el) + 1`: the 1-based position of the first `el` in `v`, or 0 if absent. */
  function Position(v: seq<NodeId>, el: NodeId): (k: nat)
    ensures k <= |v|
    ensures k == 0 <==> el !in v
    ensures k > 0 ==> v[k - 1] == el && el !in v[..k - 1]
  {
    if v == [] then 0
    else if v[0] == el then 1
    else
      var k := Position(v[1..], el);
      assert v == [v[0]] + v[1..];
      if k == 0 then 0
      else
        assert v[..k] == [v[0]] + v[1..][..k - 1];
        k + 1
  }

  /** The positional form `xpathStrategies` builds for `x` once `x` has several visible
      matches. */
  function PositionalFor(m: Matcher, el: NodeId, x: XPath): XPath {
    Positional(x, Position(m(x), el))
  }

  /** Whether `x` is kept as unique: its visible matches are exactly the target. */
  predicate IsUnique(m: Matcher, el: NodeId, x: XPath) {
    m(x) == [el]
  }

  /** Whether `x` contributes its positional form to the fallback list. */
  predicate HasFallback(m: Matcher, el: NodeId, x: XPath) {
    |m(x)| > 1 && IsUnique(m, el, PositionalFor(m, el, x))
  }

  /** The `uniqueXpaths` list after classifying `xs`. */
  function UniqueOf(m: Matcher, el: NodeId, xs: seq<XPath>): seq<XPath>
    decreases |xs|
  {
    if xs == [] then []
    else
      var x := xs[|xs| - 1];
      UniqueOf(m, el, xs[..|xs| - 1]) + (if IsUnique(m, el, x) then [x] else [])
  }

  /** The `fallbackXpaths` list after classifying `xs`. */
  function FallbackOf(m: Matcher, el: NodeId, xs: seq<XPath>): seq<XPath>
    decreases |xs|
  {
    if xs == [] then []
    else
      var x := xs[|xs| - 1];
      FallbackOf(m, el, xs[..|xs| - 1])
      + (if HasFallback(m, el, x) then [PositionalFor(m, el, x)] else [])
  }

  /** What `xpathStrategies` returns: the fallback list alone when no candidate is unique,
      otherwise the unique candidates together with every candidate tried. */
  datatype Outcome = FallbackOnly(fallback: seq<XPath>) | UniqueAndAll(unique: seq<XPath>, all: seq<XPath>)

  function ResultOf(m: Matcher, el: NodeId, xs: seq<XPath>): Outcome {
    var unique := UniqueOf(m, el, xs);
    if |unique| == 0 then FallbackOnly(FallbackOf(m, el, xs)) else UniqueAndAll(unique, xs)
  }

  /** Soundness and completeness of the unique list: it holds exactly the candidates whose
      visible matches are the target alone, in candidate order. */
  lemma {:induction false} UniqueOfSpec(m: Matcher, el: NodeId, xs: seq<XPath>)
    ensures forall x :: x in UniqueOf(m, el, xs) <==> x in xs && IsUnique(m, el, x)
    ensures IsSubsequence(UniqueOf(m, el, xs), xs)
    decreases |xs|
  {
    if xs != [] {
      var init, x := xs[..|xs| - 1], xs[|xs| - 1];
      assert xs == init + [x];
      UniqueOfSpec(m, el, init);
      var rest := UniqueOf(m, el, init);
      if IsUnique(m, el, x) {
        SubsequenceKeep(rest, init, x);
      } else {
        assert UniqueOf(m, el, xs) == rest;
        SubsequenceDrop(rest, init, x);
      }
    }
  }

  /** The positional form of every candidate, in candidate order. */
  function PositionalForms(m: Matcher, el: NodeId, xs: seq<XPath>): seq<XPath>
    decreases |xs|
  {
    if xs == [] then []
    else PositionalForms(m, el, xs[..|xs| - 1]) + [PositionalFor(m, el, xs[|xs| - 1])]
  }

  /** Soundness and completeness of the fallback list: a candidate is in it exactly when it is
      `(x)[k]` for a candidate `x` with more than one visible match, `k` the 1-based position
      of the target among them (0 when it is absent), and `(x)[k]` itself matches exactly the
      target. */
  lemma {:induction false} FallbackOfSpec(m: Matcher, el: NodeId, xs: seq<XPath>)
    ensures forall y :: y in FallbackOf(m, el, xs) <==>
      exists i :: 0 <= i < |xs| && HasFallback(m, el, xs[i]) && y == PositionalFor(m, el, xs[i])
    ensures forall y :: y in FallbackOf(m, el, xs) ==> IsUnique(m, el, y)
    decreases |xs|
  {
    if xs != [] {
      var init, x := xs[..|xs| - 1], xs[|xs| - 1];
      assert xs == init + [x];
      FallbackOfSpec(m, el, init);
      FallbackOfStep(m, el, init, x);
    }
  }

  lemma FallbackOfStep(m: Matcher, el: NodeId, init: seq<XPath>, x: XPath)
    requires forall y :: y in FallbackOf(m, el, init) <==>
      exists i :: 0 <= i < |init| && HasFallback(m, el, init[i]) && y == PositionalFor(m, el, init[i])
    ensures forall y :: y in FallbackOf(m, el, init + [x]) <==>
      exists i :: 0 <= i < |init + [x]| && HasFallback(m, el, (init + [x])[i]) && y == PositionalFor(m, el, (init + [x])[i])
  {
    var xs := init + [x];
    assert xs[..|xs| - 1] == init;
    forall y | y in FallbackOf(m, el, xs)
      ensures exists i :: 0 <= i < |xs| && HasFallback(m, el, xs[i]) && y == PositionalFor(m, el, xs[i])
    {
      if y in FallbackOf(m, el, init) {
        var i :| 0 <= i < |init| && HasFallback(m, el, init[i]) && y == PositionalFor(m, el, init[i]);
        assert xs[i] == init[i];
      } else {
        assert xs[|xs| - 1] == x;
      }
    }
    forall y | exists i :: 0 <= i < |xs| && HasFallback(m, el, xs[i]) && y == PositionalFor(m, el, xs[i])
      ensures y in FallbackOf(m, el, xs)
    {
      var i :| 0 <= i < |xs| && HasFallback(m, el, xs[i]) && y == PositionalFor(m, el, xs[i]);
      if i < |init| {
        assert init[i] == xs[i];
      }
    }
  }

  /** The k-th positional form is that of the k-th candidate. */
  lemma {:induction false} PositionalFormsAt(m: Matcher, el: NodeId, xs: seq<XPath>)
    ensures |PositionalForms(m, el, xs)| == |xs|
    ensures forall k :: 0 <= k < |xs| ==> PositionalForms(m, el, xs)[k] == PositionalFor(m, el, xs[k])
    decreases |xs|
  {
    if xs != [] {
      var init, forms := xs[..|xs| - 1], PositionalForms(m, el, xs);
      PositionalFormsAt(m, el, init);
      assert forms == PositionalForms(m, el, init) + [PositionalFor(m, el, xs[|xs| - 1])];
      forall k | 0 <= k < |init|
        ensures forms[k] == PositionalFor(m, el, xs[k])
      {
        assert init[k] == xs[k];
      }
    }
  }

  /** With every box visible, a candidate the document answers with `v`, several nodes among
      which the target is found at position `k`, and whose positional form `(x)[k]` the
      document answers with the target alone, has that positional form as its fallback. */
  lemma FallbackFromAnswers(o: Options, doc: Document, el: NodeId, x: XPath, v: seq<NodeId>)
    requires forall id :: IsVisible(o, doc.metrics(id))
    requires doc.evaluate(Render(x)) == Some(v) && |v| > 1
    requires doc.evaluate(Render(Positional(x, Position(v, el)))) == Some([el])
    ensures var m := VisibleMatches(o, doc);
      HasFallback(m, el, x) && PositionalFor(m, el, x) == Positional(x, Position(v, el))
  {
    var target: seq<NodeId> := [el];
    VisibleOnlyAllVisible(o, doc, v);
    VisibleOnlyAllVisible(o, doc, target);
  }

  /** When every candidate has a fallback, the fallback list is the list of all positional
      forms. */
  lemma {:induction false} FallbackOfEveryCandidate(m: Matcher, el: NodeId, xs: seq<XPath>)
    requires forall k :: 0 <= k < |xs| ==> HasFallback(m, el, xs[k])
    ensures FallbackOf(m, el, xs) == PositionalForms(m, el, xs)
    decreases |xs|
  {
    if xs != [] {
      var init := xs[..|xs| - 1];
      assert forall k :: 0 <= k < |init| ==> init[k] == xs[k];
      FallbackOfEveryCandidate(m, el, init);
    }
  }

  /** When every candidate has a fallback, none is unique and the result is the list of all
      positional forms. */
  lemma AllFallback(m: Matcher, el: NodeId, xs: seq<XPath>)
    requires forall k :: 0 <= k < |xs| ==> HasFallback(m, el, xs[k])
    ensures ResultOf(m, el, xs) == FallbackOnly(PositionalForms(m, el, xs))
  {
    ResultShape(m, el, xs);
    FallbackOfEveryCandidate(m, el, xs);
  }

  /** The fallback list keeps candidate order: it is the list of positional forms with the
      forms that failed re-evaluation deleted. */
  lemma {:induction false} FallbackOfInOrder(m: Matcher, el: NodeId, xs: seq<XPath>)
    ensures IsSubsequence(FallbackOf(m, el, xs), PositionalForms(m, el, xs))
    decreases |xs|
  {
    if xs != [] {
      var init, x := xs[..|xs| - 1], xs[|xs| - 1];
      FallbackOfInOrder(m, el, init);
      var rest := FallbackOf(m, el, init);
      if HasFallback(m, el, x) {
        SubsequenceKeep(rest, PositionalForms(m, el, init), PositionalFor(m, el, x));
      } else {
        assert FallbackOf(m, el, xs) == rest;
        SubsequenceDrop(rest, PositionalForms(m, el, init), PositionalFor(m, el, x));
      }
    }
  }

  /** The shape of the result: fallback-only exactly when no candidate is unique; otherwise
      the unique list is non-empty, in candidate order, and `all` is the whole candidate list. */
  lemma ResultShape(m: Matcher, el: NodeId, xs: seq<XPath>)
    ensures ResultOf(m, el, xs).FallbackOnly? <==> forall x :: x in xs ==> !IsUnique(m, el, x)
    ensures ResultOf(m, el, xs).FallbackOnly? ==>
              ResultOf(m, el, xs).fallback == FallbackOf(m, el, xs)
    ensures ResultOf(m, el, xs).UniqueAndAll? ==>
              && ResultOf(m, el, xs).all == xs
              && ResultOf(m, el, xs).unique != []
              && IsSubsequence(ResultOf(m, el, xs).unique, xs)
              && forall x :: x in ResultOf(m, el, xs).unique ==> IsUnique(m, el, x)
  {
    UniqueOfSpec(m, el, xs);
    var u := UniqueOf(m, el, xs);
    if u != [] {
      assert u[0] in u;
    }
  }

  /** Classification is per candidate: classifying `a + b` gives the lists of `a` followed
      by those of `b`. */
  lemma {:induction false} UniqueOfAppend(m: Matcher, el: NodeId, a: seq<XPath>, b: seq<XPath>)
    ensures UniqueOf(m, el, a + b) == UniqueOf(m, el, a) + UniqueOf(m, el, b)
    decreases |b|
  {
    if b == [] {
      assert a + b == a;
    } else {
      var init := b[..|b| - 1];
      UniqueOfAppend(m, el, a, init);
      assert (a + b)[..|a + b| - 1] == a + init;
    }
  }

  lemma {:induction false} FallbackOfAppend(m: Matcher, el: NodeId, a: seq<XPath>, b: seq<XPath>)
    ensures FallbackOf(m, el, a + b) == FallbackOf(m, el, a) + FallbackOf(m, el, b)
    decreases |b|
  {
    if b == [] {
      assert a + b == a;
    } else {
      var init := b[..|b| - 1];
      FallbackOfAppend(m, el, a, init);
      assert (a + b)[..|a + b| - 1] == a + init;
    }
  }

  /** A candidate without visible matches contributes to neither list. */
  lemma UnmatchedContributesNothing(m: Matcher, el: NodeId, x: XPath)
    requires m(x) == []
    ensures UniqueOf(m, el, [x]) == [] && FallbackOf(m, el, [x]) == []
  {
    assert [x][..0] == [];
  }

  /** A candidate whose evaluation throws contributes to neither list: the candidates around
      it are classified as if it were not there. */
  lemma OracleFailureSkipsCandidate(o: Options, doc: Document, el: NodeId, xs: seq<XPath>, x: XPath, ys: seq<XPath>)
    requires doc.evaluate(Render(x)).None?
    ensures var m := VisibleMatches(o, doc);
      && UniqueOf(m, el, xs + [x] + ys) == UniqueOf(m, el, xs + ys)
      && FallbackOf(m, el, xs + [x] + ys) == FallbackOf(m, el, xs + ys)
  {
    var m := VisibleMatches(o, doc);
    assert m(x) == [];
    UniqueSkips(m, el, xs, x, ys);
    FallbackSkips(m, el, xs, x, ys);
  }

  /** Classifying one more candidate extends the lists by what that candidate contributes. */
  lemma UniqueOfSnoc(m: Matcher, el: NodeId, xs: seq<XPath>, z: XPath)
    ensures UniqueOf(m, el, xs + [z]) == UniqueOf(m, el, xs) + (if IsUnique(m, el, z) then [z] else [])
  {
    assert (xs + [z])[..|xs|] == xs;
  }

  lemma FallbackOfSnoc(m: Matcher, el: NodeId, xs: seq<XPath>, z: XPath)
    ensures FallbackOf(m, el, xs + [z])
            == FallbackOf(m, el, xs) + (if HasFallback(m, el, z) then [PositionalFor(m, el, z)] else [])
  {
    assert (xs + [z])[..|xs|] == xs;
  }

  lemma SplitLast<T>(a: seq<T>, b: seq<T>)
    requires b != []
    ensures a + b == (a + b[..|b| - 1]) + [b[|b| - 1]]
  {
    assert b == b[..|b| - 1] + [b[|b| - 1]];
  }

  /** Classifying the prefix `xs[..i + 1]` extends the lists of `xs[..i]` by what `xs[i]`
      contributes. */
  lemma ClassifyPrefix(m: Matcher, el: NodeId, xs: seq<XPath>, i: nat)
    requires i < |xs|
    ensures UniqueOf(m, el, xs[..i + 1])
            == UniqueOf(m, el, xs[..i]) + (if IsUnique(m, el, xs[i]) then [xs[i]] else [])
    ensures FallbackOf(m, el, xs[..i + 1])
            == FallbackOf(m, el, xs[..i])
               + (if HasFallback(m, el, xs[i]) then [PositionalFor(m, el, xs[i])] else [])
  {
    assert xs[..i + 1][..i] == xs[..i];
  }

  /** Classifying the same candidate after two lists that classify alike keeps them alike. */
  lemma UniqueOfSnocBoth(m: Matcher, el: NodeId, a: seq<XPath>, b: seq<XPath>, z: XPath)
    requires UniqueOf(m, el, a) == UniqueOf(m, el, b)
    ensures UniqueOf(m, el, a + [z]) == UniqueOf(m, el, b + [z])
  {
    UniqueOfSnoc(m, el, a, z);
    UniqueOfSnoc(m, el, b, z);
  }

  lemma FallbackOfSnocBoth(m: Matcher, el: NodeId, a: seq<XPath>, b: seq<XPath>, z: XPath)
    requires FallbackOf(m, el, a) == FallbackOf(m, el, b)
    ensures FallbackOf(m, el, a + [z]) == FallbackOf(m, el, b + [z])
  {
    FallbackOfSnoc(m, el, a, z);
    FallbackOfSnoc(m, el, b, z);
  }

  lemma {:induction false} UniqueSkips(m: Matcher, el: NodeId, xs: seq<XPath>, x: XPath, ys: seq<XPath>)
    requires !IsUnique(m, el, x)
    ensures UniqueOf(m, el, xs + [x] + ys) == UniqueOf(m, el, xs + ys)
    decreases |ys|
  {
    if ys == [] {
      assert xs + [x] + ys == xs + [x];
      assert xs + ys == xs;
      UniqueOfSnoc(m, el, xs, x);
    } else {
      var init, z := ys[..|ys| - 1], ys[|ys| - 1];
      UniqueSkips(m, el, xs, x, init);
      UniqueOfSnocBoth(m, el, xs + [x] + init, xs + init, z);
      SplitLast(xs + [x], ys);
      SplitLast(xs, ys);
    }
  }

  lemma {:induction false} FallbackSkips(m: Matcher, el: NodeId, xs: seq<XPath>, x: XPath, ys: seq<XPath>)
    requires !HasFallback(m, el, x)
    ensures FallbackOf(m, el, xs + [x] + ys) == FallbackOf(m, el, xs + ys)
    decreases |ys|
  {
    if ys == [] {
      assert xs + [x] + ys == xs + [x];
      assert xs + ys == xs;
      FallbackOfSnoc(m, el, xs, x);
    } else {
      var init, z := ys[..|ys| - 1], ys[|ys| - 1];
      FallbackSkips(m, el, xs, x, init);
      FallbackOfSnocBoth(m, el, xs + [x] + init, xs + init, z);
      SplitLast(xs + [x], ys);
      SplitLast(xs, ys);
    }
  }
}
