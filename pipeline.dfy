/** What `xpathStrategies` promises about the list it returns, stated over the candidate list
    of module Strategies and the classification of module Classify. */
module Pipeline {
  import opened Dom
  import opened XPaths
  import opened Strategies
  import opened Classify

  /** Soundness and shape of the result for a target in place:
      - fallback-only exactly when no candidate is unique; every fallback candidate is the
        positional form `(x)[k]` of some candidate `x` with more than one visible match, with
        `k` the target's 1-based position among them, and it matches exactly the target;
      - otherwise `all` is the full candidate list (sibling strategy, then text strategy) and
        `unique` is a non-empty, order-preserving selection of it whose every member matches
        exactly the target. */
  lemma XPathStrategiesSound(o: Options, doc: Document, loc: Located)
    requires loc.Valid()
    ensures var el, xs := loc.Target().id, AllCandidates(loc);
      var res := ResultOf(VisibleMatches(o, doc), el, xs);
      && (res.FallbackOnly? <==> forall x :: x in xs ==> Matches(o, doc, x) != [el])
      && (res.FallbackOnly? ==>
            forall y :: y in res.fallback ==>
              && Matches(o, doc, y) == [el]
              && exists i :: 0 <= i < |xs| && |Matches(o, doc, xs[i])| > 1
                             && y == Positional(xs[i], Position(Matches(o, doc, xs[i]), el)))
      && (res.UniqueAndAll? ==>
            && res.all == SiblingStrategy(loc) + TextStrategy(loc.Target())
            && res.unique != []
            && IsSubsequence(res.unique, res.all)
            && forall x :: x in res.unique ==> Matches(o, doc, x) == [el])
  {
    var el, xs, m := loc.Target().id, AllCandidates(loc), VisibleMatches(o, doc);
    ResultShape(m, el, xs);
    FallbackOfSpec(m, el, xs);
  }
}
