# xPathGenerator, modelled in Dafny

`xPathGenerator` proposes XPath expressions that re-locate one target node of a browser
document by text rather than by position. It collects the text fragments around the target.
It writes candidate expressions from three templates:
- preceding-sibling and following-sibling tests, from the texts of the target's siblings;
- a `normalize-space(.)` test, from the target's `innerText`;
- a `text()` test for every fragment of the target's own text.

It evaluates every candidate against the document and keeps the visible matches. A candidate
whose visible matches are exactly the target is *unique*. When a candidate matches several
visible nodes, the positional form `(x)[k]` is tried instead, where `k` is the target's
1-based position among them. The positional form is kept as a *fallback* when it singles out
the target. The result is `{unique, all}` when some candidate is unique. Otherwise it is the
list of fallbacks.

The model follows the class method by method:

- `Dom` is the document as the generator sees it:
  - a tree of `Text`, `Element` and `Other` nodes;
  - the per-node `offsetWidth`/`offsetHeight`;
  - an XPath evaluator given as a function from expression strings to `Option<seq<NodeId>>`;
  - a mutable `InlineStyle` object holding `textTransform`.

  The evaluator is an oracle: `None` is a throwing `document.evaluate`, and nothing in the
  model interprets XPath.
- `JsText` holds the JavaScript string operations the code uses:
  - the `\s` class;
  - `replace(/\r?\n|\r/g, '')`;
  - `trim()` and `toLowerCase()`;
  - the decimal rendering of the index in a template literal.
- `Extraction` holds `getTag`, `addToResult` and `getText` as functions. `TextOf` is the
  fragment list of one `getText` call, and `ChildrenText` is its loop over `childNodes`. The
  lemmas state the depth bound, the admission rule and the shape of every fragment.
- `XPaths` gives the candidates as syntax values: a step `//tag[test]`, or the positional form
  `(x)[k]`. `Render` produces exactly the string the source's template literal builds. The
  lemmas show what a rendered step starts and ends with, and that the position can be read
  back from a rendered positional form.
- `Strategies` gives the candidate lists of `xpathStrategyFormElement`, `xpathStrategyText`
  and the full list of `xpathStrategies` as functions of the target in place (its parent's
  `childNodes` and its index).
- `Classify` holds `isVisible`, the oracle wrapper `findElementsByXpath`, `indexOf(el) + 1` and
  the unique/fallback split as functions of a *matcher*. A matcher gives each candidate its
  list of visible matches; for a document it is `VisibleMatches(o, doc)`. Classify proves
  soundness, completeness, order and the shape of the result.
- `Generator` holds the class `XPathGenerator`. Its methods are written as the loops of the
  source, and each is proved to compute the function that specifies it.
- `Pipeline` states the end-to-end promise of `xpathStrategies`.
- `Scenarios` works concrete documents through the model:
  - a list of three items, with its exact candidate list;
  - the `parents` bookkeeping of a nested element;
  - three items with the same text, with its exact fallback-only result.

The returned lists hold `XPath` values. The strings the source returns are their `Render`
images.

Two behaviours of the code that the model keeps:
- The positional form is built whenever a candidate has several visible matches, even when
  the target is not among them. The index `indexOf(el) + 1` is then 0, and `(x)[0]` is
  evaluated like any other form.
- `neutralizeElement` writes the empty string to `text-transform`. It does not restore the
  value the property had before `prepareElement`.

## Model

| member | source | states |
|---|---|---|
| Generator.XPathGenerator.constructor | xPathGenerator.js:3-8 | the stored options are the default `{checkVisibility: true}` only when no options object is given, and the given object otherwise |
| Classify.EffectiveOptions | xPathGenerator.js:5-7 | `options \|\| {checkVisibility: true}`: `None` gives the default, `Some(o)` gives `o` unchanged |
| Generator.XPathGenerator.FindElementsByXpath | xPathGenerator.js:63-73 | the result is the evaluator's snapshot in order, or empty when evaluation throws |
| Classify.VisibilityToggle | xPathGenerator.js:74-79 | a zero-sized box is hidden under the default options, visible when `checkVisibility` is `false` or missing from a given object, and a box without `offsetWidth` is never hidden |
| Classify.VisibleOnlySpec | xPathGenerator.js:195 | the visibility filter keeps exactly the nodes that are visible, each as often as it is listed, as an order-preserving subsequence; a hidden node is dropped from every place it is listed |
| Classify.VisibleOnlyWithoutCheck | xPathGenerator.js:75-76 | when visibility is not checked, the filter keeps every node |
| Classify.VisibleOnlyAllVisible | xPathGenerator.js:195 | a list whose nodes are all visible passes the filter unchanged |
| JsText.StripLineBreaks | xPathGenerator.js:86 | the result has no CR or LF, is no longer than the input, equals the input when that has no line break, and is empty when the input is only line breaks |
| JsText.StripLineBreaksKeepsOthers | xPathGenerator.js:86 | every character other than CR and LF occurs in the result as often as in the input |
| JsText.StripLineBreaksAppend | xPathGenerator.js:86 | deleting the line breaks of `a + b` deletes those of `a` and of `b` separately; with the single-character cases of `StripLineBreaks` this fixes the result, so the kept characters stay in order |
| JsText.TrimStart | xPathGenerator.js:159 | the result is the suffix left after the leading white space |
| JsText.TrimEnd | xPathGenerator.js:159 | the result is the prefix left before the trailing white space |
| JsText.Trim | xPathGenerator.js:159 | `trim()` neither starts nor ends with white space and is no longer than its input |
| JsText.TrimIsSlice | xPathGenerator.js:159 | `trim()` is a slice of the input framed on both sides by white space only |
| JsText.TrimIdempotent | xPathGenerator.js:159 | trimming twice is trimming once, and a blank string trims to the empty string |
| JsText.LowerChar | xPathGenerator.js:123 | an ASCII capital maps to its small letter and every other character is kept |
| JsText.ToLowerCase | xPathGenerator.js:123 | `toLowerCase()` maps every character pointwise and leaves no capital |
| JsText.ToLowerCaseIdempotent | xPathGenerator.js:123 | lowercasing twice is lowercasing once, and a string without capitals is unchanged |
| JsText.DigitChar | xPathGenerator.js:201 | a digit value maps to the character that reads back as that value |
| JsText.NumberToString | xPathGenerator.js:201 | the rendered index is a non-empty run of digits with no leading zero |
| JsText.ParseNumberToString | xPathGenerator.js:201 | reading the rendered index back as decimal yields the index |
| JsText.NumberToStringInjective | xPathGenerator.js:201 | distinct indices render as distinct strings |
| Extraction.GetTag | xPathGenerator.js:122-127 | the result is the lowercased tag name, except that a tag lowercasing to `svg` gives exactly `*[name()='svg']`; it is never the bare `svg` |
| Extraction.GetTagCaseInsensitive | xPathGenerator.js:122-127 | a tag name and its lowercased form render alike |
| Extraction.AddToResult | xPathGenerator.js:82-95 | one fragment is pushed exactly when the text is present, non-empty and not blank after line breaks are stripped; it records the level, the stripped text, the tag and the parents |
| Extraction.AdmissionRule | xPathGenerator.js:83-94 | a missing or empty text adds nothing, a text of line breaks only is admitted as the empty string, and an admitted text has no CR or LF and is not blank |
| Generator.XPathGenerator.GetText | xPathGenerator.js:80-121 | the recursive walk with its in-place `parents` list appends exactly `TextOf(element, parents, level)` to the accumulator |
| Extraction.TextOfWellFormed | xPathGenerator.js:80-121 | every fragment lies between the start level and level 5, has no line break, is not blank, has no bare `svg` tag, and has a parents list that extends the start list by tags none of which is the bare `svg` |
| Extraction.ChildrenTextWellFormed | xPathGenerator.js:99-113 | the same for the fragments the child loop pushes from any iteration on |
| Extraction.WellFormedWeaken | xPathGenerator.js:104-109 | a fragment well formed under a longer parents list and a deeper start is well formed under a prefix of it and a shallower start |
| Extraction.TextOfDepthBound | xPathGenerator.js:81 | a walk started below level 5 returns nothing, and no fragment is deeper than level 5 |
| Extraction.TextOfIgnoresDeepContent | xPathGenerator.js:81 | two trees that agree down to level 5 yield the same fragments, so deeper content is never extracted |
| Extraction.ChildrenTextIgnoresDeepContent | xPathGenerator.js:99-113 | the same for the child loop from any iteration on |
| XPaths.StepShape | xPathGenerator.js:138 | a step renders as `//`, its tag and `[`, and ends with `]` |
| XPaths.PositionalReadBack | xPathGenerator.js:201 | `(x)[k]` renders as `(x)[` followed by the decimal digits of `k` and `]`, and those digits read back as `k` |
| XPaths.PositionalInjective | xPathGenerator.js:201 | two positional forms of one candidate that render alike have the same index |
| Strategies.Candidates | xPathGenerator.js:137-140 | a strategy writes one candidate per fragment |
| Strategies.CandidatesAt | xPathGenerator.js:163-167 | the k-th candidate is written from the k-th fragment |
| Generator.XPathGenerator.WriteCandidates | xPathGenerator.js:149-152 | the template loop pushes the candidates of the fragments in fragment order |
| Generator.XPathGenerator.XPathStrategyFormElement | xPathGenerator.js:128-155 | the two sibling walks and the two template loops return exactly the sibling candidates of the earlier and later siblings' fragments |
| Strategies.SiblingCandidatesShape | xPathGenerator.js:130-154 | the sibling strategy is \|B\| preceding-sibling steps from the earlier siblings' fragments B (nearest first), then \|B\|+\|F\| following-sibling steps from B followed by the later siblings' fragments F |
| Generator.XPathGenerator.XPathStrategyText | xPathGenerator.js:156-170 | the method returns exactly the text candidates of the target's own fragments |
| Strategies.TextCandidatesShape | xPathGenerator.js:156-170 | the `normalize-space` step on the trimmed `innerText` comes first exactly when `innerText` is defined; then one `text()` step per fragment on the fragment's own tag, `null` written as `null` |
| Strategies.SvgTargetUsesNameTest | xPathGenerator.js:124-125 | for an `svg` target, every sibling candidate and the `normalize-space` candidate render with the `*[name()='svg']` test |
| Classify.Position | xPathGenerator.js:200 | `indexOf(el) + 1` is 0 exactly when `el` is absent; otherwise it is the 1-based index of the first `el` |
| Generator.XPathGenerator.ClassifyCandidate | xPathGenerator.js:193-207 | one pass of the loop finds a unique candidate exactly when its visible matches are the target alone, and a fallback exactly when it has several visible matches and its positional form matches the target alone |
| Generator.XPathGenerator.ClassifyCandidates | xPathGenerator.js:191-208 | the loop builds exactly the unique and fallback lists of the candidate list |
| Classify.UniqueOfSpec | xPathGenerator.js:196-198 | a candidate is in the unique list exactly when it is a candidate whose visible matches are the target alone, and the list is an order-preserving subsequence of the candidates |
| Classify.FallbackOfSpec | xPathGenerator.js:199-206 | a string is in the fallback list exactly when it is `(x)[k]` for a candidate `x` with several visible matches, `k` the target's position among them; every fallback matches the target alone |
| Classify.PositionalFormsAt | xPathGenerator.js:200-201 | the k-th positional form is that of the k-th candidate |
| Classify.FallbackOfInOrder | xPathGenerator.js:199-206 | the fallback list is the candidates' positional forms in candidate order, with some deleted |
| Classify.FallbackOfEveryCandidate | xPathGenerator.js:199-206 | when every candidate has a fallback, the fallback list is all their positional forms |
| Classify.FallbackFromAnswers | xPathGenerator.js:194-206 | a candidate answered with several visible nodes, whose positional form is answered with the target alone, has that positional form as its fallback |
| Classify.AllFallback | xPathGenerator.js:191-212 | when every candidate has a fallback, the result is the fallback-only list of all positional forms |
| Classify.ResultShape | xPathGenerator.js:212-217 | the result is fallback-only exactly when no candidate is unique; otherwise `unique` is non-empty, in candidate order, all unique, and `all` is the whole candidate list |
| Classify.UniqueOfAppend | xPathGenerator.js:192-198 | classifying `a + b` yields the unique list of `a` followed by that of `b` |
| Classify.FallbackOfAppend | xPathGenerator.js:192-207 | classifying `a + b` yields the fallback list of `a` followed by that of `b` |
| Classify.UnmatchedContributesNothing | xPathGenerator.js:194-207 | a candidate with no visible match adds to neither list |
| Classify.UniqueSkips | xPathGenerator.js:196-198 | a candidate that is not unique leaves the unique list of the candidates around it unchanged |
| Classify.FallbackSkips | xPathGenerator.js:199-206 | a candidate without a fallback leaves the fallback list of the candidates around it unchanged |
| Classify.OracleFailureSkipsCandidate | xPathGenerator.js:63-73 | a candidate whose evaluation throws is classified as if it were absent; the loop goes on |
| Generator.XPathGenerator.PrepareElement | xPathGenerator.js:171-176 | the inline `text-transform` of the target becomes `none`, and nothing happens when it has no style object |
| Generator.XPathGenerator.NeutralizeElement | xPathGenerator.js:177-182 | the inline `text-transform` of the target becomes the empty string, whatever it was before |
| Generator.XPathGenerator.XPathStrategies | xPathGenerator.js:183-218 | the result is the classification of the sibling candidates followed by the text candidates, and the target's `text-transform` is left empty |
| Pipeline.XPathStrategiesSound | xPathGenerator.js:183-218 | fallback-only exactly when no candidate matches the target alone; each fallback is `(x)[k]` for a candidate with several visible matches and the target's position `k`, and it matches the target alone; otherwise `all` is the sibling then text candidates and `unique` is a non-empty ordered selection of candidates that match the target alone |
| Scenarios.PlainText | xPathGenerator.js:83-94 | a non-empty text without CR or LF that does not start with white space is admitted unchanged |
| Scenarios.SoleText | xPathGenerator.js:100-105 | an element whose only child is an admitted text yields one fragment, and its parents list gains the element's own tag |
| Scenarios.LiText | xPathGenerator.js:100-105 | `<li>text</li>` yields the fragment `text` with tag `li` and parents extended by `li` |
| Scenarios.ThreeItems | xPathGenerator.js:128-170 | for the middle of three list items a, b, c, the candidates are the preceding(a), following(a), following(c), normalize-space(b) and text(b) steps, in that order |
| Scenarios.ElementThenText | xPathGenerator.js:100-110 | for an element child followed by a text, the element's tag is pushed for the element child only below level 0, and the text then shares that list |
| Scenarios.NestedParents | xPathGenerator.js:104-109 | `<div><b>x</b>y</div>` yields the fragments x (tag `b`) and y (tag `div`), whose parents lists depend on whether the walk starts at level 0 |
| Scenarios.ThreeIdenticalMatches | xPathGenerator.js:194-206 | in the three-identical-items document, for a text made of ASCII letters, every candidate has a fallback at the middle item's position |
| Scenarios.ThreeIdenticalItems | xPathGenerator.js:183-218 | for three items with the same text made of ASCII letters, the middle one the target, the result is fallback-only with the five positional forms `(pre)[1]`, `(fol)[2]` twice, `(norm)[2]` and `(text)[2]` |
| Scenarios.FiveFallbacks | xPathGenerator.js:191-212 | five candidates that all have a fallback yield their positional forms, in order, as a fallback-only result |

## Left out

- XPath evaluation is not modelled. `document.evaluate` is a parameter of the document, a
  function from the expression string to an ordered snapshot or to `None` when it throws.
  The three-identical-items scenario states the evaluator's answers as hypotheses. It
  limits the shared text to ASCII letters (`IsWord`), for which those are the answers of an
  XPath 1.0 engine: no apostrophe ends the quoted literal early, and `normalize-space`
  has no white space to collapse.
- Layout and rendering are not computed. `innerText`, `offsetWidth` and `offsetHeight` are
  fields given with the document. The effect of `text-transform` on `innerText` is not
  modelled, only that the field is written.
- `toLowerCase()` maps ASCII letters only. Other letters are kept as they are, whereas
  JavaScript also lowercases non-ASCII capitals.
- Strings are sequences of Unicode scalar values, not of UTF-16 code units. The `\s` class
  and `trim()` use the full ECMAScript white-space and line-terminator set.
- `checkVisibility` is a `bool` or missing. Other JavaScript values with the same truthiness
  behave the same, so the model treats `Some(true)` as truthy and everything else as falsy.
- Exceptions are values. A throwing `evaluate` is `None`. A missing `style` object, on which
  assignment throws, is `null`.
- `XPathStrategies` and the sibling strategy require the target to be an element
  (`Located.Valid`). This is a modelling choice, and it drops the case of a text or comment
  target. For such a target, `getTag` is reached only inside the sibling template loops. So
  the source throws when the siblings yield a fragment. When they yield none, it returns the
  classification of the text strategy alone: for a text node whose text is admitted by
  `addToResult`, that is the `//null[text()='…']` candidate of its own text. A text node whose
  text is not admitted, and a comment, get no candidate. The model does not capture either
  outcome.
- `getText` is modelled for a fresh accumulator and parents list, as the strategies call it.
  `GetText` takes the list by value. No call site passes in an array that it reads
  afterwards, so the in-place pushes onto the caller's array cannot be observed.
- `getAttributes`, `getTagName`, `getPreviousSiblings`, `getNextSiblings` and `getData`
  (xPathGenerator.js:10-62) are a separate serialisation walk. It never feeds the candidate
  pipeline, so it is not modelled.
- Extracted text is interpolated without escaping. The model renders exactly the string the
  source builds and leaves its answer to the evaluator. An apostrophe in a fragment can
  make the expression malformed. It can also give a well-formed query with another meaning:
  the text `a' or 'b` renders `//li[text()='a' or 'b']`. Only when the evaluator throws
  (`None`) does `OracleFailureSkipsCandidate` apply, and the candidate is then skipped.
