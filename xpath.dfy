/** The XPath expressions the generator writes, as syntax, and the exact strings its template
    literals produce for them. */
module XPaths {
  import opened JsText

  /** The predicate inside the brackets of a step candidate. */
  datatype Test =
    | PrecedingSibling(text: string)  // preceding-sibling::*[descendant::text()='text']
    | FollowingSibling(text: string)  // following-sibling::*[descendant::text()='text']
    | NormalizeSpace(text: string)    // normalize-space(.)='text'
    | TextIs(text: string)            // text()='text'

  /** A candidate: `//tag[test]`, or the positional form `(inner)[position]` built for a
      candidate with several visible matches. */
  datatype XPath =
    | Step(tag: string, test: Test)
    | Positional(inner: XPath, position: nat)

  /** The fixed parts of the predicates the templates write. */
  const PrecedingOpen: string := "preceding-sibling::*[descendant::text()='"
  const FollowingOpen: string := "following-sibling::*[descendant::text()='"
  const NormalizeSpaceOpen: string := "normalize-space(.)='"
  const TextOpen: string := "text()='"

  function RenderTest(t: Test): string {
    match t
    case PrecedingSibling(text) => PrecedingOpen + text + "']"
    case FollowingSibling(text) => FollowingOpen + text + "']"
    case NormalizeSpace(text) => NormalizeSpaceOpen + text + "'"
    case TextIs(text) => TextOpen + text + "'"
  }

  /** The string the template literal builds: `//${tag}[${test}]` and `(${x})[${position}]`,
      the position written in decimal. */
  function Render(x: XPath): string {
    match x
    case Step(tag, test) => "//" + tag + "[" + RenderTest(test) + "]"
    case Positional(inner, position) => "(" + Render(inner) + ")[" + NumberToString(position) + "]"
  }

  /** A step renders as two slashes, its tag and an opening bracket, and ends with a closing
      bracket. */
  lemma StepShape(tag: string, test: Test)
    ensures "//" + tag + "[" <= Render(Step(tag, test))
    ensures Render(Step(tag, test))[|Render(Step(tag, test))| - 1] == ']'
  {
    assert Render(Step(tag, test)) == ("//" + tag + "[") + (RenderTest(test) + "]");
  }

  /** A positional form renders its candidate in parentheses and then its position: the text
      between `(x)[` and the final `]` is the decimal position, so the position can be read
      back from the string. */
  lemma {:induction false} PositionalReadBack(x: XPath, position: nat)
    ensures var r, p := Render(Positional(x, position)), "(" + Render(x) + ")[";
      && p <= r && r[|r| - 1] == ']'
      && IsDigits(r[|p|..|r| - 1]) && ParseDigits(r[|p|..|r| - 1]) == position
  {
    var r, p, d := Render(Positional(x, position)), "(" + Render(x) + ")[", NumberToString(position);
    assert r == p + d + "]";
    assert r[|p|..|r| - 1] == d;
    ParseNumberToString(position);
  }

  /** Two positional forms of one candidate that render alike have the same position. */
  lemma PositionalInjective(x: XPath, j: nat, k: nat)
    requires Render(Positional(x, j)) == Render(Positional(x, k))
    ensures j == k
  {
    PositionalReadBack(x, j);
    PositionalReadBack(x, k);
  }
}
