/** The parts of a browser document the generator reads: a tree of nodes, the layout boxes of
    nodes, an XPath evaluator and the `style` object of an element. */
module Dom {
  import opened Wrappers

  /** The identity of a node, as `===` compares node objects. */
  type NodeId = nat

  /** The inline style of an element; only the property the generator writes is modelled. */
  class InlineStyle {
    var textTransform: string

    constructor (textTransform: string)
      ensures this.textTransform == textTransform
    {
      this.textTransform := textTransform;
    }
  }

  /** A DOM node with its `childNodes`.
      - `Text`: nodeType 3; `textContent` is its data.
      - `Element`: nodeType 1. `innerText` is `None` where the element has no such property
        (it is `undefined` on SVG elements in several engines); `style` is `null` where the
        element has no inline style object, so that assigning to it throws.
      - `Other`: every other kind of child (comments, processing instructions, CDATA). */
  datatype Node =
    | Text(textContent: string)
    | Element(id: NodeId, tagName: string, childNodes: seq<Node>, innerText: Option<string>,
              style: InlineStyle?)
    | Other

  /** `offsetWidth` and `offsetHeight` of a node; `None` where the property is `undefined`
      (text nodes, SVG elements). */
  datatype Metrics = Metrics(offsetWidth: Option<int>, offsetHeight: Option<int>)

  /** The document the generator queries. `evaluate(x)` is the ordered snapshot of the nodes
      that XPath expression `x` selects, or `None` where `document.evaluate` throws (a
      malformed expression). `metrics(id)` is the layout box of a node. */
  datatype Document = Document(evaluate: string -> Option<seq<NodeId>>, metrics: NodeId -> Metrics)

  /** The generator's options object; `checkVisibility` is `None` when the field is absent. */
  datatype Options = Options(checkVisibility: Option<bool>)

  /** A node in place: `siblings` is its parent's `childNodes` (just the node itself when it
      has no parent) and the node is `siblings[index]`. Walking `previousSibling` visits
      `siblings[index - 1]`, ..., `siblings[0]`; walking `nextSibling` visits
      `siblings[index + 1]`, ..., the last one. */
  datatype Located = Located(siblings: seq<Node>, index: nat) {

    /** The located node exists and is an element, as the generator's target must be. */
    predicate Valid() {
      index < |siblings| && siblings[index].Element?
    }

    function Target(): (el: Node)
      requires Valid()
      ensures el.Element?
    {
      siblings[index]
    }
  }

  /** The style object an assignment to `n.style.textTransform` writes to, if any. */
  function StyleObjects(n: Node): set<InlineStyle> {
    if n.Element? && n.style != null then {n.style} else {}
  }
}
