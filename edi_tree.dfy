/**
 * The parsed interchange as the serializers see it, and the delimiters
 * discovered in its envelope.
 *
 * In the system the tree is an XML DOM whose element nodes are told apart
 * by namespace (loops, segments, composites, elements); here each namespace
 * is a constructor. Every DOM element node has a local name, so every
 * constructor carries one.
 */
module EdiTree {

  /** The four delimiter roles of an interchange, one character each. */
  datatype Delimiters = Delimiters(
    segment: char,     // segment terminator
    element: char,     // data element separator
    component: char,   // component element separator
    repetition: char)  // repetition separator

  /**
   * A node of the interchange tree. The producer puts only loops and
   * segments inside loops, composites and elements inside segments and
   * elements inside composites; the serializers do not rely on that and
   * neither does this type.
   */
  datatype Node =
    | Loop(name: string, children: seq<Node>)
    | Segment(name: string, children: seq<Node>)
    | Composite(name: string, children: seq<Node>)
    | Element(name: string, text: string)

  /**
   * The child nodes the serializers iterate over. An element's only DOM
   * child is its text node, which belongs to none of the four kinds.
   */
  function Children(n: Node): seq<Node>
  {
    if n.Element? then [] else n.children
  }

  /** DOM text content: an element's text, or all its descendants' text in document order. */
  function TextContent(n: Node): string
    decreases n
  {
    match n
    case Element(_, text) => text
    case Loop(_, children) => ConcatText(children)
    case Segment(_, children) => ConcatText(children)
    case Composite(_, children) => ConcatText(children)
  }

  /** The text content of each node in turn, concatenated. */
  function ConcatText(nodes: seq<Node>): string
    decreases nodes
  {
    if |nodes| == 0 then []
    else ConcatText(nodes[..|nodes| - 1]) + TextContent(nodes[|nodes| - 1])
  }
}
