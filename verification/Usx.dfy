/** USX trees: elements with an attribute map, and text. */
module Usx {
  import opened Text

  type Attrs = map<string, string>

  // The element names the services treat specially; every other name is Other.
  datatype Tag =
    | Book | Chapter | Para | Verse | Ref | Char | Note
    | Table | Row | Cell | Blank | Empty | Other(name: string)

  datatype Node =
    | XText(value: string)
    | XElement(tag: Tag, attrs: Attrs, nodes: seq<Node>)

  predicate IsElement(n: Node, tag: Tag) {
    n.XElement? && n.tag == tag
  }

  /** The concatenated text of an element's descendants. */
  function InnerText(nodes: seq<Node>): string
    decreases nodes, 0
  {
    if nodes == [] then ""
    else NodeText(nodes[0]) + InnerText(nodes[1..])
  }

  function NodeText(n: Node): string
    decreases n, 1
  {
    match n
    case XText(v) => v
    case XElement(_, _, nodes) => InnerText(nodes)
  }

  predicate HasDescendant(nodes: seq<Node>, tag: Tag)
    decreases nodes, 0
  {
    nodes != [] && (NodeHas(nodes[0], tag) || HasDescendant(nodes[1..], tag))
  }

  predicate NodeHas(n: Node, tag: Tag)
    decreases n, 1
  {
    n.XElement? && (n.tag == tag || HasDescendant(n.nodes, tag))
  }

  function Get(a: Attrs, key: string): Option<string> {
    if key in a then Some(a[key]) else None
  }
}
