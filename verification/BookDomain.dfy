/**
 * Whole books: the children of the usx element are blocks (book, para, chapter, table) and implied
 * paragraphs (runs of inline content that stand directly below it). The normal form of a book, and the
 * books that a trip through Deltas is about.
 */
module BookDomain {
  import opened Usx
  import opened NormalForm
  import opened CharMarks

  datatype Item = Block(node: Node) | Implied(nodes: seq<Node>)

  predicate IsBlock(n: Node) {
    n.XElement? && n.tag in {Book, Para, Chapter, Table}
  }

  /** The children of the usx element, with neighbouring inline nodes gathered into implied paragraphs. */
  function Grouped(nodes: seq<Node>): seq<Item> {
    if nodes == [] then []
    else
      var rest := Grouped(nodes[1..]);
      if IsBlock(nodes[0]) then [Block(nodes[0])] + rest
      else if rest != [] && rest[0].Implied? then [Implied([nodes[0]] + rest[0].nodes)] + rest[1..]
      else [Implied([nodes[0]])] + rest
  }

  function ItemNodes(i: Item): seq<Node> {
    match i
    case Block(n) => [n]
    case Implied(nodes) => nodes
  }

  function Ungrouped(items: seq<Item>): seq<Node> {
    if items == [] then [] else ItemNodes(items[0]) + Ungrouped(items[1..])
  }

  lemma {:induction false} UngroupedGrouped(nodes: seq<Node>)
    ensures Ungrouped(Grouped(nodes)) == nodes
  {
    if nodes != [] {
      var rest := Grouped(nodes[1..]);
      UngroupedGrouped(nodes[1..]);
      if !IsBlock(nodes[0]) && rest != [] && rest[0].Implied? {
        assert Grouped(nodes)[1..] == rest[1..];
      } else {
        assert Grouped(nodes)[1..] == rest;
      }
    }
  }

  // ----- what comes back

  function CellNorm(n: Node): Node
    requires IsElement(n, Cell) || NodeNorm(n) != []
  {
    if IsElement(n, Cell) then XElement(Cell, n.attrs, Norm(n.nodes)) else NodeNorm(n)[0]
  }

  function CellsNorm(nodes: seq<Node>): seq<Node>
    requires RowOk(nodes)
  {
    if nodes == [] then []
    else (if nodes[0].XElement? then [CellNorm(nodes[0])] else []) + CellsNorm(nodes[1..])
  }

  lemma CellsNormStep(nodes: seq<Node>)
    requires RowOk(nodes) && nodes != []
    ensures nodes[0].XElement? ==> CellsNorm(nodes) == [CellNorm(nodes[0])] + CellsNorm(nodes[1..])
    ensures nodes[0].XText? ==> CellsNorm(nodes) == CellsNorm(nodes[1..])
  {
  }

  const ROW_ATTRS: Attrs := map["style" := "tr"]

  function RowNorm(n: Node): seq<Node>
    requires IsElement(n, Row) ==> RowOk(n.nodes)
  {
    var cells := if IsElement(n, Row) then CellsNorm(n.nodes) else [];
    if cells == [] then [] else [XElement(Row, ROW_ATTRS, cells)]
  }

  function RowsNorm(nodes: seq<Node>): seq<Node>
    requires TableOk(nodes)
  {
    if nodes == [] then [] else RowNorm(nodes[0]) + RowsNorm(nodes[1..])
  }

  function ItemNorm(i: Item): seq<Node>
    requires ItemOk(i)
  {
    match i
    case Implied(nodes) => Norm(nodes)
    case Block(n) =>
      if n.tag == Chapter then [XElement(Chapter, n.attrs, [])]
      else if n.tag == Table then
        var rows := RowsNorm(n.nodes);
        if rows == [] then [] else [XElement(Table, n.attrs, rows)]
      else [XElement(n.tag, n.attrs, Norm(n.nodes))]
  }

  function BookNorm(items: seq<Item>): seq<Node>
    requires ItemsOk(items)
  {
    if items == [] then [] else ItemNorm(items[0]) + BookNorm(items[1..])
  }

  // ----- the domain

  // A child element of a row is a cell, or inline content that leaves one node.
  predicate CellOk(n: Node) {
    if IsElement(n, Cell) then CleanAttrs(n.attrs) && Inline(n.nodes, false, false)
    else NodeInline(n, false, false) && NodeNorm(n) != []
  }

  predicate RowOk(nodes: seq<Node>) {
    nodes == [] || ((nodes[0].XElement? ==> CellOk(nodes[0])) && RowOk(nodes[1..]))
  }

  predicate TableOk(nodes: seq<Node>) {
    nodes == [] || ((IsElement(nodes[0], Row) ==> RowOk(nodes[0].nodes)) && TableOk(nodes[1..]))
  }

  predicate ItemOk(i: Item) {
    match i
    case Implied(nodes) => nodes != [] && Inline(nodes, false, false) && forall n :: n in nodes ==> !IsBlock(n)
    case Block(n) =>
      && IsBlock(n) && CleanAttrs(n.attrs)
      && (if n.tag == Table then TableOk(n.nodes) else n.tag == Chapter || Inline(n.nodes, false, false))
  }

  // Text, verses and notes start an implied paragraph that the next paragraph ends.
  predicate StartsImplied(n: Node) {
    n.XText? || n.tag == Verse || n.tag == Note
  }

  predicate Triggered(nodes: seq<Node>) {
    exists i :: 0 <= i < |nodes| && StartsImplied(nodes[i])
  }

  predicate IsParagraph(i: Item) {
    i.Block? && (IsElement(i.node, Para) || IsElement(i.node, Book))
  }

  predicate IsTable(i: Item) {
    i.Block? && IsElement(i.node, Table)
  }

  // An implied paragraph does not follow a table, and only a paragraph or the chapter's end follows it.
  predicate NeighboursOk(a: Item, b: Item) {
    && (a.Implied? ==> IsParagraph(b) && Triggered(a.nodes))
    && (IsTable(a) ==> b.Block?)
  }

  predicate ItemsOk(items: seq<Item>) {
    items == [] ||
    (ItemOk(items[0]) && ItemsOk(items[1..]) && (|items| > 1 ==> NeighboursOk(items[0], items[1])))
  }

  // ----- canonical books

  predicate CellsCanonical(nodes: seq<Node>) {
    nodes == [] ||
    (nodes[0].XElement? && CellsCanonical(nodes[1..]) &&
     (if nodes[0].tag == Cell then Canonical(nodes[0].nodes) else NodeCanonical(nodes[0])))
  }

  predicate RowsCanonical(nodes: seq<Node>) {
    nodes == [] ||
    (IsElement(nodes[0], Row) && nodes[0].attrs == ROW_ATTRS && nodes[0].nodes != [] &&
     CellsCanonical(nodes[0].nodes) && RowsCanonical(nodes[1..]))
  }

  predicate ItemCanonical(i: Item) {
    match i
    case Implied(nodes) => Canonical(nodes)
    case Block(n) =>
      n.XElement? &&
      if n.tag == Chapter then n.nodes == []
      else if n.tag == Table then n.nodes != [] && RowsCanonical(n.nodes)
      else Canonical(n.nodes)
  }

  predicate ItemsCanonical(items: seq<Item>) {
    items == [] || (ItemCanonical(items[0]) && ItemsCanonical(items[1..]))
  }

  lemma {:induction false} NodeNormalIffCanonical(n: Node)
    ensures NodeNorm(n) == [n] <==> NodeCanonical(n)
  {
    if n.XElement? {
      if n.tag == Ref {
        if NodeNorm(n) == [n] {
          RefText(n.nodes);
        }
      } else if n.tag != Verse {
        NormalIffCanonical(n.nodes);
      }
    }
    if NodeCanonical(n) {
      NodeCanonicalIsNormal(n);
    }
  }

  lemma {:induction false} CellsNormalIff(nodes: seq<Node>)
    requires RowOk(nodes)
    ensures |CellsNorm(nodes)| <= |nodes|
    ensures CellsNorm(nodes) == nodes <==> CellsCanonical(nodes)
  {
    if nodes != [] {
      CellsNormalIff(nodes[1..]);
      assert nodes == [nodes[0]] + nodes[1..];
      if nodes[0].XElement? {
        assert CellsNorm(nodes)[1..] == CellsNorm(nodes[1..]);
        if nodes[0].tag == Cell {
          NormalIffCanonical(nodes[0].nodes);
        } else {
          NodeNormalIffCanonical(nodes[0]);
        }
      }
    }
  }

  lemma {:induction false} RowsNormalIff(nodes: seq<Node>)
    requires TableOk(nodes)
    ensures |RowsNorm(nodes)| <= |nodes|
    ensures RowsNorm(nodes) == nodes <==> RowsCanonical(nodes)
  {
    if nodes != [] {
      RowsNormalIff(nodes[1..]);
      assert nodes == [nodes[0]] + nodes[1..];
      if IsElement(nodes[0], Row) {
        CellsNormalIff(nodes[0].nodes);
      }
      if RowsNorm(nodes) == nodes {
        assert |RowsNorm(nodes)| == |RowsNorm(nodes[1..])| + 1;
        assert RowsNorm(nodes)[1..] == RowsNorm(nodes[1..]);
      }
    }
  }

  lemma ItemNormalIff(i: Item)
    requires ItemOk(i)
    ensures |ItemNorm(i)| <= |ItemNodes(i)|
    ensures ItemNorm(i) == ItemNodes(i) <==> ItemCanonical(i)
  {
    match i
    case Implied(nodes) =>
      NormalIffCanonical(nodes);
      NormNoLonger(nodes);
    case Block(n) =>
      if n.tag == Table {
        RowsNormalIff(n.nodes);
      } else if n.tag != Chapter {
        NormalIffCanonical(n.nodes);
      }
  }

  /** A book comes back unchanged exactly when every block and implied paragraph is canonical. */
  lemma {:induction false} BookNormalIff(items: seq<Item>)
    requires ItemsOk(items)
    ensures |BookNorm(items)| <= |Ungrouped(items)|
    ensures BookNorm(items) == Ungrouped(items) <==> ItemsCanonical(items)
  {
    if items != [] {
      ItemNormalIff(items[0]);
      BookNormalIff(items[1..]);
      var a, b := ItemNorm(items[0]), ItemNodes(items[0]);
      if BookNorm(items) == Ungrouped(items) {
        assert |a| == |b|;
        assert BookNorm(items)[..|a|] == a && Ungrouped(items)[..|b|] == b;
        assert BookNorm(items)[|a|..] == BookNorm(items[1..]) && Ungrouped(items)[|b|..] == Ungrouped(items[1..]);
      }
    }
  }
}
