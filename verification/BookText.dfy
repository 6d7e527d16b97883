/**
 * The text of a book after a trip through its Deltas: what the normal form drops is text inside verses and
 * chapter marks, and between the rows and the cells of tables.
 */
module BookText {
  import opened Text
  import opened Usx
  import opened DeltaParser
  import opened NormalForm
  import opened CharMarks
  import opened DeltaBuilder
  import opened DeltaMerge
  import opened BookDomain
  import opened TableRoundTrip
  import opened BookRoundTrip
  import SR = SegmentRefs
  import opened WholeBook

  predicate CellsKeepText(nodes: seq<Node>) {
    nodes == [] ||
    ((if IsElement(nodes[0], Cell) then NoVerseText(nodes[0].nodes)
      else if nodes[0].XElement? then NodeNoVerseText(nodes[0])
      else nodes[0].value == "")
     && CellsKeepText(nodes[1..]))
  }

  predicate RowsKeepText(nodes: seq<Node>) {
    nodes == [] ||
    ((if IsElement(nodes[0], Row) then CellsKeepText(nodes[0].nodes) else NodeText(nodes[0]) == "")
     && RowsKeepText(nodes[1..]))
  }

  predicate KeepsText(i: Item) {
    match i
    case Implied(nodes) => NoVerseText(nodes)
    case Block(n) =>
      n.XElement? &&
      if n.tag == Chapter then InnerText(n.nodes) == ""
      else if n.tag == Table then RowsKeepText(n.nodes)
      else NoVerseText(n.nodes)
  }

  predicate AllKeepText(items: seq<Item>) {
    forall i :: 0 <= i < |items| ==> KeepsText(items[i])
  }

  lemma {:induction false} InnerTextAppend(a: seq<Node>, b: seq<Node>)
    ensures InnerText(a + b) == InnerText(a) + InnerText(b)
  {
    if a == [] {
      PlusNothing(b);
      PlusNothing(InnerText(b));
    } else {
      assert (a + b)[0] == a[0] && (a + b)[1..] == a[1..] + b;
      InnerTextAppend(a[1..], b);
      PlusAssoc(NodeText(a[0]), InnerText(a[1..]), InnerText(b));
    }
  }

  lemma OneNode(n: Node)
    ensures InnerText([n]) == NodeText(n)
  {
    Tail(n, []);
    PlusNothing(NodeText(n));
    assert [n] + [] == [n];
  }

  // The text of two parts, each of which keeps or loses text.
  lemma PartsText(a: seq<Node>, rest: seq<Node>, n: Node, nodes: seq<Node>)
    requires |InnerText(a)| <= |NodeText(n)| && |InnerText(rest)| <= |InnerText(nodes)|
    ensures |InnerText(a + rest)| <= |NodeText(n) + InnerText(nodes)|
    ensures InnerText(a + rest) == NodeText(n) + InnerText(nodes)
       <==> InnerText(a) == NodeText(n) && InnerText(rest) == InnerText(nodes)
  {
    InnerTextAppend(a, rest);
    SameParts(InnerText(a), InnerText(rest), NodeText(n), InnerText(nodes));
  }

  lemma CellText(n: Node)
    requires n.XElement? && CellOk(n)
    ensures |NodeText(CellNorm(n))| <= |NodeText(n)|
    ensures NodeText(CellNorm(n)) == NodeText(n)
       <==> if IsElement(n, Cell) then NoVerseText(n.nodes) else NodeNoVerseText(n)
  {
    if IsElement(n, Cell) {
      NormKeepsText(n.nodes);
    } else {
      NodeNormKeepsText(n);
      OneNode(CellNorm(n));
      assert NodeNorm(n) == [CellNorm(n)];
    }
  }

  lemma {:induction false} CellsText(nodes: seq<Node>)
    requires RowOk(nodes)
    ensures |InnerText(CellsNorm(nodes))| <= |InnerText(nodes)|
    ensures InnerText(CellsNorm(nodes)) == InnerText(nodes) <==> CellsKeepText(nodes)
  {
    if nodes != [] {
      var a := if nodes[0].XElement? then [CellNorm(nodes[0])] else [];
      CellsText(nodes[1..]);
      if nodes[0].XElement? {
        CellText(nodes[0]);
        OneNode(CellNorm(nodes[0]));
      }
      PartsText(a, CellsNorm(nodes[1..]), nodes[0], nodes[1..]);
    }
  }

  lemma {:induction false} RowsText(nodes: seq<Node>)
    requires TableOk(nodes)
    ensures |InnerText(RowsNorm(nodes))| <= |InnerText(nodes)|
    ensures InnerText(RowsNorm(nodes)) == InnerText(nodes) <==> RowsKeepText(nodes)
  {
    if nodes != [] {
      RowsText(nodes[1..]);
      RowText(nodes[0]);
      PartsText(RowNorm(nodes[0]), RowsNorm(nodes[1..]), nodes[0], nodes[1..]);
    }
  }

  lemma RowText(n: Node)
    requires IsElement(n, Row) ==> RowOk(n.nodes)
    ensures |InnerText(RowNorm(n))| <= |NodeText(n)|
    ensures InnerText(RowNorm(n)) == NodeText(n) <==> if IsElement(n, Row) then CellsKeepText(n.nodes) else NodeText(n) == ""
  {
    if IsElement(n, Row) {
      CellsText(n.nodes);
      OneNode(XElement(Row, ROW_ATTRS, CellsNorm(n.nodes)));
    }
  }

  lemma ItemText(i: Item)
    requires ItemOk(i)
    ensures |InnerText(ItemNorm(i))| <= |InnerText(ItemNodes(i))|
    ensures InnerText(ItemNorm(i)) == InnerText(ItemNodes(i)) <==> KeepsText(i)
  {
    match i
    case Implied(nodes) => NormKeepsText(nodes);
    case Block(n) =>
      OneNode(n);
      if n.tag == Chapter {
        OneNode(XElement(Chapter, n.attrs, []));
      } else if n.tag == Table {
        RowsText(n.nodes);
        OneNode(XElement(Table, n.attrs, RowsNorm(n.nodes)));
      } else {
        NormKeepsText(n.nodes);
        OneNode(XElement(n.tag, n.attrs, Norm(n.nodes)));
      }
  }

  /** A chapter in normal form has the text of the chapter exactly if it has none in one of those places. */
  lemma {:induction false} BookNormKeepsText(items: seq<Item>)
    requires ItemsOk(items)
    ensures |InnerText(BookNorm(items))| <= |InnerText(Ungrouped(items))|
    ensures InnerText(BookNorm(items)) == InnerText(Ungrouped(items)) <==> AllKeepText(items)
  {
    if items != [] {
      var a, rest, b, more := ItemNorm(items[0]), BookNorm(items[1..]), ItemNodes(items[0]), Ungrouped(items[1..]);
      ItemText(items[0]);
      BookNormKeepsText(items[1..]);
      InnerTextAppend(a, rest);
      InnerTextAppend(b, more);
      SameParts(InnerText(a), InnerText(rest), InnerText(b), InnerText(more));
      assert forall i :: 1 <= i < |items| ==> items[i] == items[1..][i - 1];
    }
  }

  // The chapters with a valid Delta lose no text.
  predicate TextKeptWhereValid(ds: seq<ChapterDelta>, segs: seq<seq<Node>>)
    requires |ds| == |segs|
  {
    forall i :: 0 <= i < |ds| && ds[i].isValid ==> AllKeepText(Grouped(segs[i]))
  }

  /** What comes back of a book has the text of the book exactly if the chapters with a valid Delta lose none. */
  lemma {:induction false} BackKeepsText(ds: seq<ChapterDelta>, segs: seq<seq<Node>>)
    requires InDomain(ds, segs)
    ensures |InnerText(Concat(Back(ds, segs)))| <= |InnerText(Concat(segs))|
    ensures InnerText(Concat(Back(ds, segs))) == InnerText(Concat(segs)) <==> TextKeptWhereValid(ds, segs)
  {
    if segs != [] {
      var a, b := Back(ds, segs)[0], segs[0];
      var rest, more := Concat(Back(ds[1..], segs[1..])), Concat(segs[1..]);
      BackKeepsText(ds[1..], segs[1..]);
      UngroupedGrouped(b);
      if ds[0].isValid {
        BookNormKeepsText(Grouped(b));
      }
      Tail(a, Back(ds[1..], segs[1..]));
      InnerTextAppend(a, rest);
      InnerTextAppend(b, more);
      SameParts(InnerText(a), InnerText(rest), InnerText(b), InnerText(more));
      LaterKept(ds, segs);
    }
  }

  lemma LaterKept(ds: seq<ChapterDelta>, segs: seq<seq<Node>>)
    requires |ds| == |segs| && segs != []
    ensures TextKeptWhereValid(ds, segs)
       <==> (ds[0].isValid ==> AllKeepText(Grouped(segs[0]))) && TextKeptWhereValid(ds[1..], segs[1..])
  {
    forall i | 1 <= i < |ds| ensures ds[i] == ds[1..][i - 1] && Grouped(segs[i]) == Grouped(segs[1..][i - 1]) {
      InTail(segs, i);
    }
    if TextKeptWhereValid(ds, segs) {
      forall i | 0 <= i < |ds[1..]| && ds[1..][i].isValid ensures AllKeepText(Grouped(segs[1..][i])) {
        assert ds[i + 1].isValid;
        InTail(segs, i + 1);
      }
    }
  }

  /** So splicing a book's own Deltas back into it keeps the text exactly under the same condition. */
  lemma TripKeepsText(newGuid: nat -> string, guids: nat, roots: seq<RootNode>, ds: seq<ChapterDelta>, nodes: seq<Node>)
      returns (back: seq<Node>)
    requires nodes == NodesOf(roots) && NoReserved(nodes) && AllNumbered(nodes)
    requires Injective(newGuid) && ChapterDeltas(newGuid, guids, roots) == Some(ds) && InDomain(ds, Segments(nodes, false))
    ensures Spliced(nodes, ds) == Merged(back)
    ensures InnerText(back) == InnerText(nodes) <==> SingleEmpty(ds) || TextKeptWhereValid(ds, Segments(nodes, false))
  {
    var segs := Segments(nodes, false);
    GetPut(newGuid, guids, roots, ds, nodes, segs);
    BackKeepsText(ds, segs);
    SegmentsOf(nodes, false);
    back := if SingleEmpty(ds) then nodes else Concat(Back(ds, segs));
  }

  // ----- white space that is lost

  function BookOf(title: string): Node {
    XElement(Book, map["code" := "RUT", "style" := "id"], [XText(title)])
  }

  function CellOf(text: string): Node {
    XElement(Cell, map["style" := "tc1", "align" := "start"], [XText(text)])
  }

  function RowOf(text: string): Node {
    XElement(Row, ROW_ATTRS, [CellOf(text)])
  }

  function TableOf(rows: seq<Node>): Node {
    XElement(Table, map[], rows)
  }

  // Text that is content: not empty, and without newlines.
  predicate Plain(text: string) {
    text != "" && '\n' !in text
  }

  lemma PlainContent(text: string)
    requires Plain(text)
    ensures var nodes := [XText(text)];
            && Norm(nodes) == nodes && Inline(nodes, false, false) && NoVerseText(nodes) && NoReserved(nodes)
            && !HasDescendant(nodes, Verse)
  {
    assert [XText(text)][1..] == [];
    assert Inline([], false, false) && NoReserved([]) && NoVerseText([]) && !HasDescendant([], Verse);
    assert NodeInline(XText(text), false, false);
  }

  lemma PlainBook(title: string)
    requires Plain(title)
    ensures var n := BookOf(title);
            && ItemOk(Block(n)) && ItemNorm(Block(n)) == [n] && KeepsText(Block(n)) && NodeNoReserved(n)
  {
    PlainContent(title);
  }

  lemma PlainRow(text: string)
    requires Plain(text)
    ensures var n := RowOf(text);
            && RowOk(n.nodes) && RowNorm(n) == [n] && CellsKeepText(n.nodes) && NodeNoReserved(n)
  {
    PlainContent(text);
    assert [CellOf(text)][1..] == [];
    assert CellsNorm([CellOf(text)]) == [CellOf(text)] + CellsNorm([]) == [CellOf(text)];
    assert NoReserved([CellOf(text)]) && CellsKeepText([CellOf(text)]);
  }

  lemma RowFirst(n: Node, rest: seq<Node>)
    requires (IsElement(n, Row) ==> RowOk(n.nodes)) && TableOk(rest)
    ensures var rows := [n] + rest;
            && TableOk(rows) && RowsNorm(rows) == RowNorm(n) + RowsNorm(rest)
            && (NoReserved(rows) <==> NodeNoReserved(n) && NoReserved(rest))
            && (RowsKeepText(rows) <==> (if IsElement(n, Row) then CellsKeepText(n.nodes) else NodeText(n) == "") && RowsKeepText(rest))
  {
    Tail(n, rest);
  }

  /** A table comes back without the text between its rows. */
  lemma SpacedTable(a: string, space: string, b: string)
    requires Plain(a) && Plain(b)
    ensures var n := TableOf([RowOf(a), XText(space), RowOf(b)]);
            && ItemOk(Block(n)) && ItemNorm(Block(n)) == [TableOf([RowOf(a), RowOf(b)])]
            && (KeepsText(Block(n)) <==> space == "") && NodeNoReserved(n)
  {
    PlainRow(a);
    PlainRow(b);
    OneText(space);
    OneNode(XText(space));
    RowFirst(RowOf(b), []);
    RowFirst(XText(space), [RowOf(b)] + []);
    RowFirst(RowOf(a), [XText(space)] + ([RowOf(b)] + []));
    PlusNothing([RowOf(b)]);
    assert [RowOf(a)] + ([XText(space)] + [RowOf(b)]) == [RowOf(a), XText(space), RowOf(b)];
    assert [RowOf(a)] + [RowOf(b)] == [RowOf(a), RowOf(b)];
  }

  /** A book of two blocks is one chapter. */
  lemma TwoBlocks(x: Node, y: Node)
    requires ItemOk(Block(x)) && ItemOk(Block(y)) && x.tag != Chapter && y.tag != Chapter
    requires NodeNoReserved(x) && NodeNoReserved(y)
    ensures var nodes, items := [x, y], [Block(x), Block(y)];
            && Segments(nodes, false) == [nodes] && NoReserved(nodes) && AllNumbered(nodes)
            && Grouped(nodes) == items && ItemsOk(items) && BookNorm(items) == ItemNorm(Block(x)) + ItemNorm(Block(y))
            && (AllKeepText(items) <==> KeepsText(Block(x)) && KeepsText(Block(y)))
  {
    var nodes, items := [x, y], [Block(x), Block(y)];
    assert nodes[1..] == [y] && nodes[1..][1..] == [];
    assert Segments([y], false) == [[y]] by {
      PlusNothing([y]);
      assert [y][1..] == [] && Segments([], false) == [[]];
    }
    PlusAssoc([x], [y], []);
    assert [x] + [y] == [x, y];
    assert Grouped([y]) == [Block(y)];
    assert items[1..] == [Block(y)] && items[1..][1..] == [];
    PlusNothing(ItemNorm(Block(y)));
    assert BookNorm([Block(y)]) == ItemNorm(Block(y));
    assert NoReserved([y]) && NoReserved([]);
    assert items[0] == Block(x) && items[1] == Block(y);
  }

  /** The walk over a book element and a table, and the verdict on it. */
  lemma TwoWalked(newGuid: nat -> string, title: string, y: Node, okBook: bool, okTable: bool) returns (ds: seq<ChapterDelta>)
    requires Injective(newGuid) && Plain(title) && IsElement(y, Table) && ItemOk(Block(y))
    ensures ChapterDeltas(newGuid, 0, [RootNode(BookOf(title), okBook), RootNode(y, okTable)]) == Some(ds)
    ensures |ds| == 1 && ds[0].isValid == (okBook && okTable)
  {
    var x := BookOf(title);
    var roots := [RootNode(x, okBook), RootNode(y, okTable)];
    var st := Start(0);
    var st1 := BookElementStep(newGuid, title, okBook);
    var st2 := TableStep(newGuid, st1, RootNode(y, okTable));
    SR.OneWalked(newGuid, st, roots, st1);
    SR.OneWalked(newGuid, st1, roots[1..], st2);
    assert BookWalked(newGuid, st2, roots[1..][1..]) == Some(st2);
    SR.OneDelta(newGuid, roots, st2);
    ds := [ChapterDelta(1, st2.fl.valid, st2.fl.ops)];
  }

  // What matters of the state here: no chapter was begun or ended, and what was walked is valid so far.
  predicate NoChapterYet(st: BookState, valid: bool) {
    st.deltas == [] && st.curChapter.None? && !st.implied && st.fl.valid == valid
  }

  lemma BookElementStep(newGuid: nat -> string, title: string, ok: bool) returns (st1: BookState)
    requires Injective(newGuid) && Plain(title)
    ensures RootStep(newGuid, Start(0), RootNode(BookOf(title), ok)) == Some(st1)
    ensures NoChapterYet(st1, ok) && exists m :: AfterBlock(st1, m, 0, 0)
  {
    var n, st := BookOf(title), Start(0).(bookIsValid := ok);
    PlainBook(title);
    PlainContent(title);
    var (key, prefix) := RefParts(None, Some("id")).value;
    var st0 := WithRef(st, key, prefix);
    var cx := Context(newGuid, None);
    WalkKeeps(cx, st0.fl, n.nodes, [], false);
    var m := ParaBodyRebuilt(cx, st0.fl, n, INITIAL);
    st1 := RootStep(newGuid, Start(0), RootNode(n, ok)).value;
    assert st1.fl == ParaBody(cx, st0.fl, n).(valid := ok);
    assert AfterBlock(st1, m, 0, 0);
  }

  lemma TableStep(newGuid: nat -> string, st: BookState, root: RootNode) returns (st1: BookState)
    requires Injective(newGuid) && IsElement(root.node, Table) && ItemOk(Block(root.node))
    requires NoChapterYet(st, st.fl.valid) && exists m :: AfterBlock(st, m, 0, 0)
    ensures RootStep(newGuid, st, root) == Some(st1) && NoChapterYet(st1, st.fl.valid && root.schemaValid)
  {
    var m :| AfterBlock(st, m, 0, 0);
    var m1, k, r := TableRebuilt(Context(newGuid, st.curChapter), st.fl, root.node, m, 0, 0);
    st1 := RootStep(newGuid, st, root).value;
  }

  // A book of one chapter: its Delta is not empty if it has a book element, and the chapter is all that comes back.
  lemma OneSegment(newGuid: nat -> string, roots: seq<RootNode>, ds: seq<ChapterDelta>, nodes: seq<Node>)
    requires Injective(newGuid) && ChapterDeltas(newGuid, 0, roots) == Some(ds) && nodes == NodesOf(roots)
    requires AllNumbered(nodes) && Segments(nodes, false) == [nodes] && |ds| == 1 && Books(nodes) != []
    requires ItemsOk(Grouped(nodes))
    ensures ds[0].ops != [] && InDomain(ds, [nodes])
    ensures Concat(Back(ds, [nodes])) == if ds[0].isValid then BookNorm(Grouped(nodes)) else nodes
  {
    DeltasDeliver(newGuid, 0, roots, ds);
    DeliversAt(newGuid, ds, [nodes], 0, ds[0], nodes);
    var back := Back(ds, [nodes]);
    assert [nodes][1..] == [] && back[1..] == [];
    PlusNothing(back[0]);
  }

  /** The trip of a book element and a table: the table comes back in normal form if both are valid. */
  lemma TableTrip(newGuid: nat -> string, title: string, y: Node, okBook: bool, okTable: bool)
      returns (ds: seq<ChapterDelta>, back: seq<Node>)
    requires Injective(newGuid) && Plain(title) && IsElement(y, Table) && ItemOk(Block(y)) && NodeNoReserved(y)
    ensures var nodes := [BookOf(title), y];
            && ChapterDeltas(newGuid, 0, [RootNode(nodes[0], okBook), RootNode(nodes[1], okTable)]) == Some(ds)
            && Spliced(nodes, ds) == Merged(back)
            && back == (if okBook && okTable then [BookOf(title)] + ItemNorm(Block(y)) else nodes)
            && (InnerText(back) == InnerText(nodes) <==> !(okBook && okTable) || KeepsText(Block(y)))
  {
    var nodes, roots := [BookOf(title), y], [RootNode(BookOf(title), okBook), RootNode(y, okTable)];
    PlainBook(title);
    TwoBlocks(BookOf(title), y);
    ds := TwoWalked(newGuid, title, y, okBook, okTable);
    assert NodesOf(roots) == nodes;
    OneSegment(newGuid, roots, ds, nodes);
    back := TripKeepsText(newGuid, 0, roots, ds, nodes);
    GetPut(newGuid, 0, roots, ds, nodes, [nodes]);
  }

  /**
   * So a trip loses text: white space between the rows of a table, which the schema allows. Whatever the
   * title, the cells and the space, with a valid Delta exactly the space is lost.
   */
  lemma SpaceLost(newGuid: nat -> string, title: string, a: string, space: string, b: string, okBook: bool, okTable: bool)
      returns (ds: seq<ChapterDelta>, back: seq<Node>)
    requires Injective(newGuid) && Plain(title) && Plain(a) && Plain(b)
    ensures var nodes := [BookOf(title), TableOf([RowOf(a), XText(space), RowOf(b)])];
            && ChapterDeltas(newGuid, 0, [RootNode(nodes[0], okBook), RootNode(nodes[1], okTable)]) == Some(ds)
            && Spliced(nodes, ds) == Merged(back)
            && back == (if okBook && okTable then [BookOf(title), TableOf([RowOf(a), RowOf(b)])] else nodes)
            && (InnerText(back) == InnerText(nodes) <==> !(okBook && okTable) || space == "")
  {
    var y := TableOf([RowOf(a), XText(space), RowOf(b)]);
    SpacedTable(a, space, b);
    ds, back := TableTrip(newGuid, title, y, okBook, okTable);
  }
}
