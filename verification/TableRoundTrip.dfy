/** Rebuilding tables: the machine turns the cell-ending newlines of a table back into its rows and cells. */
module TableRoundTrip {
  import opened Text
  import opened Usx
  import opened RichText
  import opened DeltaParser
  import opened DeltaBuilder
  import opened NormalForm
  import opened CharMarks
  import opened InlineRoundTrip
  import opened BookDomain

  /** Inline content moves the segment reference along, and nothing else of the parse state. */
  lemma {:induction false} WalkKeeps(cx: Context, fl: Flow, nodes: seq<Node>, chars: seq<Attrs>, inChar: bool)
    requires Inline(nodes, inChar, false)
    ensures var fl1 := Walked(cx, fl, nodes, chars);
            && fl1.tableIndex == fl.tableIndex && fl1.valid == fl.valid
            && (fl.curRef.Some? ==> fl1.curRef.Some?)
    decreases nodes, 0
  {
    if nodes != [] {
      NodeWalkKeeps(cx, fl, nodes[0], chars, inChar);
      WalkKeeps(cx, NodeWalked(cx, fl, nodes[0], chars), nodes[1..], chars, inChar);
    }
  }

  lemma {:induction false} NodeWalkKeeps(cx: Context, fl: Flow, n: Node, chars: seq<Attrs>, inChar: bool)
    requires NodeInline(n, inChar, false)
    ensures var fl1 := NodeWalked(cx, fl, n, chars);
            && fl1.tableIndex == fl.tableIndex && fl1.valid == fl.valid
            && (fl.curRef.Some? ==> fl1.curRef.Some?)
    decreases n, 1
  {
    if n.XElement? && n.tag == Char {
      WalkKeeps(cx, fl.(guids := fl.guids + 1), n.nodes, chars + [Identified(cx, n.attrs, fl.guids)], true);
    }
  }

  // ----- between blocks

  // The last operation is unformatted, and a text only if it ends a block.
  predicate BlockEnd(ops: seq<Op>) {
    ops != [] ==>
      && Last(ops).attrs.chars.None?
      && (Last(ops).insert.Str? ==>
            Last(ops).attrs.block.Some? || Last(ops).attrs.table.Some? || Last(ops).attrs == NO_ATTRS)
  }

  // The same, where a text always carries the attributes of the block it ends.
  predicate StrictEnd(ops: seq<Op>) {
    BlockEnd(ops) && (ops != [] && Last(ops).insert.Str? ==> Last(ops).attrs != NO_ATTRS)
  }

  lemma BlockEndFresh(ops: seq<Op>, ref: string)
    requires BlockEnd(ops)
    ensures Fresh(ops, Some(ref))
  {
  }

  function TableElement(m: Machine): Node
    requires m.table.Some? && |m.stack| == 3
  {
    XElement(Table, Visible(m.table.value), m.stack[0] + [RowElement(m.stack[1])])
  }

  // No content is waiting for its block: nothing is open, or a table with its row.
  predicate Idle(m: Machine) {
    && m.cur == []
    && (m.table.None? ==> m.row.None? && m.stack == [[]])
    && (m.table.Some? ==> m.row.Some? && |m.stack| == 3 && m.stack[2] == [])
  }

  // What has been rebuilt so far, counting an open table.
  function Output(m: Machine): seq<Node>
    requires Idle(m)
  {
    m.content + if m.table.None? then [] else [TableElement(m)]
  }

  // The open table, if any, is number k and its open row is number r.
  predicate OpenAt(m: Machine, k: nat, r: nat) {
    m.table.Some? ==>
      Get(m.table.value, "id") == Some(TableId(k)) && m.row == Some(map["id" := RowId(k, r)])
  }

  lemma RowIdInjective(k: nat, r: nat, k1: nat, r1: nat)
    requires RowId(k, r) == RowId(k1, r1)
    ensures k == k1 && r == r1
  {
    SuffixedNumeral("row_" + Decimal(k), r, "row_" + Decimal(k1), r1);
    assert ("row_" + Decimal(k))[4..] == Decimal(k);
    assert ("row_" + Decimal(k1))[4..] == Decimal(k1);
    DecimalInjective(k, k1);
  }

  lemma TableIdInjective(k: nat, k1: nat)
    requires TableId(k) == TableId(k1)
    ensures k == k1
  {
    assert TableId(k)[6..] == Decimal(k);
    assert TableId(k1)[6..] == Decimal(k1);
    DecimalInjective(k, k1);
  }

  // ----- inside a table

  // The table being built: the output before it, its attributes and number, its closed rows, and the
  // cells of the row being built, which is row r; and which table and row are open on the machine.
  datatype Growing = Growing(
    before: seq<Node>, attrs: Attrs, t: nat, r: nat, rows: seq<Node>, cells: seq<Node>, openTable: nat, openRow: nat)

  /** The machine is where the table g describes can take its next cell. */
  predicate Grows(m: Machine, g: Growing) {
    && Idle(m) && OpenAt(m, g.openTable, g.openRow) && Get(g.attrs, "id") == Some(TableId(g.t))
    && if g.cells != [] then
         m.table == Some(g.attrs) && m.content == g.before && m.stack == [g.rows, g.cells, []]
         && g.openTable == g.t && g.openRow == g.r
       else if g.rows != [] then
         m.table == Some(g.attrs) && m.content == g.before && m.stack[0] == DropLast(g.rows)
         && Last(g.rows) == RowElement(m.stack[1]) && g.openTable == g.t && g.openRow < g.r
       else Output(m) == g.before && g.openTable < g.t
  }

  function WithCells(g: Growing, cells: seq<Node>): Growing {
    if cells == [] then g else g.(cells := g.cells + cells, openTable := g.t, openRow := g.r)
  }

  lemma WithCellsTwice(g: Growing, x: Node, cells: seq<Node>)
    ensures WithCells(WithCells(g, [x]), cells) == WithCells(g, [x] + cells)
  {
    PlusAssoc(g.cells, [x], cells);
  }

  function NextRow(g: Growing): Growing {
    g.(r := g.r + 1, cells := [], rows := g.rows + if g.cells == [] then [] else [RowElement(g.cells)])
  }

  lemma PaddedStack(rows: seq<Node>)
    ensures AtLeastTwo([rows]) == [rows, []]
    ensures AtLeastTwo([]) == [[], []]
  {
    var one: seq<seq<Node>> := [[]];
    assert seq(1, _ => []) == one;
  }

  /** Once the cell's own list is off the stack, the open row and table are those the cell belongs to. */
  lemma SwitchedForCell(m: Machine, g: Growing)
    requires Grows(m, g)
    ensures var r := TableSwitched(m.(stack := DropLast(m.stack)), g.attrs, Some(map["id" := RowId(g.t, g.r)]));
            && r.Some? && AtLeastTwo(r.value.stack) == [g.rows, g.cells]
            && r.value.content == g.before && r.value.cur == []
  {
    PaddedStack(g.rows);
    if g.cells != [] {
      assert DropLast(m.stack) == [g.rows, g.cells];
      assert Get(map["id" := RowId(g.t, g.r)], "id") == Some(RowId(g.t, g.r));
    } else if g.rows != [] {
      PreviousRowEnded(m, g);
    } else if m.table.None? {
      assert DropLast(m.stack) == [];
    } else {
      PreviousTableEnded(m, g);
    }
  }

  lemma PreviousRowEnded(m: Machine, g: Growing)
    requires Grows(m, g) && g.cells == [] && g.rows != []
    ensures var r := TableSwitched(m.(stack := DropLast(m.stack)), g.attrs, Some(map["id" := RowId(g.t, g.r)]));
            && r.Some? && r.value.stack == [g.rows]
            && r.value.content == g.before && r.value.cur == []
  {
    assert Get(map["id" := RowId(g.t, g.r)], "id") == Some(RowId(g.t, g.r));
    if RowId(g.t, g.openRow) == RowId(g.t, g.r) {
      RowIdInjective(g.t, g.openRow, g.t, g.r);
    }
    assert DropLast(m.stack) == [m.stack[0], m.stack[1]];
    assert DropLast(g.rows) + [Last(g.rows)] == g.rows;
  }

  lemma PreviousTableEnded(m: Machine, g: Growing)
    requires Grows(m, g) && g.cells == [] && g.rows == [] && m.table.Some?
    ensures var r := TableSwitched(m.(stack := DropLast(m.stack)), g.attrs, Some(map["id" := RowId(g.t, g.r)]));
            && r.Some? && r.value.stack == [[]]
            && r.value.content == g.before && r.value.cur == []
  {
    var row := map["id" := RowId(g.t, g.r)];
    assert Get(row, "id") == Some(RowId(g.t, g.r));
    if RowId(g.openTable, g.openRow) == RowId(g.t, g.r) {
      RowIdInjective(g.openTable, g.openRow, g.t, g.r);
    }
    if TableId(g.openTable) == TableId(g.t) {
      TableIdInjective(g.openTable, g.t);
    }
    assert DropLast(m.stack) == [m.stack[0], m.stack[1]];
  }

  /** A cell's content, then the newline that ends the cell. */
  lemma CellGrows(m: Machine, g: Growing, top: seq<Node>, cell: Option<Attrs>, x: Node) returns (m2: Machine)
    requires Grows(m, g) && CellNode(cell, top) == Some(x)
    ensures CellEnded(TopAdded(m, top), g.attrs, Some(map["id" := RowId(g.t, g.r)]), cell) == Some(m2)
    ensures Grows(m2, WithCells(g, [x]))
  {
    var row := Some(map["id" := RowId(g.t, g.r)]);
    SwitchedForCell(m, g);
    TopOfIdle(m, top);
    var switched := TableSwitched(m.(stack := DropLast(m.stack)), g.attrs, row).value;
    m2 := CellAdded(switched, x, g.attrs, row);
    CellPlaced(switched, g.rows, g.cells, x, g.attrs, row);
  }

  lemma TopOfIdle(m: Machine, top: seq<Node>)
    requires Idle(m)
    ensures Last(TopAdded(m, top).stack) == top
    ensures TopAdded(m, top).(stack := DropLast(TopAdded(m, top).stack)) == m.(stack := DropLast(m.stack))
  {
    assert [] + top == top;
    assert DropLast(TopAdded(m, top).stack) == DropLast(m.stack);
  }

  lemma CellPlaced(m: Machine, rows: seq<Node>, cells: seq<Node>, x: Node, attrs: Attrs, row: Option<Attrs>)
    requires AtLeastTwo(m.stack) == [rows, cells]
    ensures CellAdded(m, x, attrs, row) == Machine(m.content, m.cur, [rows, cells + [x], []], Some(attrs), row)
  {
    var two := [rows, cells];
    assert DropLast(two) + [Last(two) + [x]] + [[]] == [rows, cells + [x], []];
  }

  /** Going on to the next row closes this one, unless it has no cells. */
  lemma RowGrows(m: Machine, g: Growing)
    requires Grows(m, g)
    ensures Grows(m, NextRow(g))
  {
    if g.cells != [] {
      assert DropLast(g.rows + [RowElement(g.cells)]) == g.rows;
    } else {
      assert g.rows + [] == g.rows;
    }
  }

  /** The output once all rows are in. */
  lemma GrownOutput(m: Machine, g: Growing)
    requires Grows(m, g) && g.cells == []
    ensures Output(m) == g.before + if g.rows == [] then [] else [XElement(Table, Visible(g.attrs), g.rows)]
  {
    if g.rows != [] {
      assert DropLast(g.rows) + [Last(g.rows)] == g.rows;
    } else {
      assert g.before + [] == g.before;
    }
  }

  // ----- the walk over a table

  /** The content of a segment, with a blank if it has none. */
  lemma ContentRebuilt(cx: Context, fl: Flow, nodes: seq<Node>, m: Machine) returns (m1: Machine)
    requires Injective(cx.newGuid) && Inline(nodes, false, false) && fl.curRef.Some?
    requires Read(fl.ops, m) && BlockEnd(fl.ops) && Idle(m)
    ensures var fl1 := Walked(cx, fl, nodes, []);
            && fl1.tableIndex == fl.tableIndex && fl1.valid == fl.valid && fl1.curRef.Some?
            && Read(SegmentEnded(fl1.ops, fl1.curRef), m1) && Settled(m1, []) == TopAdded(m, Norm(nodes))
            && NewlineApart(SegmentEnded(fl1.ops, fl1.curRef))
  {
    BlockEndFresh(fl.ops, fl.curRef.value);
    WalkKeeps(cx, fl, nodes, [], false);
    var fl1 := Walked(cx, fl, nodes, []);
    var m0 := InlineRebuilt(cx, fl, nodes, m);
    m1 := SegmentEndedAppended(fl1.ops, fl1.curRef, m0);
    SettledAlready(m);
  }

  // A newline that ends a block does not join the last operation.
  predicate NewlineApart(ops: seq<Op>) {
    ops != [] && (Last(ops).insert.Str? ==> Last(ops).attrs.block.None? && Last(ops).attrs.table.None?)
  }

  /** One cell: its content, a blank if it has none, and the newline. */
  lemma CellRebuilt(cx: Context, fl: Flow, n: Node, c: nat, m: Machine, g: Growing) returns (m2: Machine)
    requires Injective(cx.newGuid) && n.XElement? && CellOk(n)
    requires Read(fl.ops, m) && StrictEnd(fl.ops) && Grows(m, g)
    ensures var fl1 := NodeWalked(cx, fl.(curRef := Some(CellRef(fl.tableIndex, g.r, c))), n, []);
            var ops := Inserted(SegmentEnded(fl1.ops, fl1.curRef), CellEnd(g.attrs, RowId(g.t, g.r), n));
            && Read(ops, m2) && StrictEnd(ops) && fl1.tableIndex == fl.tableIndex && fl1.valid == fl.valid
            && Grows(m2, WithCells(g, [CellNorm(n)]))
  {
    var fl0 := fl.(curRef := Some(CellRef(fl.tableIndex, g.r, c)));
    var fl1 := NodeWalked(cx, fl0, n, []);
    var m1 := CellContentRebuilt(cx, fl0, n, m);
    m2 := CellEndRead(SegmentEnded(fl1.ops, fl1.curRef), n, m, m1, g);
  }

  lemma CellContentRebuilt(cx: Context, fl: Flow, n: Node, m: Machine) returns (m1: Machine)
    requires Injective(cx.newGuid) && n.XElement? && CellOk(n) && fl.curRef.Some?
    requires Read(fl.ops, m) && BlockEnd(fl.ops) && Idle(m)
    ensures var fl1 := NodeWalked(cx, fl, n, []);
            && fl1.tableIndex == fl.tableIndex && fl1.valid == fl.valid && fl1.curRef.Some?
            && Read(SegmentEnded(fl1.ops, fl1.curRef), m1) && NewlineApart(SegmentEnded(fl1.ops, fl1.curRef))
    ensures Settled(m1, []) == TopAdded(m, if n.tag == Cell then Norm(n.nodes) else NodeNorm(n))
  {
    if n.tag == Cell {
      m1 := ContentRebuilt(cx, fl, n.nodes, m);
    } else {
      SingleNode(cx, fl, n);
      m1 := ContentRebuilt(cx, fl, [n], m);
    }
  }

  lemma SingleNode(cx: Context, fl: Flow, n: Node)
    ensures Walked(cx, fl, [n], []) == NodeWalked(cx, fl, n, [])
    ensures Norm([n]) == NodeNorm(n)
    ensures Inline([n], false, false) == NodeInline(n, false, false)
  {
    assert [n][1..] == [];
  }

  lemma CellEndRead(ops: seq<Op>, n: Node, m: Machine, m1: Machine, g: Growing) returns (m2: Machine)
    requires n.XElement? && CellOk(n) && Grows(m, g)
    requires Read(ops, m1) && NewlineApart(ops)
    requires Settled(m1, []) == TopAdded(m, if n.tag == Cell then Norm(n.nodes) else NodeNorm(n))
    ensures var end := CellEnd(g.attrs, RowId(g.t, g.r), n);
            Inserted(ops, end) == ops + [end] && Read(ops + [end], m2)
    ensures Grows(m2, WithCells(g, [CellNorm(n)]))
  {
    var end := CellEnd(g.attrs, RowId(g.t, g.r), n);
    var top := if n.tag == Cell then Norm(n.nodes) else NodeNorm(n);
    CellBecomes(n);
    m2 := CellGrows(m, g, top, end.attrs.cell, CellNorm(n));
    NewlineStep(m1, end);
    BlockNewlineRead(ops, end, m1, m2);
  }

  /** A newline with block attributes is an operation of its own. */
  lemma BlockNewlineRead(ops: seq<Op>, end: Op, m1: Machine, m2: Machine)
    requires Read(ops, m1) && NewlineApart(ops)
    requires end.insert == Str("\n") && end.attrs.chars.None? && (end.attrs.table.Some? || end.attrs.block.Some?)
    requires Step(m1, end) == Some(m2) && m2.cur == []
    ensures Inserted(ops, end) == ops + [end] && Read(ops + [end], m2) && StrictEnd(ops + [end])
  {
    assert !Joins(Last(ops), end);
    ReadMore(ops, end, m1, m2);
  }

  lemma CellBecomes(n: Node)
    requires n.XElement? && CellOk(n)
    ensures CellNode(if n.tag == Cell then Some(n.attrs) else None, if n.tag == Cell then Norm(n.nodes) else NodeNorm(n))
         == Some(CellNorm(n))
  {
    assert n.tag == Cell ==> Visible(n.attrs) == n.attrs;
  }

  /** The newline that ends a cell. */
  lemma NewlineStep(m: Machine, end: Op)
    requires Shape(m) && end.insert == Str("\n") && end.attrs.chars.None? && end.attrs.table.Some?
    requires end.attrs.block.None? && end.attrs.ref.None? && end.attrs.segment == NoSegment
    ensures Step(m, end) == CellEnded(Settled(m, []), end.attrs.table.value, end.attrs.row, end.attrs.cell)
  {
  }

  lemma {:induction false} CellsRebuilt(cx: Context, fl: Flow, nodes: seq<Node>, c: nat, m: Machine, g: Growing)
      returns (m2: Machine)
    requires Injective(cx.newGuid) && RowOk(nodes)
    requires Read(fl.ops, m) && StrictEnd(fl.ops) && Grows(m, g)
    ensures var fl1 := CellsWalked(cx, fl, nodes, g.attrs, RowId(g.t, g.r), g.r, c);
            && Read(fl1.ops, m2) && StrictEnd(fl1.ops) && fl1.tableIndex == fl.tableIndex && fl1.valid == fl.valid
            && Grows(m2, WithCells(g, CellsNorm(nodes)))
    decreases nodes
  {
    if nodes == [] {
      m2 := m;
      assert g.cells + [] == g.cells;
    } else if nodes[0].XElement? {
      var fl1 := NodeWalked(cx, fl.(curRef := Some(CellRef(fl.tableIndex, g.r, c))), nodes[0], []);
      var ops := Inserted(SegmentEnded(fl1.ops, fl1.curRef), CellEnd(g.attrs, RowId(g.t, g.r), nodes[0]));
      var m1 := CellRebuilt(cx, fl, nodes[0], c, m, g);
      var x := CellNorm(nodes[0]);
      m2 := CellsRebuilt(cx, fl1.(ops := ops), nodes[1..], c + 1, m1, WithCells(g, [x]));
      CellsNormStep(nodes);
      WithCellsTwice(g, x, CellsNorm(nodes[1..]));
    } else {
      m2 := CellsRebuilt(cx, fl, nodes[1..], c, m, g);
      CellsNormStep(nodes);
    }
  }

  lemma RowNode(cells: seq<Node>)
    ensures RowElement(cells) == XElement(Row, ROW_ATTRS, cells)
  {
    assert Visible(ROW_ATTRS) == ROW_ATTRS;
  }

  // g1 is g with more rows.
  predicate Progressed(g: Growing, g1: Growing, rows: seq<Node>) {
    g1 == g.(r := g1.r, rows := g.rows + rows, openTable := g1.openTable, openRow := g1.openRow)
  }

  lemma RowDone(m: Machine, g: Growing, cells: seq<Node>) returns (g1: Growing)
    requires Grows(m, WithCells(g, cells)) && g.cells == []
    ensures Grows(m, g1) && g1.r == g.r + 1
    ensures Progressed(g, g1, if cells == [] then [] else [XElement(Row, ROW_ATTRS, cells)])
  {
    assert g.cells + cells == cells && g.rows + [] == g.rows;
    RowGrows(m, WithCells(g, cells));
    RowNode(cells);
    g1 := NextRow(WithCells(g, cells));
  }

  // The parse state after one child of a table.
  function RowWalked(cx: Context, fl: Flow, n: Node, tableAttrs: Attrs, r: nat): Flow {
    if IsElement(n, Row) then CellsWalked(cx, fl, n.nodes, tableAttrs, RowId(fl.tableIndex, r), r, 1) else fl
  }

  lemma RowRebuilt(cx: Context, fl: Flow, n: Node, m: Machine, g: Growing) returns (m1: Machine, g1: Growing)
    requires Injective(cx.newGuid) && (IsElement(n, Row) ==> RowOk(n.nodes)) && g.cells == [] && g.t == fl.tableIndex
    requires Read(fl.ops, m) && StrictEnd(fl.ops) && Grows(m, g)
    ensures var fl1 := RowWalked(cx, fl, n, g.attrs, g.r);
            Read(fl1.ops, m1) && StrictEnd(fl1.ops) && fl1.tableIndex == fl.tableIndex && fl1.valid == fl.valid
    ensures Grows(m1, g1) && Progressed(g, g1, RowNorm(n)) && g1.r == if IsElement(n, Row) then g.r + 1 else g.r
  {
    if IsElement(n, Row) {
      m1 := CellsRebuilt(cx, fl, n.nodes, 1, m, g);
      g1 := RowDone(m1, g, CellsNorm(n.nodes));
    } else {
      assert g.rows + [] == g.rows;
      m1, g1 := m, g;
    }
  }

  lemma {:induction false} RowsRebuilt(cx: Context, fl: Flow, nodes: seq<Node>, m: Machine, g: Growing)
      returns (m2: Machine, g2: Growing)
    requires Injective(cx.newGuid) && TableOk(nodes) && g.cells == [] && g.t == fl.tableIndex
    requires Read(fl.ops, m) && StrictEnd(fl.ops) && Grows(m, g)
    ensures var fl1 := RowsWalked(cx, fl, nodes, g.attrs, g.r);
            Read(fl1.ops, m2) && StrictEnd(fl1.ops) && fl1.tableIndex == fl.tableIndex && fl1.valid == fl.valid
    ensures Grows(m2, g2) && Progressed(g, g2, RowsNorm(nodes))
    decreases nodes
  {
    if nodes == [] {
      m2, g2 := m, g;
      assert g.rows + [] == g.rows;
    } else {
      var m1, g1 := RowRebuilt(cx, fl, nodes[0], m, g);
      var fl1 := RowWalked(cx, fl, nodes[0], g.attrs, g.r);
      assert RowsWalked(cx, fl, nodes, g.attrs, g.r) == RowsWalked(cx, fl1, nodes[1..], g.attrs, g1.r);
      m2, g2 := RowsRebuilt(cx, fl1, nodes[1..], m1, g1);
      PlusAssoc(g.rows, RowNorm(nodes[0]), RowsNorm(nodes[1..]));
    }
  }

  /** A whole table, after any blocks. */
  lemma TableRebuilt(cx: Context, fl: Flow, n: Node, m: Machine, k: nat, r: nat) returns (m2: Machine, k2: nat, r2: nat)
    requires Injective(cx.newGuid) && IsElement(n, Table) && ItemOk(Block(n))
    requires Read(fl.ops, m) && StrictEnd(fl.ops) && Idle(m) && OpenAt(m, k, r) && k <= fl.tableIndex
    ensures var fl1 := NodeWalked(cx, fl, n, []);
            && Read(fl1.ops, m2) && StrictEnd(fl1.ops) && fl1.tableIndex == fl.tableIndex + 1 && fl1.valid == fl.valid
            && Idle(m2) && Output(m2) == Output(m) + ItemNorm(Block(n)) && OpenAt(m2, k2, r2) && k2 <= fl1.tableIndex
  {
    var t := fl.tableIndex + 1;
    m2, k2, r2 := TableRowsRebuilt(cx, fl.(tableIndex := t), n.nodes, n.attrs, m, k, r);
  }

  lemma TableRowsRebuilt(cx: Context, fl: Flow, rows: seq<Node>, attrs: Attrs, m: Machine, k: nat, r: nat)
      returns (m2: Machine, k2: nat, r2: nat)
    requires Injective(cx.newGuid) && TableOk(rows) && CleanAttrs(attrs)
    requires Read(fl.ops, m) && StrictEnd(fl.ops) && Idle(m) && OpenAt(m, k, r) && k < fl.tableIndex
    ensures var fl1 := RowsWalked(cx, fl, rows, attrs["id" := TableId(fl.tableIndex)], 1);
            Read(fl1.ops, m2) && StrictEnd(fl1.ops) && fl1.tableIndex == fl.tableIndex && fl1.valid == fl.valid
    ensures Idle(m2) && OpenAt(m2, k2, r2) && k2 <= fl.tableIndex
    ensures Output(m2) == Output(m) + if RowsNorm(rows) == [] then [] else [XElement(Table, attrs, RowsNorm(rows))]
  {
    var g := TableBegun(m, attrs, fl.tableIndex, k, r);
    var g2;
    m2, g2 := RowsRebuilt(cx, fl, rows, m, g);
    k2, r2 := g2.openTable, g2.openRow;
    PlusNothing(RowsNorm(rows));
    GrownOutput(m2, g2);
  }

  lemma TableBegun(m: Machine, attrs: Attrs, t: nat, k: nat, r: nat) returns (g: Growing)
    requires Idle(m) && OpenAt(m, k, r) && k < t && CleanAttrs(attrs)
    ensures g == Growing(Output(m), attrs["id" := TableId(t)], t, 1, [], [], k, r)
    ensures Grows(m, g) && Visible(g.attrs) == attrs
  {
    g := Growing(Output(m), attrs["id" := TableId(t)], t, 1, [], [], k, r);
    assert Get(g.attrs, "id") == Some(TableId(t));
  }
}
