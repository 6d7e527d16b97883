/**
 * From a Delta back to USX: a machine with a stack of node lists that rebuilds nested character
 * formatting, paragraphs and tables from flat attributed runs.
 */
module DeltaBuilder {
  import opened Text
  import opened Usx
  import opened RichText

  // content is the finished output; stack holds the open node lists, innermost last; cur is the
  // character formatting of the innermost lists, outermost first; table and row are set inside a table.
  datatype Machine = Machine(
    content: seq<Node>,
    cur: seq<Attrs>,
    stack: seq<seq<Node>>,
    table: Option<Attrs>,
    row: Option<Attrs>)

  const INITIAL := Machine([], [], [[]], None, None)

  // Attributes that are written to XML elements.
  function Visible(a: Attrs): Attrs {
    a - {"id", "invalid"}
  }

  function CharElement(a: Attrs, nodes: seq<Node>): Node {
    XElement(Char, Visible(a - {"cid"}), nodes)
  }

  function TopAdded(m: Machine, nodes: seq<Node>): Machine
    requires m.stack != []
  {
    m.(stack := DropLast(m.stack) + [Last(m.stack) + nodes])
  }

  function TopCleared(m: Machine): Machine
    requires m.stack != []
  {
    m.(stack := DropLast(m.stack) + [[]])
  }

  // ----- character formatting

  /** Wraps the innermost list in a char element and adds it to the list around it. */
  function CharEnded(m: Machine): Machine
    requires m.cur != [] && |m.stack| >= 2
  {
    var element := CharElement(Last(m.cur), Last(m.stack));
    TopAdded(m.(cur := DropLast(m.cur), stack := DropLast(m.stack)), [element])
  }

  /** Ends formatting until what is left is a prefix of the new one; None when the stack runs out. */
  function Closed(m: Machine, chars: seq<Attrs>): (r: Option<Machine>)
    requires m.stack != []
    ensures r.Some? ==> r.value.stack != [] && r.value.cur <= chars
    decreases |m.cur|
  {
    if m.cur <= chars then Some(m)
    else if |m.stack| < 2 then None
    else Closed(CharEnded(m), chars)
  }

  function EmptyLists(n: nat): seq<seq<Node>> {
    seq(n, _ => [])
  }

  function Opened(m: Machine, chars: seq<Attrs>): Machine
    requires m.cur <= chars
  {
    m.(cur := chars, stack := m.stack + EmptyLists(|chars| - |m.cur|))
  }

  function Synced(m: Machine, chars: seq<Attrs>): (r: Option<Machine>)
    requires m.stack != []
    ensures r.Some? ==> r.value.stack != [] && r.value.cur == chars
  {
    var closed := Closed(m, chars);
    if closed.None? then None else Some(Opened(closed.value, chars))
  }

  // ----- tables

  function RowElement(cells: seq<Node>): Node {
    XElement(Row, Visible(map["style" := "tr"]), cells)
  }

  /** Moves the open row into the table; also gives the list that was started after it, if any. */
  function RowEnded(m: Machine): (r: Option<(Machine, Option<seq<Node>>)>)
    ensures r.Some? ==> |r.value.0.stack| == 1
  {
    if !(2 <= |m.stack| <= 3) then None
    else
      var row := RowElement(m.stack[1]);
      Some((m.(stack := [m.stack[0] + [row]], row := None),
            if |m.stack| == 3 then Some(m.stack[2]) else None))
  }

  function TableEnded(m: Machine): Machine
    requires m.table.Some? && m.stack != []
  {
    TopCleared(m).(content := m.content + [XElement(Table, Visible(m.table.value), Last(m.stack))], table := None)
  }

  /** A plain newline after a table ends the table; what followed the last cell starts the next block. */
  function TableClosed(m: Machine): (r: Option<Machine>)
    requires m.table.Some?
    ensures r.Some? ==> r.value.stack != []
  {
    match RowEnded(m)
    case None => None
    case Some((m1, next)) => if next.None? then None else Some(TopAdded(TableEnded(m1), next.value))
  }

  /** What a cell becomes: a cell element around the innermost list, or that list's only element. */
  function CellNode(cell: Option<Attrs>, top: seq<Node>): Option<Node> {
    if cell.Some? then Some(XElement(Cell, Visible(cell.value), top))
    else if |top| == 1 && top[0].XElement? then Some(top[0])
    else None
  }

  /** Ends the open row when the new cell has another row id. */
  function RowSwitched(m: Machine, row: Option<Attrs>): (r: Option<Machine>) {
    if m.row.None? || row.None? then None
    else if Get(m.row.value, "id") == Get(row.value, "id") then Some(m)
    else
      var ended := RowEnded(m);
      if ended.None? then None else Some(ended.value.0)
  }

  /** Ends the open row and table when the new cell belongs to others. */
  function TableSwitched(m: Machine, table: Attrs, row: Option<Attrs>): Option<Machine> {
    if m.table.None? then Some(m)
    else
      var m1 := RowSwitched(m, row);
      if m1.None? then None
      else if Get(m1.value.table.value, "id") == Get(table, "id") then m1
      else if m1.value.stack == [] then None
      else Some(TableEnded(m1.value))
  }

  function AtLeastTwo(stack: seq<seq<Node>>): (r: seq<seq<Node>>)
    ensures |r| >= 2
  {
    if |stack| >= 2 then stack else stack + EmptyLists(2 - |stack|)
  }

  /** Puts a cell into its row, the second list, and starts a list for the next one. */
  function CellAdded(m: Machine, cell: Node, table: Attrs, row: Option<Attrs>): (r: Machine)
    ensures r.stack != []
  {
    var m1 := TopAdded(m.(stack := AtLeastTwo(m.stack)), [cell]);
    m1.(stack := m1.stack + [[]], table := Some(table), row := row)
  }

  /** The newline that ends a table cell. */
  function CellEnded(m: Machine, table: Attrs, row: Option<Attrs>, cell: Option<Attrs>): (r: Option<Machine>)
    requires m.stack != []
    ensures r.Some? ==> r.value.stack != []
  {
    var element := CellNode(cell, Last(m.stack));
    var switched := TableSwitched(m.(stack := DropLast(m.stack)), table, row);
    if element.None? || switched.None? then None else Some(CellAdded(switched.value, element.value, table, row))
  }

  // ----- text

  function WithoutNewlines(s: string): string {
    if s == [] then [] else (if s[0] == '\n' then [] else [s[0]]) + WithoutNewlines(s[1..])
  }

  function BlockEnded(m: Machine): Machine
    requires m.stack != []
  {
    TopCleared(m).(content := m.content + Last(m.stack))
  }

  /** Text without any attributes: a trailing newline ends an implied paragraph. */
  function PlainTextAdded(m: Machine, text: string): Machine
    requires m.stack != []
  {
    if |text| > 1 && Last(text) == '\n' then BlockEnded(TopAdded(m, [XText(WithoutNewlines(text))]))
    else if text == "\n" then BlockEnded(m)
    else TopAdded(m, [XText(text)])
  }

  function Repeated(n: nat, node: Node): seq<Node> {
    seq(n, _ => node)
  }

  function BlockAdded(m: Machine, block: Option<BlockFormat>, count: nat): Machine
    requires m.stack != []
  {
    if block.Some? && (block.value.tag == Para || block.value.tag == Book) then
      var element := XElement(block.value.tag, Visible(block.value.attrs), Last(m.stack));
      TopCleared(m).(content := m.content + Repeated(count, element))
    else m
  }

  /** Text with attributes: the end of a block, a ref, formatted text, or the text of a segment. */
  function AttributedTextAdded(m: Machine, text: string, a: OpAttrs): Machine
    requires m.stack != []
  {
    var m1 := BlockAdded(m, a.block, |text|);
    if a.ref.Some? then TopAdded(m1, [XElement(Ref, Visible(a.ref.value), [XText(text)])])
    else if a.chars.Some? then TopAdded(m1, [XText(text)])
    else if a == NO_ATTRS.(segment := a.segment) && a.segment != NoSegment then TopAdded(m1, [XText(text)])
    else m1
  }

  /** A plain newline ends an open table, and a newline with table attributes a cell. */
  function CellsEnded(m: Machine, text: string, a: OpAttrs): (r: Option<Machine>)
    requires m.stack != []
    ensures r.Some? ==> r.value.stack != []
  {
    if m.table.Some? && a.table.None? && text == "\n" then TableClosed(m)
    else if a.table.Some? then CellEnded(m, a.table.value, a.row, a.cell)
    else Some(m)
  }

  function TextAdded(m: Machine, text: string, a: OpAttrs): (r: Machine)
    requires m.stack != []
    ensures r.stack != []
  {
    if a == NO_ATTRS then PlainTextAdded(m, text) else AttributedTextAdded(m, text, a)
  }

  function TextStep(m: Machine, text: string, a: OpAttrs): (r: Option<Machine>)
    requires m.stack != []
    ensures r.Some? ==> r.value.stack != []
  {
    var m1 := CellsEnded(m, text, a);
    if m1.None? then None else Some(TextAdded(m1.value, text, a))
  }

  // ----- embeds, and the machine

  /** Ends an open table, dropping whatever followed its last cell. */
  function TableDropped(m: Machine): (r: Option<Machine>)
    requires m.stack != []
    ensures r.Some? ==> r.value.stack != []
  {
    if m.table.None? then Some(m)
    else
      var ended := RowEnded(m);
      if ended.None? then None else Some(TableEnded(ended.value.0))
  }

  function EmbedStep(m: Machine, tag: Tag, attrs: Attrs, contents: seq<Op>): (r: Option<Machine>)
    requires m.stack != []
    ensures r.Some? ==> r.value.stack != []
    decreases contents, 2
  {
    match tag
    case Chapter =>
      var m1 := TableDropped(m);
      if m1.None? then None
      else Some(m1.value.(content := m1.value.content + [XElement(Chapter, Visible(attrs), [])]))
    case Blank => Some(m)
    case Empty => Some(m)
    case _ =>
      var nodes := Rebuilt(contents);
      if nodes.None? then None else Some(TopAdded(m, [XElement(tag, Visible(attrs), nodes.value)]))
  }

  function Step(m: Machine, op: Op): (r: Option<Machine>)
    requires m.stack != []
    ensures r.Some? ==> r.value.stack != []
    decreases op
  {
    var m1 := Synced(m, if op.attrs.chars.Some? then op.attrs.chars.value else []);
    if m1.None? then None
    else match op.insert
      case Str(text) => TextStep(m1.value, text, op.attrs)
      case Embed(tag, attrs, contents) => EmbedStep(m1.value, tag, attrs, contents)
  }

  function Run(m: Machine, ops: seq<Op>): (r: Option<Machine>)
    requires m.stack != []
    ensures r.Some? ==> r.value.stack != []
    decreases ops, 0
  {
    if ops == [] then Some(m)
    else
      var m1 := Run(m, ops[..|ops| - 1]);
      if m1.None? then None else Step(m1.value, ops[|ops| - 1])
  }

  function Finished(m: Machine): Option<seq<Node>>
    requires m.stack != []
  {
    var m1 := Closed(m, []);
    if m1.None? then None
    else
      var m2 := TableDropped(m1.value);
      if m2.None? then None else Some(m2.value.content + Last(m2.value.stack))
  }

  /** The USX nodes of a Delta; None where the code throws. */
  function Rebuilt(ops: seq<Op>): Option<seq<Node>>
    decreases ops, 1
  {
    var m := Run(INITIAL, ops);
    if m.None? then None else Finished(m.value)
  }
}
