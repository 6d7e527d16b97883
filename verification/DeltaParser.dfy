/**
 * From USX to chapter Deltas: a tree walk that appends attributed runs to a growing Delta.
 * The functions say what each step does to the parser's state; the methods of DeltaUsxMapper do it in place.
 */
module DeltaParser {
  import opened Text
  import opened Usx
  import opened RichText

  const PARAGRAPH_POETRY_LIST_STYLES: set<string> := {
    "p", "nb", "m", "po", "pr", "cls", "pmo", "pm", "pmc", "pmr", "pi", "mi", "pc", "ph", "lit",
    "q", "qr", "qc", "qa", "qm", "qd",
    "lh", "li", "lf", "lim",
    "b",
    "id"
  }

  /** A missing or empty style may hold verse text; a trailing level digit is ignored. */
  predicate CanContainVerseText(style: Option<string>) {
    match style
    case None => true
    case Some(s) =>
      s == "" || (if IsDigit(Last(s)) then DropLast(s) else s) in PARAGRAPH_POETRY_LIST_STYLES
  }

  // ----- state

  // What the walk over one paragraph reads and writes: the Delta being built, the current segment
  // reference, the table counter, the chapter's validity, and how many ids have been generated.
  datatype Flow = Flow(ops: seq<Op>, curRef: Option<string>, tableIndex: nat, valid: bool, guids: nat)

  // A nested walk starts from a new parse state.
  function Nested(ops: seq<Op>, guids: nat): Flow {
    Flow(ops, None, 0, true, guids)
  }

  // The generated ids, and the chapter the walk is in.
  datatype Context = Context(newGuid: nat -> string, chapter: Option<string>)

  // ----- attributes of operations

  function SegmentOf(ref: Option<string>): Segment {
    if ref.None? then NoSegment else InSegment(ref.value)
  }

  function CharsOf(chars: seq<Attrs>): Option<seq<Attrs>> {
    if chars == [] then None else Some(chars)
  }

  function InlineAttrs(chars: seq<Attrs>, ref: Option<Attrs>, segment: Segment): OpAttrs {
    NO_ATTRS.(chars := CharsOf(chars), ref := ref, segment := segment)
  }

  function BlankOp(ref: string): Op {
    Op(Embed(Blank, map[], []), NO_ATTRS.(segment := InSegment(ref)))
  }

  function EmptyOp(chars: seq<Attrs>, ref: Option<string>): Op {
    Op(Embed(Empty, map[], []),
       InlineAttrs(chars, None, if ref.None? then NullSegment else InSegment(ref.value)))
  }

  // ----- segments

  /** The last operation leaves the current segment without any content of its own. */
  predicate StartsSegment(op: Op) {
    || (op.insert.Embed? && (op.insert.tag == Verse || op.insert.tag == Chapter))
    || op.attrs.block.Some? || op.attrs.table.Some?
    || (op.insert.Str? && op.insert.text != "" && Last(op.insert.text) == '\n')
  }

  function SegmentEnded(ops: seq<Op>, ref: Option<string>): seq<Op> {
    if ref.Some? && (ops == [] || StartsSegment(Last(ops))) then ops + [BlankOp(ref.value)] else ops
  }

  // The reference a key's counter gives out next.
  function NextId(nextIds: map<string, nat>, key: string): nat {
    if key in nextIds then nextIds[key] else 1
  }

  function ParagraphRef(nextIds: map<string, nat>, key: string, prefix: string): string {
    prefix + "_" + Decimal(NextId(nextIds, key))
  }

  function Counted(nextIds: map<string, nat>, key: string): map<string, nat> {
    nextIds[key := NextId(nextIds, key) + 1]
  }

  function OrEmpty(s: Option<string>): string {
    if s.None? then "" else s.value
  }

  function VerseRef(chapter: Option<string>, verse: Option<string>): string {
    "verse_" + OrEmpty(chapter) + "_" + OrEmpty(verse)
  }

  function TableId(t: nat): string { "table_" + Decimal(t) }
  function RowId(t: nat, r: nat): string { "row_" + Decimal(t) + "_" + Decimal(r) }
  function CellRef(t: nat, r: nat, c: nat): string { "cell_" + Decimal(t) + "_" + Decimal(r) + "_" + Decimal(c) }

  // ----- blocks

  /** The newline that ends a paragraph; a heading that holds a verse is marked invalid. */
  function ParaInserted(fl: Flow, tag: Tag, attrs: Attrs, nodes: seq<Node>): Flow {
    var bad := !CanContainVerseText(Get(attrs, "style")) && HasDescendant(nodes, Verse);
    var newline := Op(Str("\n"), NO_ATTRS.(block := Some(BlockFormat(tag, attrs)), invalidBlock := bad));
    fl.(ops := Inserted(fl.ops, newline), valid := fl.valid && !bad)
  }

  function VerseInserted(cx: Context, fl: Flow, attrs: Attrs): Flow {
    fl.(ops := SegmentEnded(fl.ops, fl.curRef) + [Op(Embed(Verse, attrs, []), NO_ATTRS)],
        curRef := Some(VerseRef(cx.chapter, Get(attrs, "number"))))
  }

  // The attributes of a char element, with a generated id unless it already has one.
  function Identified(cx: Context, attrs: Attrs, guids: nat): Attrs {
    if "cid" in attrs then attrs else attrs["cid" := cx.newGuid(guids)]
  }

  function GuidsAfter(attrs: Attrs, guids: nat): nat {
    if "cid" in attrs then guids else guids + 1
  }

  function CellEnd(tableAttrs: Attrs, rowId: string, cell: Node): Op
    requires cell.XElement?
  {
    Op(Str("\n"), NO_ATTRS.(table := Some(tableAttrs), row := Some(map["id" := rowId]),
                           cell := if cell.tag == Cell then Some(cell.attrs) else None))
  }

  // ----- the walk

  // A table must not already have an id, nor an embedded element an attribute named contents.
  predicate NoReserved(nodes: seq<Node>)
    decreases nodes, 0
  {
    nodes == [] || (NodeNoReserved(nodes[0]) && NoReserved(nodes[1..]))
  }

  predicate NodeNoReserved(n: Node)
    decreases n, 1
  {
    match n
    case XText(_) => true
    case XElement(tag, attrs, nodes) =>
      && (tag == Table ==> "id" !in attrs)
      && (!(tag in {Para, Verse, Ref, Char, Table, Cell}) ==> "contents" !in attrs)
      && NoReserved(nodes)
  }

  function Walked(cx: Context, fl: Flow, nodes: seq<Node>, chars: seq<Attrs>): Flow
    decreases nodes, 0
  {
    if nodes == [] then fl
    else Walked(cx, NodeWalked(cx, fl, nodes[0], chars), nodes[1..], chars)
  }

  function NodeWalked(cx: Context, fl: Flow, n: Node, chars: seq<Attrs>): Flow
    decreases n, 1
  {
    match n
    case XText(value) =>
      fl.(ops := Inserted(fl.ops, Op(Str(value), InlineAttrs(chars, None, SegmentOf(fl.curRef)))))
    case XElement(tag, attrs, nodes) =>
      match tag
      case Para =>
        var inner := Walked(cx.(chapter := None), Nested(fl.ops, fl.guids), nodes, []);
        ParaInserted(fl.(ops := inner.ops, guids := inner.guids), Para, attrs, nodes)
      case Verse =>
        VerseInserted(cx, fl, attrs)
      case Ref =>
        fl.(ops := Inserted(fl.ops,
              Op(Str(InnerText(nodes)), InlineAttrs(chars, Some(attrs), SegmentOf(fl.curRef)))))
      case Char =>
        var inner := chars + [Identified(cx, attrs, fl.guids)];
        var fl1 := fl.(guids := GuidsAfter(attrs, fl.guids));
        if nodes == [] then fl1.(ops := fl1.ops + [EmptyOp(inner, fl1.curRef)])
        else Walked(cx, fl1, nodes, inner)
      case Table =>
        var t := fl.tableIndex + 1;
        var fl1 := RowsWalked(cx, fl.(tableIndex := t), nodes, attrs["id" := TableId(t)], 1);
        fl1.(curRef := None)
      case Cell =>
        Walked(cx, fl, nodes, [])
      case _ =>
        var contents := Walked(cx.(chapter := None), Nested([], fl.guids), nodes, []);
        var op := Op(Embed(tag, attrs, contents.ops), InlineAttrs(chars, None, SegmentOf(fl.curRef)));
        fl.(ops := fl.ops + [op], guids := contents.guids)
  }

  /** The rows of a table from row number r on; children that are not rows are passed over. */
  function RowsWalked(cx: Context, fl: Flow, nodes: seq<Node>, tableAttrs: Attrs, r: nat): Flow
    decreases nodes, 0
  {
    if nodes == [] then fl
    else if IsElement(nodes[0], Row) then
      var fl1 := CellsWalked(cx, fl, nodes[0].nodes, tableAttrs, RowId(fl.tableIndex, r), r, 1);
      RowsWalked(cx, fl1, nodes[1..], tableAttrs, r + 1)
    else RowsWalked(cx, fl, nodes[1..], tableAttrs, r)
  }

  /** The elements of a row from cell number c on; text between them is passed over. */
  function CellsWalked(cx: Context, fl: Flow, nodes: seq<Node>, tableAttrs: Attrs, rowId: string, r: nat, c: nat): Flow
    decreases nodes, 0
  {
    if nodes == [] then fl
    else if nodes[0].XElement? then
      var fl1 := NodeWalked(cx, fl.(curRef := Some(CellRef(fl.tableIndex, r, c))), nodes[0], []);
      var ops := Inserted(SegmentEnded(fl1.ops, fl1.curRef), CellEnd(tableAttrs, rowId, nodes[0]));
      CellsWalked(cx, fl1.(ops := ops), nodes[1..], tableAttrs, rowId, r, c + 1)
    else CellsWalked(cx, fl, nodes[1..], tableAttrs, rowId, r, c)
  }

  // ----- books

  datatype ChapterDelta = ChapterDelta(number: int, isValid: bool, ops: seq<Op>)

  // A child of the usx element, with the schema validator's verdict on it.
  datatype RootNode = RootNode(node: Node, schemaValid: bool)

  // A reference given to a paragraph: its prefix and the number its key's counter had reached.
  datatype Reference = Reference(key: string, prefix: string, number: nat)

  // The state of the loop over a book. refs is a history: the paragraph references given out since
  // the current chapter Delta was started.
  datatype BookState = BookState(
    fl: Flow,
    nextIds: map<string, nat>,
    curChapter: Option<string>,
    bookIsValid: bool,
    implied: bool,
    deltas: seq<ChapterDelta>,
    refs: seq<Reference>)

  function Start(guids: nat): BookState {
    BookState(Nested([], guids), map[], None, true, false, [], [])
  }

  const NEWLINE := Op(Str("\n"), NO_ATTRS)

  /** Ends an implied paragraph: content that stands directly below the usx element. */
  function ImpliedEnded(st: BookState): BookState {
    if st.implied then
      st.(fl := st.fl.(ops := Inserted(SegmentEnded(st.fl.ops, st.fl.curRef), NEWLINE)), implied := false)
    else st
  }

  // The counter key and the prefix of a paragraph's reference; None when there is nothing to build it from.
  function RefParts(curRef: Option<string>, style: Option<string>): Option<(string, string)> {
    if CanContainVerseText(style) && curRef.Some? then
      var slash := IndexOf(curRef.value, '/');
      var base := if slash == -1 then curRef.value else curRef.value[..slash];
      Some((base, base + "/" + OrEmpty(style)))
    else if style.Some? then Some((style.value, style.value))
    else None
  }

  function WithRef(st: BookState, key: string, prefix: string): BookState {
    st.(fl := st.fl.(curRef := Some(ParagraphRef(st.nextIds, key, prefix))),
        nextIds := Counted(st.nextIds, key),
        refs := st.refs + [Reference(key, prefix, NextId(st.nextIds, key))])
  }

  function ParaBody(cx: Context, fl: Flow, n: Node): Flow
    requires n.XElement?
  {
    var fl1 := Walked(cx, fl, n.nodes, []);
    var fl2 := fl1.(ops := SegmentEnded(fl1.ops, fl1.curRef),
                    curRef := if CanContainVerseText(Get(n.attrs, "style")) then fl1.curRef else None);
    ParaInserted(fl2, n.tag, n.attrs, n.nodes)
  }

  function ParaStep(newGuid: nat -> string, st: BookState, n: Node): Option<BookState>
    requires n.XElement?
  {
    var st1 := ImpliedEnded(st);
    match RefParts(st1.fl.curRef, Get(n.attrs, "style"))
    case None => None
    case Some((key, prefix)) =>
      var st2 := WithRef(st1, key, prefix);
      Some(st2.(fl := ParaBody(Context(newGuid, st2.curChapter), st2.fl, n)))
  }

  /** Closes the current chapter Delta; it is dropped when the chapter number is not an integer. */
  function ChapterEnded(st: BookState, chapter: string): BookState {
    var st1 := ImpliedEnded(st);
    match ParseInt(chapter)
    case None => st1
    case Some(number) => st1.(deltas := st1.deltas + [ChapterDelta(number, st1.fl.valid, st1.fl.ops)])
  }

  function ChapterOp(attrs: Attrs): Op {
    Op(Embed(Chapter, attrs, []), NO_ATTRS)
  }

  function ChapterStep(st: BookState, attrs: Attrs): BookState {
    var st1 :=
      if st.curChapter.None? then st
      else
        var ended := ChapterEnded(st, st.curChapter.value);
        ended.(fl := ended.fl.(ops := [], valid := ended.bookIsValid), nextIds := map[], refs := []);
    st1.(fl := st1.fl.(ops := st1.fl.ops + [ChapterOp(attrs)], curRef := None),
         curChapter := Get(attrs, "number"))
  }

  function RootWalked(newGuid: nat -> string, st: BookState, n: Node): BookState {
    st.(fl := NodeWalked(Context(newGuid, st.curChapter), st.fl, n, []))
  }

  function SchemaChecked(st: BookState, schemaValid: bool): BookState {
    st.(fl := st.fl.(valid := st.fl.valid && schemaValid))
  }

  /** One child of the usx element; None when the code fails on a missing paragraph style. */
  function RootStep(newGuid: nat -> string, st: BookState, root: RootNode): Option<BookState> {
    match root.node {
      case XText(_) =>
        Some(RootWalked(newGuid, st, root.node).(implied := true))
      case XElement(tag, attrs, _) =>
        var stepped := match tag {
          case Book => ParaStep(newGuid, st.(bookIsValid := root.schemaValid), root.node)
          case Para => ParaStep(newGuid, st, root.node)
          case Chapter => Some(ChapterStep(st, attrs))
          case Verse => Some(RootWalked(newGuid, st, root.node).(implied := true))
          case Note => Some(RootWalked(newGuid, st, root.node).(implied := true))
          case _ => Some(RootWalked(newGuid, st, root.node))
        };
        if stepped.None? then None else Some(SchemaChecked(stepped.value, root.schemaValid))
    }
  }

  function BookWalked(newGuid: nat -> string, st: BookState, roots: seq<RootNode>): Option<BookState>
    decreases roots
  {
    if roots == [] then Some(st)
    else match RootStep(newGuid, st, roots[0])
      case None => None
      case Some(st1) => BookWalked(newGuid, st1, roots[1..])
  }

  /** The chapter Deltas of a book; a book without chapters yields one, numbered 1. */
  function ChapterDeltas(newGuid: nat -> string, guids: nat, roots: seq<RootNode>): Option<seq<ChapterDelta>> {
    match BookWalked(newGuid, Start(guids), roots)
    case None => None
    case Some(st) =>
      Some(ChapterEnded(st, if st.curChapter.None? then "1" else st.curChapter.value).deltas)
  }
}
