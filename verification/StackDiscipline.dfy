/** The stack of the rebuilding machine: how high it is after every operation, and when an operation fails. */
module StackDiscipline {
  import opened Text
  import opened Usx
  import opened RichText
  import opened DeltaBuilder
  import opened InlineRoundTrip

  predicate EndsBlock(op: Op) {
    op.insert == Str("\n") || op.attrs.table.Some? || (op.insert.Embed? && op.insert.tag == Chapter)
  }

  // Plain newlines, cell ends and chapter marks are not formatted, and a cell end names its row.
  predicate Disciplined(op: Op) {
    && (EndsBlock(op) ==> CharsIn(op.attrs) == [])
    && (op.insert.Str? && op.attrs.table.Some? ==> op.attrs.row.Some?)
  }

  predicate AllDisciplined(ops: seq<Op>) {
    forall i :: 0 <= i < |ops| ==> Disciplined(ops[i])
  }

  /** One list below the open formatting; inside a table, those of its rows, its cells and the next block. */
  predicate Balanced(m: Machine) {
    && |m.stack| == (if m.table.Some? then 3 else 1) + |m.cur|
    && (m.table.Some? ==> m.row.Some?)
  }

  /** Whether the operation's own content is fit for its place: one element for a bare cell, a readable embed. */
  predicate Fits(m: Machine, op: Op)
    requires Shape(m)
  {
    match op.insert
    case Str(_) => op.attrs.table.Some? ==> CellNode(op.attrs.cell, Last(Settled(m, CharsIn(op.attrs)).stack)).Some?
    case Embed(tag, _, contents) => tag == Chapter || tag == Blank || tag == Empty || Rebuilt(contents).Some?
  }

  // With the cell's own list taken off, a table always has a row to end; nothing is left outside one.
  lemma SwitchedHeight(m: Machine, table: Attrs, row: Attrs)
    requires |m.stack| == (if m.table.Some? then 2 else 0) && (m.table.Some? ==> m.row.Some?)
    ensures var r := TableSwitched(m, table, Some(row));
            r.Some? && |r.value.stack| <= 2 && r.value.cur == m.cur
  {
    if m.table.Some? {
      var m1 := RowSwitched(m, Some(row)).value;
      assert 1 <= |m1.stack| <= 2 && m1.cur == m.cur && m1.table == m.table;
    }
  }

  lemma CellBalanced(m: Machine, table: Attrs, row: Attrs, cell: Option<Attrs>)
    requires Balanced(m) && m.cur == []
    ensures var r := CellEnded(m, table, Some(row), cell);
            && (r.Some? <==> CellNode(cell, Last(m.stack)).Some?)
            && (r.Some? ==> Balanced(r.value) && r.value.cur == [] && r.value.table.Some?)
  {
    var popped := m.(stack := DropLast(m.stack));
    SwitchedHeight(popped, table, row);
    var switched := TableSwitched(popped, table, Some(row)).value;
    assert |AtLeastTwo(switched.stack)| == 2;
  }

  lemma CellsEndedBalanced(m: Machine, text: string, a: OpAttrs)
    requires Balanced(m) && (text == "\n" || a.table.Some? ==> m.cur == []) && (a.table.Some? ==> a.row.Some?)
    ensures var r := CellsEnded(m, text, a);
            && (r.Some? <==> (a.table.Some? ==> CellNode(a.cell, Last(m.stack)).Some?))
            && (r.Some? ==> Balanced(r.value) && r.value.cur == m.cur)
  {
    if a.table.Some? {
      CellBalanced(m, a.table.value, a.row.value, a.cell);
    }
  }

  lemma TextBalanced(m: Machine, text: string, a: OpAttrs)
    requires Balanced(m) && (text == "\n" || a.table.Some? ==> m.cur == []) && (a.table.Some? ==> a.row.Some?)
    ensures var r := TextStep(m, text, a);
            && (r.Some? <==> (a.table.Some? ==> CellNode(a.cell, Last(m.stack)).Some?))
            && (r.Some? ==> Balanced(r.value) && r.value.cur == m.cur)
  {
    CellsEndedBalanced(m, text, a);
    var ended := CellsEnded(m, text, a);
    if ended.Some? {
      AddedBalanced(ended.value, text, a);
    }
  }

  // Adding text changes lists, but not how many there are.
  lemma AddedBalanced(m: Machine, text: string, a: OpAttrs)
    requires Balanced(m)
    ensures Balanced(TextAdded(m, text, a)) && TextAdded(m, text, a).cur == m.cur
  {
    if a == NO_ATTRS {
      PlainBalanced(m, text);
    } else {
      AttributedBalanced(m, text, a);
    }
  }

  lemma TopBalanced(m: Machine, nodes: seq<Node>)
    requires Balanced(m)
    ensures Balanced(TopAdded(m, nodes)) && TopAdded(m, nodes).cur == m.cur
  {
  }

  lemma AttributedBalanced(m: Machine, text: string, a: OpAttrs)
    requires Balanced(m)
    ensures Balanced(AttributedTextAdded(m, text, a)) && AttributedTextAdded(m, text, a).cur == m.cur
  {
    BlockBalanced(m, a.block, |text|);
    var m1 := BlockAdded(m, a.block, |text|);
    if a.ref.Some? {
      TopBalanced(m1, [XElement(Ref, Visible(a.ref.value), [XText(text)])]);
    } else {
      TopBalanced(m1, [XText(text)]);
    }
  }

  lemma PlainBalanced(m: Machine, text: string)
    requires Balanced(m)
    ensures Balanced(PlainTextAdded(m, text)) && PlainTextAdded(m, text).cur == m.cur
  {
  }

  lemma BlockBalanced(m: Machine, block: Option<BlockFormat>, count: nat)
    requires Balanced(m)
    ensures Balanced(BlockAdded(m, block, count)) && BlockAdded(m, block, count).cur == m.cur
  {
  }

  lemma EmbedBalanced(m: Machine, tag: Tag, attrs: Attrs, contents: seq<Op>)
    requires Balanced(m) && (tag == Chapter ==> m.cur == [])
    ensures var r := EmbedStep(m, tag, attrs, contents);
            && (r.Some? <==> tag == Chapter || tag == Blank || tag == Empty || Rebuilt(contents).Some?)
            && (r.Some? ==> Balanced(r.value))
  {
    if tag != Chapter && tag != Blank && tag != Empty && Rebuilt(contents).Some? {
      TopBalanced(m, [XElement(tag, Visible(attrs), Rebuilt(contents).value)]);
    }
  }

  /**
   * A disciplined operation keeps the stack balanced and fails only for its own content: no list is ever
   * missing, and a row can always be ended where one has to be.
   */
  lemma StepBalanced(m: Machine, op: Op)
    requires Balanced(m) && Disciplined(op)
    ensures Shape(m) && (Step(m, op).Some? <==> Fits(m, op))
    ensures Step(m, op).Some? ==> Balanced(Step(m, op).value)
  {
    var s := Settled(m, CharsIn(op.attrs));
    match op.insert
    case Str(text) =>
      TextBalanced(s, text, op.attrs);
    case Embed(tag, attrs, contents) =>
      EmbedBalanced(s, tag, attrs, contents);
  }

  /** The height of the stack after every prefix of a disciplined Delta. */
  lemma {:induction false} RunBalanced(ops: seq<Op>)
    requires AllDisciplined(ops)
    ensures Run(INITIAL, ops).Some? ==> Balanced(Run(INITIAL, ops).value)
  {
    if ops != [] {
      var before := ops[..|ops| - 1];
      RunBalanced(before);
      if Run(INITIAL, before).Some? {
        StepBalanced(Run(INITIAL, before).value, ops[|ops| - 1]);
      }
    }
  }

  // Every cell end has the attributes of its cell, and embeds hold Deltas of the same kind.
  predicate WellMade(op: Op)
    decreases op
  {
    && Disciplined(op)
    && (op.insert.Str? && op.attrs.table.Some? ==> op.attrs.cell.Some?)
    && (op.insert.Embed? ==> AllWellMade(op.insert.contents))
  }

  predicate AllWellMade(ops: seq<Op>)
    decreases ops
  {
    ops == [] || (AllWellMade(ops[..|ops| - 1]) && WellMade(ops[|ops| - 1]))
  }

  /** A well-made Delta always rebuilds, with the stack balanced throughout. */
  lemma {:induction false} WellMadeRebuilds(ops: seq<Op>)
    requires AllWellMade(ops)
    ensures Run(INITIAL, ops).Some? && Balanced(Run(INITIAL, ops).value)
    ensures Rebuilt(ops).Some?
    decreases ops
  {
    if ops != [] {
      WellMadeRebuilds(ops[..|ops| - 1]);
      WellMadeStep(Run(INITIAL, ops[..|ops| - 1]).value, ops[|ops| - 1]);
    }
    ClosedShape(Run(INITIAL, ops).value, []);
  }

  lemma {:induction false} WellMadeStep(m: Machine, op: Op)
    requires Balanced(m) && WellMade(op)
    ensures Step(m, op).Some? && Balanced(Step(m, op).value)
    decreases op
  {
    if op.insert.Embed? {
      WellMadeRebuilds(op.insert.contents);
    }
    StepBalanced(m, op);
  }

  /** Where the discipline is not kept: a formatted newline fails exactly when a table is open. */
  lemma FormattedNewlineIff(m: Machine, attrs: OpAttrs)
    requires Balanced(m) && CharsIn(attrs) != [] && attrs.table.None?
    ensures Step(m, Op(Str("\n"), attrs)).Some? <==> m.table.None?
  {
    var settled := Settled(m, CharsIn(attrs));
    assert m.table.Some? ==> |settled.stack| == 3 + |CharsIn(attrs)|;
  }

  /** A formatted newline right after a table: the cell end rebuilds, both together do not. */
  lemma FormattedNewlineFails(table: Attrs, row: Attrs, cell: Attrs, format: Attrs)
    ensures var end := Op(Str("\n"), NO_ATTRS.(table := Some(table), row := Some(row), cell := Some(cell)));
            var newline := Op(Str("\n"), NO_ATTRS.(chars := Some([format])));
            Rebuilt([end, newline]) == None && Rebuilt([end]).Some?
  {
    var end := Op(Str("\n"), NO_ATTRS.(table := Some(table), row := Some(row), cell := Some(cell)));
    var newline := Op(Str("\n"), NO_ATTRS.(chars := Some([format])));
    assert [end][..0] == [] && [end, newline][..1] == [end];
    assert WellMade(end) && AllWellMade([]);
    assert AllWellMade([end]);
    WellMadeRebuilds([end]);
    var m := Run(INITIAL, [end]).value;
    StepBalanced(INITIAL, end);
    FormattedNewlineIff(m, newline.attrs);
    assert Run(INITIAL, [end, newline]) == Step(m, newline);
  }
}
