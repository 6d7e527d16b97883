/** ProcessDelta: the stack machine of DeltaBuilder run in place, one operation at a time. */
module DeltaRebuilder {
  import opened Text
  import opened Usx
  import opened RichText
  import DB = DeltaBuilder

  method CharAttributesMatch(curCharAttrs: seq<Attrs>, charAttrs: seq<Attrs>) returns (b: bool)
    ensures b <==> curCharAttrs <= charAttrs
  {
    if |curCharAttrs| > |charAttrs| {
      return false;
    }
    for i := 0 to |curCharAttrs|
      invariant curCharAttrs[..i] <= charAttrs
    {
      if curCharAttrs[i] != charAttrs[i] {
        return false;
      }
    }
    return true;
  }

  class Rebuilder {
    var content: seq<Node>
    var curCharAttrs: seq<Attrs>
    var childNodes: seq<seq<Node>>   // the stack; its top is last
    var curTableAttrs: Option<Attrs>
    var curRowAttrs: Option<Attrs>

    constructor ()
      ensures State() == DB.INITIAL
    {
      content, curCharAttrs, childNodes, curTableAttrs, curRowAttrs := [], [], [[]], None, None;
    }

    ghost function State(): DB.Machine
      reads this
    {
      DB.Machine(content, curCharAttrs, childNodes, curTableAttrs, curRowAttrs)
    }

    function Top(): seq<Node>
      requires childNodes != []
      reads this
    {
      childNodes[|childNodes| - 1]
    }

    method AddToTop(nodes: seq<Node>)
      requires childNodes != []
      modifies this`childNodes
      ensures State() == DB.TopAdded(old(State()), nodes)
    {
      childNodes := childNodes[|childNodes| - 1 := Top() + nodes];
    }

    method ClearTop()
      requires childNodes != []
      modifies this`childNodes
      ensures State() == DB.TopCleared(old(State()))
    {
      childNodes := childNodes[|childNodes| - 1 := []];
    }

    method Pop()
      requires childNodes != []
      modifies this`childNodes
      ensures childNodes == DropLast(old(childNodes))
    {
      childNodes := childNodes[..|childNodes| - 1];
    }

    /** Fails where the code looks at the top of an empty stack. */
    method CharEnded() returns (ok: bool)
      requires curCharAttrs != [] && childNodes != []
      modifies this
      ensures ok <==> |old(childNodes)| >= 2
      ensures ok ==> State() == DB.CharEnded(old(State()))
    {
      var charAttrs := curCharAttrs[|curCharAttrs| - 1];
      curCharAttrs := curCharAttrs[..|curCharAttrs| - 1];
      if "cid" in charAttrs {
        charAttrs := charAttrs - {"cid"};
      }
      var charElem := XElement(Char, DB.Visible(charAttrs), Top());
      assert charElem == DB.CharElement(old(Last(curCharAttrs)), old(Last(childNodes))) by {
        assert "cid" !in old(Last(curCharAttrs)) ==> old(Last(curCharAttrs)) - {"cid"} == old(Last(curCharAttrs));
      }
      Pop();
      ok := |childNodes| > 0;
      if ok {
        AddToTop([charElem]);
      }
    }

    /** Ends formatting until the next operation's formatting continues what is left. */
    method CloseFormatting(charAttrs: seq<Attrs>) returns (ok: bool)
      requires childNodes != []
      modifies this
      ensures var r := DB.Closed(old(State()), charAttrs); ok == r.Some? && (ok ==> State() == r.value)
    {
      ghost var m := State();
      var matches := CharAttributesMatch(curCharAttrs, charAttrs);
      while |curCharAttrs| > 0 && !matches
        invariant childNodes != [] && (matches <==> curCharAttrs <= charAttrs)
        invariant DB.Closed(State(), charAttrs) == DB.Closed(m, charAttrs)
        decreases |curCharAttrs|
      {
        ok := CharEnded();
        if !ok {
          return;
        }
        matches := CharAttributesMatch(curCharAttrs, charAttrs);
      }
      ok := true;
    }

    /** Starts a list for each new level of formatting. */
    method OpenFormatting(charAttrs: seq<Attrs>)
      requires curCharAttrs <= charAttrs
      modifies this
      ensures State() == DB.Opened(old(State()), charAttrs)
    {
      var i := |curCharAttrs|;
      while i < |charAttrs|
        invariant |old(curCharAttrs)| <= i <= |charAttrs|
        invariant childNodes == old(childNodes) + DB.EmptyLists(i - |old(curCharAttrs)|)
        invariant curCharAttrs == old(curCharAttrs) && content == old(content)
        invariant curTableAttrs == old(curTableAttrs) && curRowAttrs == old(curRowAttrs)
      {
        OneMoreList(old(childNodes), i - |old(curCharAttrs)|);
        childNodes := childNodes + [[]];
        i := i + 1;
      }
      curCharAttrs := charAttrs;
    }

    /** Brings the open formatting to that of the next operation. */
    method SyncFormatting(charAttrs: seq<Attrs>) returns (ok: bool)
      requires childNodes != []
      modifies this
      ensures var r := DB.Synced(old(State()), charAttrs); ok == r.Some? && (ok ==> State() == r.value)
    {
      ok := CloseFormatting(charAttrs);
      if ok {
        OpenFormatting(charAttrs);
      }
    }

    method RowEnded() returns (ok: bool, nextBlockNodes: Option<seq<Node>>)
      modifies this
      ensures var r := DB.RowEnded(old(State()));
              ok == r.Some? && (ok ==> State() == r.value.0 && nextBlockNodes == r.value.1)
    {
      nextBlockNodes := None;
      if |childNodes| > 3 || |childNodes| < 2 {
        return false, None;
      }
      if |childNodes| == 3 {
        nextBlockNodes := Some(Top());
        Pop();
      }
      var rowElem := XElement(Row, DB.Visible(map["style" := "tr"]), Top());
      Pop();
      AddToTop([rowElem]);
      curRowAttrs := None;
      ok := true;
    }

    method TableEnded()
      requires curTableAttrs.Some? && childNodes != []
      modifies this
      ensures State() == DB.TableEnded(old(State()))
    {
      content := content + [XElement(Table, DB.Visible(curTableAttrs.value), Top())];
      ClearTop();
      curTableAttrs := None;
    }

    /** The newline that ends a cell; fails where the code throws. */
    method CellEnded(table: Attrs, row: Option<Attrs>, cell: Option<Attrs>) returns (ok: bool)
      requires childNodes != []
      modifies this
      ensures var r := DB.CellEnded(old(State()), table, row, cell); ok == r.Some? && (ok ==> State() == r.value)
    {
      ghost var m := State();
      var cellElem;
      if cell.Some? {
        cellElem := XElement(Cell, DB.Visible(cell.value), Top());
      } else if |Top()| == 1 && Top()[0].XElement? {
        cellElem := Top()[0];
      } else {
        return false;
      }
      Pop();
      ok := SwitchTable(table, row);
      if ok {
        AddCell(cellElem, table, row);
      }
    }

    method AddCell(cellElem: Node, table: Attrs, row: Option<Attrs>)
      modifies this
      ensures State() == DB.CellAdded(old(State()), cellElem, table, row)
    {
      PadStack();
      AddToTop([cellElem]);
      childNodes := childNodes + [[]];
      curTableAttrs := Some(table);
      curRowAttrs := row;
    }

    /** Ends the open row and table if the cell belongs to others. */
    method SwitchTable(table: Attrs, row: Option<Attrs>) returns (ok: bool)
      modifies this
      ensures var r := DB.TableSwitched(old(State()), table, row); ok == r.Some? && (ok ==> State() == r.value)
    {
      ok := true;
      if curTableAttrs.Some? {
        if row.None? || curRowAttrs.None? {
          return false;
        }
        if Get(row.value, "id") != Get(curRowAttrs.value, "id") {
          var nextBlockNodes;
          ok, nextBlockNodes := RowEnded();
          if !ok {
            return;
          }
        }
        if Get(table, "id") != Get(curTableAttrs.value, "id") {
          if |childNodes| == 0 {
            return false;
          }
          TableEnded();
        }
      }
    }

    method PadStack()
      modifies this`childNodes
      ensures childNodes == DB.AtLeastTwo(old(childNodes))
    {
      while |childNodes| < 2
        invariant DB.AtLeastTwo(childNodes) == DB.AtLeastTwo(old(childNodes))
      {
        PaddedOnce(childNodes);
        childNodes := childNodes + [[]];
      }
    }

    /** A plain newline after a table. */
    method TableClosed() returns (ok: bool)
      requires curTableAttrs.Some?
      modifies this
      ensures var r := DB.TableClosed(old(State())); ok == r.Some? && (ok ==> State() == r.value)
    {
      var nextBlockNodes;
      ok, nextBlockNodes := RowEnded();
      if ok {
        TableEnded();
        ok := nextBlockNodes.Some?;
        if ok {
          AddToTop(nextBlockNodes.value);
        }
      }
    }

    method TableDropped() returns (ok: bool)
      requires childNodes != []
      modifies this
      ensures var r := DB.TableDropped(old(State())); ok == r.Some? && (ok ==> State() == r.value)
    {
      ok := true;
      if curTableAttrs.Some? {
        var nextBlockNodes;
        ok, nextBlockNodes := RowEnded();
        if ok {
          TableEnded();
        }
      }
    }

    method PlainTextAdded(text: string)
      requires childNodes != []
      modifies this
      ensures State() == DB.PlainTextAdded(old(State()), text)
    {
      var line := text;
      if |text| > 1 && text[|text| - 1] == '\n' {
        AddToTop([XText(DB.WithoutNewlines(text))]);
        line := "\n";
      }
      if line == "\n" {
        content := content + Top();
        ClearTop();
      } else {
        AddToTop([XText(line)]);
      }
    }

    method AttributedTextAdded(text: string, a: OpAttrs)
      requires childNodes != []
      modifies this
      ensures State() == DB.AttributedTextAdded(old(State()), text, a)
    {
      if a.block.Some? && (a.block.value.tag == Para || a.block.value.tag == Book) {
        ghost var m := State();
        ghost var element := XElement(a.block.value.tag, DB.Visible(a.block.value.attrs), Last(m.stack));
        for j := 0 to |text|
          invariant State() == m.(content := m.content + DB.Repeated(j, element))
        {
          assert DB.Repeated(j, element) + [element] == DB.Repeated(j + 1, element);
          content := content + [XElement(a.block.value.tag, DB.Visible(a.block.value.attrs), Top())];
        }
        ClearTop();
      }
      if a.ref.Some? {
        AddToTop([XElement(Ref, DB.Visible(a.ref.value), [XText(text)])]);
      } else if a.chars.Some? {
        AddToTop([XText(text)]);
      } else if a == NO_ATTRS.(segment := a.segment) && a.segment != NoSegment {
        AddToTop([XText(text)]);
      }
    }

    method InsertText(text: string, a: OpAttrs) returns (ok: bool)
      requires childNodes != []
      modifies this
      ensures var r := DB.TextStep(old(State()), text, a); ok == r.Some? && (ok ==> State() == r.value)
    {
      ok := true;
      if curTableAttrs.Some? && a.table.None? && text == "\n" {
        ok := TableClosed();
      } else if a.table.Some? {
        ok := CellEnded(a.table.value, a.row, a.cell);
      }
      if ok {
        if a == NO_ATTRS {
          PlainTextAdded(text);
        } else {
          AttributedTextAdded(text, a);
        }
      }
    }
  }

  lemma OneMoreList(stack: seq<seq<Node>>, k: nat)
    ensures stack + DB.EmptyLists(k) + [[]] == stack + DB.EmptyLists(k + 1)
  {
    assert DB.EmptyLists(k) + [[]] == DB.EmptyLists(k + 1);
  }

  lemma PaddedOnce(stack: seq<seq<Node>>)
    requires |stack| < 2
    ensures DB.AtLeastTwo(stack + [[]]) == DB.AtLeastTwo(stack)
  {
  }

  /** Makes USX from a Delta's operations; None where the code throws. */
  method ProcessDelta(ops: seq<Op>) returns (r: Option<seq<Node>>)
    ensures r == DB.Rebuilt(ops)
    decreases ops
  {
    var b := new Rebuilder();
    var i := 0;
    while i < |ops|
      invariant 0 <= i <= |ops| && fresh(b) && b.childNodes != []
      invariant DB.Run(DB.INITIAL, ops[..i]) == Some(b.State())
    {
      var op := ops[i];
      PrefixRun(ops, i);
      var ok := ReadOp(b, op);
      if !ok {
        RunFails(ops, i + 1);
        return None;
      }
      i := i + 1;
    }
    assert ops[..i] == ops;
    r := Finish(b);
  }

  /** Ends what is still open after the last operation. */
  method Finish(b: Rebuilder) returns (r: Option<seq<Node>>)
    requires b.childNodes != []
    modifies b
    ensures r == DB.Finished(old(b.State()))
  {
    var ok := b.CloseFormatting([]);
    if ok {
      ok := b.TableDropped();
    }
    return if ok then Some(b.content + b.Top()) else None;
  }

  method ReadOp(b: Rebuilder, op: Op) returns (ok: bool)
    requires b.childNodes != []
    modifies b
    ensures var r := DB.Step(old(b.State()), op); ok == r.Some? && (ok ==> b.State() == r.value)
    decreases op
  {
    ok := b.SyncFormatting(if op.attrs.chars.Some? then op.attrs.chars.value else []);
    if !ok {
      return;
    }
    match op.insert
    case Str(text) =>
      ok := b.InsertText(text, op.attrs);
    case Embed(tag, attrs, contents) =>
      if tag == Chapter {
        ok := b.TableDropped();
        if ok {
          b.content := b.content + [XElement(Chapter, DB.Visible(attrs), [])];
        }
      } else if tag != Blank && tag != Empty {
        var nodes := ProcessDelta(contents);
        ok := nodes.Some?;
        if ok {
          b.AddToTop([XElement(tag, DB.Visible(attrs), nodes.value)]);
        }
      }
  }

  lemma PrefixRun(ops: seq<Op>, i: nat)
    requires i < |ops|
    ensures ops[..i + 1][..|ops[..i + 1]| - 1] == ops[..i] && ops[..i + 1][|ops[..i + 1]| - 1] == ops[i]
  {
  }

  lemma {:induction false} RunFails(ops: seq<Op>, i: nat)
    requires i <= |ops| && DB.Run(DB.INITIAL, ops[..i]) == None
    ensures DB.Run(DB.INITIAL, ops) == None
    decreases |ops| - i
  {
    if i < |ops| {
      PrefixRun(ops, i);
      RunFails(ops, i + 1);
    } else {
      assert ops[..i] == ops;
    }
  }
}
