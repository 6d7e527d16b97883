/**
 * The mapper itself: the walk over a book, the rebuilding of a Delta and the splicing of a book, each
 * done in place, and each proved to compute what the functions of the other modules say.
 */
module DeltaUsxMapper {
  import opened Text
  import opened Usx
  import opened RichText
  import DP = DeltaParser

  type ChapterDelta = DP.ChapterDelta

  class ParseState {
    var curRef: Option<string>
    var curChapter: Option<string>
    var curChapterIsValid: bool
    var tableIndex: nat
    var impliedParagraph: bool

    constructor ()
      ensures curRef == None && curChapter == None && curChapterIsValid && tableIndex == 0 && !impliedParagraph
    {
      curRef, curChapter, curChapterIsValid, tableIndex, impliedParagraph := None, None, true, 0, false;
    }
  }

  class Mapper {
    const newGuid: nat -> string  // the ids the GUID service hands out, in order
    var guids: nat                // how many of them were used

    constructor (newGuid: nat -> string)
      ensures this.newGuid == newGuid && guids == 0
    {
      this.newGuid := newGuid;
      guids := 0;
    }

    method Generate() returns (id: string)
      modifies this
      ensures id == newGuid(old(guids)) && guids == old(guids) + 1
    {
      id := newGuid(guids);
      guids := guids + 1;
    }

    ghost function FlowOf(delta: Delta, state: ParseState): DP.Flow
      reads this, delta, state
    {
      DP.Flow(delta.ops, state.curRef, state.tableIndex, state.curChapterIsValid, guids)
    }

    static method SegmentEnded(newDelta: Delta, segRef: Option<string>)
      modifies newDelta
      ensures newDelta.ops == DP.SegmentEnded(old(newDelta.ops), segRef)
    {
      if segRef.None? {
        return;
      }
      if |newDelta.ops| == 0 {
        InsertBlank(newDelta, segRef.value);
      } else {
        var lastOp := newDelta.ops[|newDelta.ops| - 1];
        var lastOpText := "";
        if lastOp.insert.Str? {
          lastOpText := lastOp.insert.text;
        }
        if || (lastOp.insert.Embed? && (lastOp.insert.tag == Verse || lastOp.insert.tag == Chapter))
           || lastOp.attrs.block.Some? || lastOp.attrs.table.Some?
           || (|lastOpText| > 0 && lastOpText[|lastOpText| - 1] == '\n') {
          InsertBlank(newDelta, segRef.value);
        }
      }
    }

    static method InsertBlank(delta: Delta, segRef: string)
      modifies delta
      ensures delta.ops == old(delta.ops) + [DP.BlankOp(segRef)]
    {
      delta.Insert(Embed(Blank, map[], []), NO_ATTRS.(segment := InSegment(segRef)));
    }

    method ProcessChildNodes(nodes: seq<Node>, newDelta: Delta, state: ParseState, chars: seq<Attrs>)
      requires DP.NoReserved(nodes)
      modifies this, newDelta, state
      ensures FlowOf(newDelta, state)
           == DP.Walked(DP.Context(newGuid, old(state.curChapter)), old(FlowOf(newDelta, state)), nodes, chars)
      ensures state.curChapter == old(state.curChapter) && state.impliedParagraph == old(state.impliedParagraph)
      decreases nodes, 0
    {
      ghost var cx := DP.Context(newGuid, state.curChapter);
      ghost var fl := FlowOf(newDelta, state);
      var i := 0;
      while i < |nodes|
        invariant 0 <= i <= |nodes| && DP.NoReserved(nodes[i..])
        invariant DP.Walked(cx, FlowOf(newDelta, state), nodes[i..], chars) == DP.Walked(cx, fl, nodes, chars)
        invariant state.curChapter == cx.chapter && state.impliedParagraph == old(state.impliedParagraph)
      {
        assert nodes[i..][1..] == nodes[i + 1..];
        ProcessChildNode(nodes[i], newDelta, state, chars);
        i := i + 1;
      }
    }

    method ProcessChildNode(node: Node, newDelta: Delta, state: ParseState, chars: seq<Attrs>)
      requires DP.NodeNoReserved(node)
      modifies this, newDelta, state
      ensures FlowOf(newDelta, state)
           == DP.NodeWalked(DP.Context(newGuid, old(state.curChapter)), old(FlowOf(newDelta, state)), node, chars)
      ensures state.curChapter == old(state.curChapter) && state.impliedParagraph == old(state.impliedParagraph)
      decreases node, 1
    {
      match node
      case XText(value) =>
        newDelta.Insert(Str(value), DP.InlineAttrs(chars, None, DP.SegmentOf(state.curRef)));
      case XElement(tag, attrs, nodes) =>
        match tag {
          case Para =>
            var inner := new ParseState();
            ProcessChildNodes(nodes, newDelta, inner, []);
            InsertPara(node, newDelta, state);
          case Verse =>
            InsertVerse(node, newDelta, state);
          case Ref =>
            newDelta.Insert(Str(InnerText(nodes)), DP.InlineAttrs(chars, Some(attrs), DP.SegmentOf(state.curRef)));
          case Char =>
            var newCharAttrs := attrs;
            if "cid" !in newCharAttrs {
              var id := Generate();
              newCharAttrs := newCharAttrs["cid" := id];
            }
            var newChildAttributes := chars + [newCharAttrs];
            if |nodes| == 0 {
              var segment := if state.curRef.None? then NullSegment else InSegment(state.curRef.value);
              newDelta.Insert(Embed(Empty, map[], []), DP.InlineAttrs(newChildAttributes, None, segment));
            } else {
              ProcessChildNodes(nodes, newDelta, state, newChildAttributes);
            }
          case Table =>
            ProcessTable(node, newDelta, state);
          case Cell =>
            ProcessChildNodes(nodes, newDelta, state, []);
          case _ =>
            InsertEmbed(node, newDelta, state, chars);
        }
    }

    method ProcessTable(node: Node, newDelta: Delta, state: ParseState)
      requires IsElement(node, Table) && DP.NodeNoReserved(node)
      modifies this, newDelta, state
      ensures FlowOf(newDelta, state)
           == DP.NodeWalked(DP.Context(newGuid, old(state.curChapter)), old(FlowOf(newDelta, state)), node, [])
      ensures state.curChapter == old(state.curChapter) && state.impliedParagraph == old(state.impliedParagraph)
      decreases node, 0
    {
      ghost var cx := DP.Context(newGuid, state.curChapter);
      var rows := node.nodes;
      state.tableIndex := state.tableIndex + 1;
      var tableAttributes := node.attrs["id" := DP.TableId(state.tableIndex)];
      ghost var fl := FlowOf(newDelta, state);
      var rowIndex := 1;
      var i := 0;
      while i < |rows|
        invariant 0 <= i <= |rows| && DP.NoReserved(rows[i..]) && rowIndex >= 1
        invariant DP.RowsWalked(cx, FlowOf(newDelta, state), rows[i..], tableAttributes, rowIndex)
               == DP.RowsWalked(cx, fl, rows, tableAttributes, 1)
        invariant state.curChapter == cx.chapter && state.impliedParagraph == old(state.impliedParagraph)
      {
        assert rows[i..][1..] == rows[i + 1..];
        if IsElement(rows[i], Row) {
          ProcessRow(rows[i], newDelta, state, tableAttributes, rowIndex);
          rowIndex := rowIndex + 1;
        }
        i := i + 1;
      }
      state.curRef := None;
    }

    method ProcessRow(row: Node, newDelta: Delta, state: ParseState, tableAttributes: Attrs, rowIndex: nat)
      requires IsElement(row, Row) && DP.NodeNoReserved(row)
      modifies this, newDelta, state
      ensures FlowOf(newDelta, state)
           == DP.CellsWalked(DP.Context(newGuid, old(state.curChapter)), old(FlowOf(newDelta, state)), row.nodes,
                             tableAttributes, DP.RowId(old(state.tableIndex), rowIndex), rowIndex, 1)
      ensures state.curChapter == old(state.curChapter) && state.impliedParagraph == old(state.impliedParagraph)
      decreases row, 0
    {
      ghost var cx := DP.Context(newGuid, state.curChapter);
      ghost var fl := FlowOf(newDelta, state);
      var cells := row.nodes;
      var rowId := DP.RowId(state.tableIndex, rowIndex);
      var cellIndex := 1;
      var i := 0;
      while i < |cells|
        invariant 0 <= i <= |cells| && DP.NoReserved(cells[i..]) && cellIndex >= 1
        invariant DP.CellsWalked(cx, FlowOf(newDelta, state), cells[i..], tableAttributes, rowId, rowIndex, cellIndex)
               == DP.CellsWalked(cx, fl, cells, tableAttributes, rowId, rowIndex, 1)
        invariant state.curChapter == cx.chapter && state.impliedParagraph == old(state.impliedParagraph)
      {
        assert cells[i..][1..] == cells[i + 1..];
        if cells[i].XElement? {
          ProcessCell(cells[i], newDelta, state, tableAttributes, rowId, rowIndex, cellIndex);
          cellIndex := cellIndex + 1;
        }
        i := i + 1;
      }
    }

    method ProcessCell(cell: Node, newDelta: Delta, state: ParseState, tableAttributes: Attrs, rowId: string,
                       rowIndex: nat, cellIndex: nat)
      requires cell.XElement? && DP.NodeNoReserved(cell)
      modifies this, newDelta, state
      ensures var ref := DP.CellRef(old(state.tableIndex), rowIndex, cellIndex);
              var fl1 := DP.NodeWalked(DP.Context(newGuid, old(state.curChapter)),
                                       old(FlowOf(newDelta, state)).(curRef := Some(ref)), cell, []);
              FlowOf(newDelta, state) == fl1.(ops := Inserted(DP.SegmentEnded(fl1.ops, fl1.curRef),
                                                              DP.CellEnd(tableAttributes, rowId, cell)))
      ensures state.curChapter == old(state.curChapter) && state.impliedParagraph == old(state.impliedParagraph)
      decreases cell, 2
    {
      state.curRef := Some(DP.CellRef(state.tableIndex, rowIndex, cellIndex));
      ProcessChildNode(cell, newDelta, state, []);
      SegmentEnded(newDelta, state.curRef);
      var attrs := NO_ATTRS.(table := Some(tableAttributes), row := Some(map["id" := rowId]));
      if cell.tag == Cell {
        attrs := attrs.(cell := Some(cell.attrs));
      }
      newDelta.Insert(Str("\n"), attrs);
    }

    static method InsertVerse(elem: Node, newDelta: Delta, state: ParseState)
      requires IsElement(elem, Verse)
      modifies newDelta, state`curRef
      ensures newDelta.ops == DP.SegmentEnded(old(newDelta.ops), old(state.curRef)) + [Op(Embed(Verse, elem.attrs, []), NO_ATTRS)]
      ensures state.curRef == Some(DP.VerseRef(state.curChapter, Get(elem.attrs, "number")))
    {
      var verse := Get(elem.attrs, "number");
      SegmentEnded(newDelta, state.curRef);
      state.curRef := Some("verse_" + DP.OrEmpty(state.curChapter) + "_" + DP.OrEmpty(verse));
      newDelta.Insert(Embed(Verse, elem.attrs, []), NO_ATTRS);
    }

    method InsertEmbed(elem: Node, newDelta: Delta, state: ParseState, chars: seq<Attrs>)
      requires elem.XElement? && DP.NodeNoReserved(elem) && !(elem.tag in {Para, Verse, Ref, Char, Table, Cell})
      modifies this, newDelta
      ensures FlowOf(newDelta, state)
           == DP.NodeWalked(DP.Context(newGuid, state.curChapter), old(FlowOf(newDelta, state)), elem, chars)
      decreases elem, 0
    {
      var contents := new Delta();
      var inner := new ParseState();
      ProcessChildNodes(elem.nodes, contents, inner, []);
      newDelta.Insert(Embed(elem.tag, elem.attrs, contents.ops), DP.InlineAttrs(chars, None, DP.SegmentOf(state.curRef)));
    }

    static method InsertPara(elem: Node, newDelta: Delta, state: ParseState)
      requires elem.XElement?
      modifies newDelta, state`curChapterIsValid
      ensures forall fl: DP.Flow :: fl.ops == old(newDelta.ops) && fl.valid == old(state.curChapterIsValid) ==>
                var fl1 := DP.ParaInserted(fl, elem.tag, elem.attrs, elem.nodes);
                newDelta.ops == fl1.ops && state.curChapterIsValid == fl1.valid
    {
      var canContainVerseText := DP.CanContainVerseText(Get(elem.attrs, "style"));
      var attributes := NO_ATTRS;
      if !canContainVerseText && HasDescendant(elem.nodes, Verse) {
        attributes := attributes.(invalidBlock := true);
        state.curChapterIsValid := false;
      }
      newDelta.Insert(Str("\n"), attributes.(block := Some(BlockFormat(elem.tag, elem.attrs))));
    }

    // ----- whole books

    ghost function BookStateOf(b: BookBuilder, delta: Delta, state: ParseState): DP.BookState
      reads this, b, delta, state
    {
      DP.BookState(FlowOf(delta, state), b.nextIds, state.curChapter, b.bookIsValid, state.impliedParagraph,
                   b.chapterDeltas, b.refs)
    }

    static method ImpliedParagraphEnded(delta: Delta, state: ParseState)
      modifies delta, state`impliedParagraph
      ensures delta.ops == if old(state.impliedParagraph)
                           then Inserted(DP.SegmentEnded(old(delta.ops), state.curRef), DP.NEWLINE) else old(delta.ops)
      ensures !state.impliedParagraph
    {
      if state.impliedParagraph {
        SegmentEnded(delta, state.curRef);
        delta.Insert(Str("\n"), NO_ATTRS);
        state.impliedParagraph := false;
      }
    }

    /** The reference of a paragraph; false where the code fails for lack of a style. */
    static method UpdateRef(style: Option<string>, b: BookBuilder, state: ParseState) returns (ok: bool)
      modifies b`nextIds, b`refs, state`curRef
      ensures var parts := DP.RefParts(old(state.curRef), style);
              && ok == parts.Some?
              && (ok ==>
                    var ref := DP.ParagraphRef(old(b.nextIds), parts.value.0, parts.value.1);
                    && state.curRef == Some(ref) && b.nextIds == DP.Counted(old(b.nextIds), parts.value.0)
                    && b.refs == old(b.refs) + [DP.Reference(parts.value.0, parts.value.1, DP.NextId(old(b.nextIds), parts.value.0))])
    {
      if DP.CanContainVerseText(style) && state.curRef.Some? {
        var slashIndex := IndexOf(state.curRef.value, '/');
        if slashIndex != -1 {
          state.curRef := Some(state.curRef.value[..slashIndex]);
        }
        var ref := b.GetParagraphRef(state.curRef.value, state.curRef.value + "/" + DP.OrEmpty(style));
        state.curRef := Some(ref);
      } else if style.Some? {
        var ref := b.GetParagraphRef(style.value, style.value);
        state.curRef := Some(ref);
      } else {
        return false;
      }
      return true;
    }

    method ProcessParaBody(elem: Node, delta: Delta, state: ParseState)
      requires elem.XElement? && DP.NoReserved(elem.nodes)
      modifies this, delta, state
      ensures FlowOf(delta, state)
           == DP.ParaBody(DP.Context(newGuid, old(state.curChapter)), old(FlowOf(delta, state)), elem)
      ensures state.curChapter == old(state.curChapter) && state.impliedParagraph == old(state.impliedParagraph)
    {
      ProcessChildNodes(elem.nodes, delta, state, []);
      SegmentEnded(delta, state.curRef);
      if !DP.CanContainVerseText(Get(elem.attrs, "style")) {
        state.curRef := None;
      }
      InsertPara(elem, delta, state);
    }

    method ProcessPara(elem: Node, b: BookBuilder, delta: Delta, state: ParseState) returns (ok: bool)
      requires elem.XElement? && DP.NoReserved(elem.nodes)
      modifies this, b, delta, state
      ensures var r := DP.ParaStep(newGuid, old(BookStateOf(b, delta, state)), elem);
              ok == r.Some? && (ok ==> BookStateOf(b, delta, state) == r.value)
    {
      ghost var st := BookStateOf(b, delta, state);
      ImpliedParagraphEnded(delta, state);
      ghost var st1 := BookStateOf(b, delta, state);
      assert st1 == DP.ImpliedEnded(st);
      var style := Get(elem.attrs, "style");
      ghost var parts := DP.RefParts(st1.fl.curRef, style);
      ok := UpdateRef(style, b, state);
      if ok {
        assert BookStateOf(b, delta, state) == DP.WithRef(st1, parts.value.0, parts.value.1);
        ProcessParaBody(elem, delta, state);
      }
    }

    method ChapterEnded(b: BookBuilder, delta: Delta, state: ParseState, chapter: string)
      modifies b`chapterDeltas, delta, state`impliedParagraph
      ensures BookStateOf(b, delta, state) == DP.ChapterEnded(old(BookStateOf(b, delta, state)), chapter)
    {
      ghost var st := BookStateOf(b, delta, state);
      ImpliedParagraphEnded(delta, state);
      assert BookStateOf(b, delta, state) == DP.ImpliedEnded(st);
      var number := ParseInt(chapter);
      if number.Some? {
        b.chapterDeltas := b.chapterDeltas + [DP.ChapterDelta(number.value, state.curChapterIsValid, delta.ops)];
      }
    }

    method ProcessChapter(attrs: Attrs, b: BookBuilder, delta: Delta, state: ParseState) returns (chapterDelta: Delta)
      modifies b, delta, state
      ensures chapterDelta == delta || fresh(chapterDelta)
      ensures BookStateOf(b, chapterDelta, state) == DP.ChapterStep(old(BookStateOf(b, delta, state)), attrs)
    {
      chapterDelta := delta;
      if state.curChapter.Some? {
        ChapterEnded(b, chapterDelta, state, state.curChapter.value);
        b.Clear();
        chapterDelta := new Delta();
        state.curChapterIsValid := b.bookIsValid;
      }
      state.curRef := None;
      state.curChapter := Get(attrs, "number");
      chapterDelta.Insert(Embed(Chapter, attrs, []), NO_ATTRS);
    }

    /** One child of the usx element. */
    method ProcessRoot(root: DP.RootNode, b: BookBuilder, delta: Delta, state: ParseState) returns (ok: bool, chapterDelta: Delta)
      requires DP.NodeNoReserved(root.node)
      modifies this, b, delta, state
      ensures chapterDelta == delta || fresh(chapterDelta)
      ensures var r := DP.RootStep(newGuid, old(BookStateOf(b, delta, state)), root);
              ok == r.Some? && (ok ==> BookStateOf(b, chapterDelta, state) == r.value)
    {
      ok, chapterDelta := true, delta;
      ghost var step := DP.RootStep(newGuid, BookStateOf(b, delta, state), root);
      if root.node.XElement? {
        var tag := root.node.tag;
        if tag == Book || tag == Para {
          if tag == Book {
            b.bookIsValid := root.schemaValid;
          }
          ok := ProcessPara(root.node, b, delta, state);
        } else if tag == Chapter {
          chapterDelta := ProcessChapter(root.node.attrs, b, delta, state);
        } else {
          ProcessChildNode(root.node, delta, state, []);
          if tag == Verse || tag == Note {
            state.impliedParagraph := true;
          }
        }
        ghost var stepped := BookStateOf(b, chapterDelta, state);
        assert step == if ok then Some(DP.SchemaChecked(stepped, root.schemaValid)) else None;
        if !root.schemaValid {
          state.curChapterIsValid := false;
        }
        assert BookStateOf(b, chapterDelta, state) == DP.SchemaChecked(stepped, root.schemaValid);
      } else {
        ProcessChildNode(root.node, delta, state, []);
        state.impliedParagraph := true;
      }
    }

    /** The chapter Deltas of a book; None where the code fails on a missing paragraph style. */
    method ToChapterDeltas(roots: seq<DP.RootNode>) returns (r: Option<seq<ChapterDelta>>)
      requires forall root :: root in roots ==> DP.NodeNoReserved(root.node)
      modifies this
      ensures r == DP.ChapterDeltas(newGuid, old(guids), roots)
    {
      var b := new BookBuilder();
      var chapterDelta := new Delta();
      var state := new ParseState();
      ghost var start := BookStateOf(b, chapterDelta, state);
      var i := 0;
      while i < |roots|
        invariant 0 <= i <= |roots|
        invariant fresh(b) && fresh(chapterDelta) && fresh(state)
        invariant DP.BookWalked(newGuid, BookStateOf(b, chapterDelta, state), roots[i..]) == DP.BookWalked(newGuid, start, roots)
      {
        assert roots[i..][0] == roots[i] && roots[i..][1..] == roots[i + 1..];
        var ok;
        ok, chapterDelta := ProcessRoot(roots[i], b, chapterDelta, state);
        if !ok {
          return None;
        }
        i := i + 1;
      }
      ghost var st := BookStateOf(b, chapterDelta, state);
      if state.curChapter.None? {
        state.curChapter := Some("1");
      }
      ChapterEnded(b, chapterDelta, state, state.curChapter.value);
      assert b.chapterDeltas == DP.ChapterEnded(st, DP.OrEmpty(state.curChapter)).deltas;
      return Some(b.chapterDeltas);
    }
  }

  /** What the loop over a book collects: the finished Deltas, the counters of the references, and the book's validity. */
  class BookBuilder {
    var chapterDeltas: seq<ChapterDelta>
    var nextIds: map<string, nat>
    var bookIsValid: bool
    ghost var refs: seq<DP.Reference>  // the references given out since the counters were cleared

    constructor ()
      ensures chapterDeltas == [] && nextIds == map[] && bookIsValid && refs == []
    {
      chapterDeltas, nextIds, bookIsValid, refs := [], map[], true, [];
    }

    method GetParagraphRef(key: string, prefix: string) returns (ref: string)
      modifies this`nextIds, this`refs
      ensures ref == DP.ParagraphRef(old(nextIds), key, prefix)
      ensures nextIds == DP.Counted(old(nextIds), key)
      ensures refs == old(refs) + [DP.Reference(key, prefix, DP.NextId(old(nextIds), key))]
    {
      if key !in nextIds {
        nextIds := nextIds[key := 1];
      }
      ref := prefix + "_" + Decimal(nextIds[key]);
      refs := refs + [DP.Reference(key, prefix, nextIds[key])];
      nextIds := nextIds[key := nextIds[key] + 1];
    }

    method Clear()
      modifies this`nextIds, this`refs
      ensures nextIds == map[] && refs == []
    {
      nextIds, refs := map[], [];
    }
  }
}
