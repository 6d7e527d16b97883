/** Which Deltas of the parser the rebuilding machine reads without fail: all but a few, whatever the book. */
module ParserDiscipline {
  import opened Text
  import opened Usx
  import opened RichText
  import opened DeltaParser
  import opened DeltaBuilder
  import opened InlineRoundTrip
  import opened StackDiscipline

  // What the parser sees to: only the ends of cells have table attributes, unformatted and with their row.
  predicate Parsed(op: Op)
    decreases op
  {
    && (op.attrs.table.Some? ==> op.insert.Str? && op.attrs.row.Some? && op.attrs.chars.None?)
    && (op.insert.Embed? ==> AllParsed(op.insert.contents))
  }

  predicate AllParsed(ops: seq<Op>)
    decreases ops
  {
    ops == [] || (AllParsed(ops[..|ops| - 1]) && Parsed(ops[|ops| - 1]))
  }

  lemma ParsedAppended(ops: seq<Op>, op: Op)
    requires AllParsed(ops) && Parsed(op)
    ensures AllParsed(ops + [op])
  {
    assert (ops + [op])[..|ops + [op]| - 1] == ops;
  }

  lemma ParsedInserted(ops: seq<Op>, op: Op)
    requires AllParsed(ops) && Parsed(op)
    ensures AllParsed(Inserted(ops, op))
  {
    if ops != [] && Joins(Last(ops), op) {
      ParsedAppended(DropLast(ops), Op(Str(Last(ops).insert.text + op.insert.text), op.attrs));
    } else {
      ParsedAppended(ops, op);
    }
  }

  lemma ParsedSegment(ops: seq<Op>, ref: Option<string>)
    requires AllParsed(ops)
    ensures AllParsed(SegmentEnded(ops, ref))
  {
    if ref.Some? {
      ParsedAppended(ops, BlankOp(ref.value));
    }
  }

  lemma ParsedEnd(ops: seq<Op>, ref: Option<string>, end: Op)
    requires AllParsed(ops) && Parsed(end)
    ensures AllParsed(Inserted(SegmentEnded(ops, ref), end))
  {
    ParsedSegment(ops, ref);
    ParsedInserted(SegmentEnded(ops, ref), end);
  }

  lemma ParsedPara(fl: Flow, tag: Tag, attrs: Attrs, nodes: seq<Node>)
    requires AllParsed(fl.ops)
    ensures AllParsed(ParaInserted(fl, tag, attrs, nodes).ops)
  {
    var bad := !CanContainVerseText(Get(attrs, "style")) && HasDescendant(nodes, Verse);
    ParsedInserted(fl.ops, Op(Str("\n"), NO_ATTRS.(block := Some(BlockFormat(tag, attrs)), invalidBlock := bad)));
  }

  // ----- the walk

  lemma {:induction false} WalkParsed(cx: Context, fl: Flow, nodes: seq<Node>, chars: seq<Attrs>)
    requires AllParsed(fl.ops)
    ensures AllParsed(Walked(cx, fl, nodes, chars).ops)
    decreases nodes, 0
  {
    if nodes != [] {
      NodeParsed(cx, fl, nodes[0], chars);
      WalkParsed(cx, NodeWalked(cx, fl, nodes[0], chars), nodes[1..], chars);
    }
  }

  lemma {:induction false} NodeParsed(cx: Context, fl: Flow, n: Node, chars: seq<Attrs>)
    requires AllParsed(fl.ops)
    ensures AllParsed(NodeWalked(cx, fl, n, chars).ops)
    decreases n, 1
  {
    match n
    case XText(v) =>
      ParsedInserted(fl.ops, Op(Str(v), InlineAttrs(chars, None, SegmentOf(fl.curRef))));
    case XElement(tag, attrs, nodes) =>
      match tag {
        case Para =>
          WalkParsed(cx.(chapter := None), Nested(fl.ops, fl.guids), nodes, []);
          var inner := Walked(cx.(chapter := None), Nested(fl.ops, fl.guids), nodes, []);
          ParsedPara(fl.(ops := inner.ops, guids := inner.guids), Para, attrs, nodes);
        case Verse =>
          ParsedSegment(fl.ops, fl.curRef);
          ParsedAppended(SegmentEnded(fl.ops, fl.curRef), Op(Embed(Verse, attrs, []), NO_ATTRS));
        case Ref =>
          ParsedInserted(fl.ops, Op(Str(InnerText(nodes)), InlineAttrs(chars, Some(attrs), SegmentOf(fl.curRef))));
        case Char =>
          var inner := chars + [Identified(cx, attrs, fl.guids)];
          ParsedAppended(fl.ops, EmptyOp(inner, fl.curRef));
          WalkParsed(cx, fl.(guids := GuidsAfter(attrs, fl.guids)), nodes, inner);
        case Table =>
          var t := fl.tableIndex + 1;
          RowsParsed(cx, fl.(tableIndex := t), nodes, attrs["id" := TableId(t)], 1);
        case Cell =>
          WalkParsed(cx, fl, nodes, []);
        case _ =>
          WalkParsed(cx.(chapter := None), Nested([], fl.guids), nodes, []);
          var contents := Walked(cx.(chapter := None), Nested([], fl.guids), nodes, []);
          ParsedAppended(fl.ops, Op(Embed(tag, attrs, contents.ops), InlineAttrs(chars, None, SegmentOf(fl.curRef))));
      }
  }

  lemma {:induction false} RowsParsed(cx: Context, fl: Flow, nodes: seq<Node>, tableAttrs: Attrs, r: nat)
    requires AllParsed(fl.ops)
    ensures AllParsed(RowsWalked(cx, fl, nodes, tableAttrs, r).ops)
    decreases nodes, 0
  {
    if nodes != [] {
      if IsElement(nodes[0], Row) {
        CellsParsed(cx, fl, nodes[0].nodes, tableAttrs, RowId(fl.tableIndex, r), r, 1);
        RowsParsed(cx, CellsWalked(cx, fl, nodes[0].nodes, tableAttrs, RowId(fl.tableIndex, r), r, 1), nodes[1..], tableAttrs, r + 1);
      } else {
        RowsParsed(cx, fl, nodes[1..], tableAttrs, r);
      }
    }
  }

  lemma {:induction false} CellsParsed(cx: Context, fl: Flow, nodes: seq<Node>, tableAttrs: Attrs, rowId: string, r: nat, c: nat)
    requires AllParsed(fl.ops)
    ensures AllParsed(CellsWalked(cx, fl, nodes, tableAttrs, rowId, r, c).ops)
    decreases nodes, 0
  {
    if nodes != [] {
      if nodes[0].XElement? {
        var fl0 := fl.(curRef := Some(CellRef(fl.tableIndex, r, c)));
        var fl1 := NodeWalked(cx, fl0, nodes[0], []);
        NodeParsed(cx, fl0, nodes[0], []);
        ParsedEnd(fl1.ops, fl1.curRef, CellEnd(tableAttrs, rowId, nodes[0]));
        var ops := Inserted(SegmentEnded(fl1.ops, fl1.curRef), CellEnd(tableAttrs, rowId, nodes[0]));
        CellsParsed(cx, fl1.(ops := ops), nodes[1..], tableAttrs, rowId, r, c + 1);
      } else {
        CellsParsed(cx, fl, nodes[1..], tableAttrs, rowId, r, c);
      }
    }
  }

  // ----- books

  predicate StateParsed(st: BookState) {
    AllParsed(st.fl.ops) && forall i :: 0 <= i < |st.deltas| ==> AllParsed(st.deltas[i].ops)
  }

  lemma ImpliedParsed(st: BookState)
    requires StateParsed(st)
    ensures StateParsed(ImpliedEnded(st))
  {
    ParsedEnd(st.fl.ops, st.fl.curRef, NEWLINE);
  }

  lemma ChapterEndedParsed(st: BookState, chapter: string)
    requires StateParsed(st)
    ensures StateParsed(ChapterEnded(st, chapter))
  {
    ImpliedParsed(st);
  }

  lemma ParaStepParsed(newGuid: nat -> string, st: BookState, n: Node)
    requires n.XElement? && StateParsed(st)
    ensures var st1 := ParaStep(newGuid, st, n); st1.Some? ==> StateParsed(st1.value)
  {
    var st0 := ImpliedEnded(st);
    ImpliedParsed(st);
    var parts := RefParts(st0.fl.curRef, Get(n.attrs, "style"));
    if parts.Some? {
      var st2 := WithRef(st0, parts.value.0, parts.value.1);
      var cx := Context(newGuid, st2.curChapter);
      WalkParsed(cx, st2.fl, n.nodes, []);
      var fl1 := Walked(cx, st2.fl, n.nodes, []);
      ParsedSegment(fl1.ops, fl1.curRef);
      ParsedPara(fl1.(ops := SegmentEnded(fl1.ops, fl1.curRef)), n.tag, n.attrs, n.nodes);
    }
  }

  lemma ChapterStepParsed(st: BookState, attrs: Attrs)
    requires StateParsed(st)
    ensures StateParsed(ChapterStep(st, attrs))
  {
    if st.curChapter.Some? {
      ChapterEndedParsed(st, st.curChapter.value);
      ParsedAppended([], ChapterOp(attrs));
    } else {
      ParsedAppended(st.fl.ops, ChapterOp(attrs));
    }
  }

  lemma RootStepParsed(newGuid: nat -> string, st: BookState, root: RootNode, st1: BookState)
    requires StateParsed(st) && RootStep(newGuid, st, root) == Some(st1)
    ensures StateParsed(st1)
  {
    var n := root.node;
    if IsElement(n, Book) {
      ParaStepParsed(newGuid, st.(bookIsValid := root.schemaValid), n);
    } else if IsElement(n, Para) {
      ParaStepParsed(newGuid, st, n);
    } else if IsElement(n, Chapter) {
      ChapterStepParsed(st, n.attrs);
    } else {
      OtherRootParsed(newGuid, st, root, st1);
    }
  }

  lemma OtherRootParsed(newGuid: nat -> string, st: BookState, root: RootNode, st1: BookState)
    requires StateParsed(st) && RootStep(newGuid, st, root) == Some(st1)
    requires root.node.XText? || !(root.node.tag in {Book, Para, Chapter})
    ensures StateParsed(st1)
  {
    NodeParsed(Context(newGuid, st.curChapter), st.fl, root.node, []);
  }

  lemma {:induction false} BookParsed(newGuid: nat -> string, st: BookState, roots: seq<RootNode>, st1: BookState)
    requires StateParsed(st) && BookWalked(newGuid, st, roots) == Some(st1)
    ensures StateParsed(st1)
    decreases roots
  {
    if roots != [] {
      var st2 := RootStep(newGuid, st, roots[0]).value;
      RootStepParsed(newGuid, st, roots[0], st2);
      BookParsed(newGuid, st2, roots[1..], st1);
    }
  }

  // ----- which of these Deltas are disciplined

  // A formatted newline or chapter mark.
  predicate FormattedEnd(op: Op) {
    CharsIn(op.attrs) != [] && (op.insert == Str("\n") || (op.insert.Embed? && op.insert.tag == Chapter))
  }

  // No formatted end at any depth, and every cell end has the attributes of its cell.
  predicate Clean(op: Op)
    decreases op
  {
    && !FormattedEnd(op)
    && (op.insert.Str? && op.attrs.table.Some? ==> op.attrs.cell.Some?)
    && (op.insert.Embed? ==> AllClean(op.insert.contents))
  }

  predicate AllClean(ops: seq<Op>)
    decreases ops
  {
    ops == [] || (AllClean(ops[..|ops| - 1]) && Clean(ops[|ops| - 1]))
  }

  lemma {:induction false} WellMadeIff(ops: seq<Op>)
    requires AllParsed(ops)
    ensures AllWellMade(ops) <==> AllClean(ops)
    decreases ops
  {
    if ops != [] {
      WellMadeIff(ops[..|ops| - 1]);
      OpWellMadeIff(ops[|ops| - 1]);
    }
  }

  lemma {:induction false} OpWellMadeIff(op: Op)
    requires Parsed(op)
    ensures WellMade(op) <==> Clean(op)
    ensures Disciplined(op) <==> !FormattedEnd(op)
    decreases op
  {
    if op.insert.Embed? {
      WellMadeIff(op.insert.contents);
    }
  }

  lemma {:induction false} ParsedAt(ops: seq<Op>, i: nat)
    requires AllParsed(ops) && i < |ops|
    ensures Parsed(ops[i])
    decreases |ops|
  {
    if i < |ops| - 1 {
      ParsedAt(ops[..|ops| - 1], i);
    }
  }

  lemma DisciplinedIff(ops: seq<Op>)
    requires AllParsed(ops)
    ensures AllDisciplined(ops) <==> forall i :: 0 <= i < |ops| ==> !FormattedEnd(ops[i])
  {
    forall i | 0 <= i < |ops| ensures Disciplined(ops[i]) <==> !FormattedEnd(ops[i]) {
      ParsedAt(ops, i);
      OpWellMadeIff(ops[i]);
    }
  }

  /**
   * Whatever the book, a Delta of the parser is disciplined exactly if no formatted text is just a newline and
   * no chapter mark is formatted; it is well made, and so is always rebuilt, exactly if this is so in nested
   * Deltas too and every child element of a row is a cell.
   */
  lemma ParserDisciplined(newGuid: nat -> string, guids: nat, roots: seq<RootNode>, ds: seq<ChapterDelta>, k: nat)
    requires ChapterDeltas(newGuid, guids, roots) == Some(ds) && k < |ds|
    ensures var ops := ds[k].ops;
            && (AllDisciplined(ops) <==> forall i :: 0 <= i < |ops| ==> !FormattedEnd(ops[i]))
            && (AllWellMade(ops) <==> AllClean(ops)) && (AllClean(ops) ==> Rebuilt(ops).Some?)
  {
    var st := BookWalked(newGuid, Start(guids), roots).value;
    BookParsed(newGuid, Start(guids), roots, st);
    ChapterEndedParsed(st, if st.curChapter.None? then "1" else st.curChapter.value);
    var ops := ds[k].ops;
    DisciplinedIff(ops);
    WellMadeIff(ops);
    if AllClean(ops) {
      WellMadeRebuilds(ops);
    }
  }
}
