/**
 * The law of the mapper: splicing a book's own chapter Deltas back into it gives the book in normal form,
 * and gives the book itself exactly when it is canonical.
 */
module WholeBook {
  import opened Text
  import opened Usx
  import opened RichText
  import opened DeltaParser
  import opened DeltaBuilder
  import opened DeltaMerge
  import opened BookDomain
  import opened TableRoundTrip
  import opened BookRoundTrip
  import opened WalkIds

  // ----- chapter marks

  lemma {:induction false} FewMarks(items: seq<Item>, seen: bool)
    requires ItemsOk(items) && Marks(Ungrouped(items)) + (if seen then 1 else 0) <= 1
    ensures OneChapter(items, seen)
  {
    if items != [] {
      MarksAppend(ItemNodes(items[0]), Ungrouped(items[1..]));
      if items[0].Block? {
        assert ItemNodes(items[0])[1..] == [];
        FewMarks(items[1..], seen || IsElement(items[0].node, Chapter));
      } else {
        FewMarks(items[1..], seen);
      }
    }
  }

  // Every chapter mark has an integer number.
  predicate AllNumbered(nodes: seq<Node>) {
    forall n :: n in nodes && IsElement(n, Chapter) ==> HasNumber(n)
  }

  // ----- the book op

  lemma BookOpKept(ops: seq<Op>, op: Op)
    ensures HasBookOp(ops) || (IsBookOp(op) && op.insert != Str("")) ==> HasBookOp(Inserted(ops, op))
  {
    var r := Inserted(ops, op);
    if HasBookOp(ops) {
      var i :| 0 <= i < |ops| && IsBookOp(ops[i]);
      assert IsBookOp(r[i]);
    } else if IsBookOp(op) && op.insert != Str("") {
      assert IsBookOp(r[|r| - 1]);
    }
  }

  lemma BookOpBefore(ops: seq<Op>, more: seq<Op>)
    ensures HasBookOp(ops) ==> HasBookOp(ops + more)
  {
    if HasBookOp(ops) {
      var i :| 0 <= i < |ops| && IsBookOp(ops[i]);
      assert IsBookOp((ops + more)[i]);
    }
  }

  lemma BookOpSegment(ops: seq<Op>, ref: Option<string>)
    ensures HasBookOp(ops) ==> HasBookOp(SegmentEnded(ops, ref))
  {
    if ref.Some? {
      BookOpBefore(ops, [BlankOp(ref.value)]);
    }
  }

  lemma {:induction false} BookOpWalked(cx: Context, fl: Flow, nodes: seq<Node>, chars: seq<Attrs>)
    ensures HasBookOp(fl.ops) ==> HasBookOp(Walked(cx, fl, nodes, chars).ops)
    decreases nodes, 0
  {
    if nodes != [] {
      BookOpNodeWalked(cx, fl, nodes[0], chars);
      BookOpWalked(cx, NodeWalked(cx, fl, nodes[0], chars), nodes[1..], chars);
    }
  }

  lemma {:induction false} BookOpNodeWalked(cx: Context, fl: Flow, n: Node, chars: seq<Attrs>)
    ensures HasBookOp(fl.ops) ==> HasBookOp(NodeWalked(cx, fl, n, chars).ops)
    decreases n, 1
  {
    match n
    case XText(v) =>
      BookOpKept(fl.ops, Op(Str(v), InlineAttrs(chars, None, SegmentOf(fl.curRef))));
    case XElement(tag, attrs, nodes) =>
      match tag {
        case Para =>
          var inner := Walked(cx.(chapter := None), Nested(fl.ops, fl.guids), nodes, []);
          BookOpWalked(cx.(chapter := None), Nested(fl.ops, fl.guids), nodes, []);
          BookOpPara(inner.ops, Para, attrs, nodes);
        case Verse =>
          BookOpSegment(fl.ops, fl.curRef);
          BookOpBefore(SegmentEnded(fl.ops, fl.curRef), [Op(Embed(Verse, attrs, []), NO_ATTRS)]);
        case Ref =>
          BookOpKept(fl.ops, Op(Str(InnerText(nodes)), InlineAttrs(chars, Some(attrs), SegmentOf(fl.curRef))));
        case Char =>
          var inner := chars + [Identified(cx, attrs, fl.guids)];
          BookOpBefore(fl.ops, [EmptyOp(inner, fl.curRef)]);
          BookOpWalked(cx, fl.(guids := GuidsAfter(attrs, fl.guids)), nodes, inner);
        case Table =>
          var t := fl.tableIndex + 1;
          BookOpRows(cx, fl.(tableIndex := t), nodes, attrs["id" := TableId(t)], 1);
        case Cell =>
          BookOpWalked(cx, fl, nodes, []);
        case _ =>
          var contents := Walked(cx.(chapter := None), Nested([], fl.guids), nodes, []);
          BookOpBefore(fl.ops, [Op(Embed(tag, attrs, contents.ops), InlineAttrs(chars, None, SegmentOf(fl.curRef)))]);
      }
  }

  lemma BookOpPara(ops: seq<Op>, tag: Tag, attrs: Attrs, nodes: seq<Node>)
    ensures forall fl: Flow :: fl.ops == ops && (HasBookOp(ops) || tag == Book) ==>
              HasBookOp(ParaInserted(fl, tag, attrs, nodes).ops)
  {
    var bad := !CanContainVerseText(Get(attrs, "style")) && HasDescendant(nodes, Verse);
    BookOpKept(ops, Op(Str("\n"), NO_ATTRS.(block := Some(BlockFormat(tag, attrs)), invalidBlock := bad)));
  }

  lemma {:induction false} BookOpRows(cx: Context, fl: Flow, nodes: seq<Node>, tableAttrs: Attrs, r: nat)
    ensures HasBookOp(fl.ops) ==> HasBookOp(RowsWalked(cx, fl, nodes, tableAttrs, r).ops)
    decreases nodes, 0
  {
    if nodes != [] {
      if IsElement(nodes[0], Row) {
        BookOpCells(cx, fl, nodes[0].nodes, tableAttrs, RowId(fl.tableIndex, r), r, 1);
        BookOpRows(cx, CellsWalked(cx, fl, nodes[0].nodes, tableAttrs, RowId(fl.tableIndex, r), r, 1), nodes[1..], tableAttrs, r + 1);
      } else {
        BookOpRows(cx, fl, nodes[1..], tableAttrs, r);
      }
    }
  }

  lemma {:induction false} BookOpCells(cx: Context, fl: Flow, nodes: seq<Node>, tableAttrs: Attrs, rowId: string, r: nat, c: nat)
    ensures HasBookOp(fl.ops) ==> HasBookOp(CellsWalked(cx, fl, nodes, tableAttrs, rowId, r, c).ops)
    decreases nodes, 0
  {
    if nodes != [] {
      if nodes[0].XElement? {
        var fl0 := fl.(curRef := Some(CellRef(fl.tableIndex, r, c)));
        var fl1 := NodeWalked(cx, fl0, nodes[0], []);
        BookOpNodeWalked(cx, fl0, nodes[0], []);
        BookOpSegment(fl1.ops, fl1.curRef);
        BookOpKept(SegmentEnded(fl1.ops, fl1.curRef), CellEnd(tableAttrs, rowId, nodes[0]));
        var ops := Inserted(SegmentEnded(fl1.ops, fl1.curRef), CellEnd(tableAttrs, rowId, nodes[0]));
        BookOpCells(cx, fl1.(ops := ops), nodes[1..], tableAttrs, rowId, r, c + 1);
      } else {
        BookOpCells(cx, fl, nodes[1..], tableAttrs, rowId, r, c);
      }
    }
  }

  lemma BookOpImplied(st: BookState)
    ensures HasBookOp(st.fl.ops) ==> HasBookOp(ImpliedEnded(st).fl.ops)
  {
    BookOpSegment(st.fl.ops, st.fl.curRef);
    BookOpKept(SegmentEnded(st.fl.ops, st.fl.curRef), NEWLINE);
  }

  lemma BookOpParaStep(newGuid: nat -> string, st: BookState, n: Node)
    requires n.XElement?
    ensures var st1 := ParaStep(newGuid, st, n);
            st1.Some? && (HasBookOp(st.fl.ops) || n.tag == Book) ==> HasBookOp(st1.value.fl.ops)
  {
    var st0 := ImpliedEnded(st);
    BookOpImplied(st);
    var parts := RefParts(st0.fl.curRef, Get(n.attrs, "style"));
    if parts.Some? {
      var st2 := WithRef(st0, parts.value.0, parts.value.1);
      var cx := Context(newGuid, st2.curChapter);
      BookOpWalked(cx, st2.fl, n.nodes, []);
      var fl1 := Walked(cx, st2.fl, n.nodes, []);
      BookOpSegment(fl1.ops, fl1.curRef);
      BookOpPara(SegmentEnded(fl1.ops, fl1.curRef), n.tag, n.attrs, n.nodes);
    }
  }

  lemma BookOpRootStep(newGuid: nat -> string, st: BookState, root: RootNode)
    requires IsElement(root.node, Chapter) ==> st.curChapter.None?
    ensures var st1 := RootStep(newGuid, st, root);
            st1.Some? && (HasBookOp(st.fl.ops) || IsElement(root.node, Book)) ==> HasBookOp(st1.value.fl.ops)
  {
    BookOpNodeWalked(Context(newGuid, st.curChapter), st.fl, root.node, []);
    if root.node.XElement? {
      BookOpParaStep(newGuid, st, root.node);
      BookOpParaStep(newGuid, st.(bookIsValid := root.schemaValid), root.node);
      BookOpBefore(st.fl.ops, [ChapterOp(root.node.attrs)]);
    }
  }

  /** A chapter Delta has a book op if the chapter's stretch of the book has a book element. */
  lemma {:induction false} BookOpStretch(newGuid: nat -> string, st: BookState, roots: seq<RootNode>, seen: bool, st1: BookState)
    requires Marks(NodesOf(roots)) + (if seen then 1 else 0) <= 1 && (!seen ==> st.curChapter.None?)
    requires BookWalked(newGuid, st, roots) == Some(st1)
    ensures HasBookOp(st.fl.ops) || Books(NodesOf(roots)) != [] ==> HasBookOp(st1.fl.ops)
    decreases roots
  {
    if roots != [] {
      BookOpRootStep(newGuid, st, roots[0]);
      var st2 := RootStep(newGuid, st, roots[0]).value;
      RootStepChapter(newGuid, st, roots[0]);
      assert NodesOf(roots)[1..] == NodesOf(roots[1..]);
      BookOpStretch(newGuid, st2, roots[1..], seen || IsElement(roots[0].node, Chapter), st1);
    }
  }

  // ----- the Deltas of a book

  function ChapterName(st: BookState): string {
    if st.curChapter.None? then "1" else st.curChapter.value
  }

  // The state in which the walk goes on after a chapter mark has closed the chapter before it.
  function Cleared(st: BookState): BookState
    requires st.curChapter.Some?
  {
    var ended := ChapterEnded(st, st.curChapter.value);
    ended.(fl := ended.fl.(ops := [], valid := ended.bookIsValid), nextIds := map[], refs := [], curChapter := None)
  }

  lemma MarkClears(newGuid: nat -> string, st: BookState, root: RootNode)
    requires IsElement(root.node, Chapter) && st.curChapter.Some?
    ensures RootStep(newGuid, st, root) == RootStep(newGuid, Cleared(st), root)
  {
  }

  // The stretch of book that starts here is walked from the beginning.
  predicate AtStart(st: BookState, stretch: seq<RootNode>) {
    && st.fl.ops == [] && !st.implied && st.curChapter.None? && st.nextIds == map[]
    && (st.fl.curRef.None? || (stretch != [] && IsElement(stretch[0].node, Chapter)))
  }

  /**
   * A Delta is its chapter's own up to generated names; it rebuilds to the chapter in normal form, if the
   * chapter is in the domain; and it has a book operation if the chapter has a book element.
   */
  ghost predicate Delivers(newGuid: nat -> string, d: ChapterDelta, seg: seq<Node>) {
    && (AllRenamable(seg) ==> IsDeltaOf(newGuid, d.ops, seg))
    && (ItemsOk(Grouped(seg)) ==> Rebuilt(d.ops) == Some(BookNorm(Grouped(seg))))
    && (Books(seg) != [] ==> HasBookOp(d.ops))
  }

  // The number in a chapter's mark, or 1.
  function ChapterNumber(chapter: seq<Node>): int {
    match FirstChapter(chapter)
    case None => 1
    case Some(mark) => NumberOf(mark, 0)
  }

  // A chapter that starts with its mark.
  predicate StartsNumbered(chapter: seq<Node>) {
    chapter != [] && IsElement(chapter[0], Chapter) && HasNumber(chapter[0])
  }

  ghost predicate EachDelivers(newGuid: nat -> string, ds: seq<ChapterDelta>, segs: seq<seq<Node>>)
    requires |ds| == |segs|
  {
    ds == [] || (Delivers(newGuid, ds[0], segs[0]) && EachDelivers(newGuid, ds[1..], segs[1..]))
  }

  predicate EachNumbered(ds: seq<ChapterDelta>, segs: seq<seq<Node>>)
    requires |ds| == |segs|
  {
    ds == [] || (ds[0].number == ChapterNumber(segs[0]) && EachNumbered(ds[1..], segs[1..]))
  }

  predicate EachStarts(segs: seq<seq<Node>>) {
    segs == [] || (StartsNumbered(segs[0]) && EachStarts(segs[1..]))
  }

  /** The Deltas are those of the chapters segs, with their numbers; those after the first start with marks. */
  ghost predicate AllDeliver(newGuid: nat -> string, ds: seq<ChapterDelta>, segs: seq<seq<Node>>) {
    |ds| == |segs| && EachDelivers(newGuid, ds, segs) && EachNumbered(ds, segs) && (segs != [] ==> EachStarts(segs[1..]))
  }

  lemma {:induction false} DeliversAt(newGuid: nat -> string, ds: seq<ChapterDelta>, segs: seq<seq<Node>>, i: nat,
                                      d: ChapterDelta, seg: seq<Node>)
    requires i < |ds| == |segs| && EachDelivers(newGuid, ds, segs) && d == ds[i] && seg == segs[i]
    ensures Delivers(newGuid, d, seg)
    decreases i
  {
    if i > 0 {
      InTail(ds, i);
      InTail(segs, i);
      DeliversAt(newGuid, ds[1..], segs[1..], i - 1, d, seg);
    }
  }

  lemma {:induction false} NumberedAt(ds: seq<ChapterDelta>, segs: seq<seq<Node>>, i: nat)
    requires i < |ds| == |segs| && EachNumbered(ds, segs)
    ensures ds[i].number == ChapterNumber(segs[i])
    decreases i
  {
    if i > 0 {
      InTail(ds, i);
      InTail(segs, i);
      NumberedAt(ds[1..], segs[1..], i - 1);
    }
  }

  // The current chapter number is that of the mark in the stretch walked so far.
  predicate InChapter(st: BookState, walked: seq<Node>) {
    match FirstChapter(walked)
    case None => st.curChapter.None?
    case Some(mark) => HasNumber(mark) && st.curChapter == Some(mark.attrs["number"])
  }

  lemma {:induction false} FirstChapterAppend(a: seq<Node>, b: seq<Node>)
    ensures FirstChapter(a + b) == if FirstChapter(a).Some? then FirstChapter(a) else FirstChapter(b)
  {
    if a == [] {
      assert a + b == b;
    } else {
      assert (a + b)[0] == a[0] && (a + b)[1..] == a[1..] + b;
      FirstChapterAppend(a[1..], b);
    }
  }

  lemma ChapterNameNumber(st: BookState, walked: seq<Node>)
    requires InChapter(st, walked)
    ensures ParseInt(ChapterName(st)) == Some(ChapterNumber(walked))
  {
    ReadsOne();
  }

  lemma StretchDelivers(newGuid: nat -> string, start: BookState, stretch: seq<RootNode>, st: BookState, valid: bool, number: int)
    requires Injective(newGuid) && AtStart(start, stretch) && Marks(NodesOf(stretch)) <= 1
    requires BookWalked(newGuid, start, stretch) == Some(st)
    ensures Delivers(newGuid, ChapterDelta(number, valid, ImpliedEnded(st).fl.ops), NodesOf(stretch))
  {
    if AllRenamable(NodesOf(stretch)) {
      StretchIsChapter(newGuid, start, stretch, st);
    }
    StretchRebuilds(newGuid, start, stretch, st);
    BookOpStretch(newGuid, start, stretch, false, st);
    BookOpImplied(st);
  }

  lemma StretchRebuilds(newGuid: nat -> string, start: BookState, stretch: seq<RootNode>, st: BookState)
    requires Injective(newGuid) && AtStart(start, stretch) && Marks(NodesOf(stretch)) <= 1
    requires BookWalked(newGuid, start, stretch) == Some(st)
    ensures var items := Grouped(NodesOf(stretch));
            ItemsOk(items) ==> Rebuilt(ImpliedEnded(st).fl.ops) == Some(BookNorm(items))
  {
    var items := Grouped(NodesOf(stretch));
    if ItemsOk(items) {
      UngroupedGrouped(NodesOf(stretch));
      FewMarks(items, false);
      assert AfterBlock(start, INITIAL, 0, 0);
      ItemsRebuilt(newGuid, start, stretch, items, INITIAL, 0, 0, false, st);
      NothingOutput(BookNorm(items));
    }
  }

  lemma NothingOutput(nodes: seq<Node>)
    ensures Output(INITIAL) + nodes == nodes
  {
  }

  /**
   * The rest of a book, when stretch is what has been walked of the current chapter: what the walk adds to
   * the finished Deltas are the Deltas of the current chapter and the later ones.
   */
  lemma {:induction false} RestDelivers(newGuid: nat -> string, start: BookState, stretch: seq<RootNode>, st: BookState,
                                        rest: seq<RootNode>, end: BookState) returns (ds: seq<ChapterDelta>)
    requires Injective(newGuid) && AtStart(start, stretch) && BookWalked(newGuid, start, stretch) == Some(st)
    requires BookWalked(newGuid, st, rest) == Some(end)
    requires AllNumbered(NodesOf(stretch)) && AllNumbered(NodesOf(rest))
    requires Marks(NodesOf(stretch)) == (if st.curChapter.Some? then 1 else 0) && InChapter(st, NodesOf(stretch))
    ensures ChapterEnded(end, ChapterName(end)).deltas == st.deltas + ds && ds != []
    ensures var segs := Segments(NodesOf(rest), st.curChapter.Some?);
            AllDeliver(newGuid, ds, [NodesOf(stretch) + segs[0]] + segs[1..])
    decreases rest
  {
    var segs := Segments(NodesOf(rest), st.curChapter.Some?);
    if rest == [] {
      ChapterNameNumber(st, NodesOf(stretch));
      var number := ChapterNumber(NodesOf(stretch));
      ds := [ChapterDelta(number, ImpliedEnded(st).fl.valid, ImpliedEnded(st).fl.ops)];
      StretchDelivers(newGuid, start, stretch, st, ImpliedEnded(st).fl.valid, number);
      assert NodesOf(stretch) + segs[0] == NodesOf(stretch);
    } else if IsElement(rest[0].node, Chapter) && st.curChapter.Some? {
      ds := NextChapterDelivers(newGuid, start, stretch, st, rest, end);
    } else {
      ds := ChildDelivers(newGuid, start, stretch, st, rest, end);
    }
  }

  lemma {:induction false} ChildDelivers(newGuid: nat -> string, start: BookState, stretch: seq<RootNode>, st: BookState,
                                         rest: seq<RootNode>, end: BookState) returns (ds: seq<ChapterDelta>)
    requires Injective(newGuid) && AtStart(start, stretch) && BookWalked(newGuid, start, stretch) == Some(st)
    requires BookWalked(newGuid, st, rest) == Some(end) && rest != []
    requires AllNumbered(NodesOf(stretch)) && AllNumbered(NodesOf(rest))
    requires Marks(NodesOf(stretch)) == (if st.curChapter.Some? then 1 else 0) && InChapter(st, NodesOf(stretch))
    requires st.curChapter.Some? ==> !IsElement(rest[0].node, Chapter)
    ensures ChapterEnded(end, ChapterName(end)).deltas == st.deltas + ds && ds != []
    ensures var segs := Segments(NodesOf(rest), st.curChapter.Some?);
            AllDeliver(newGuid, ds, [NodesOf(stretch) + segs[0]] + segs[1..])
    decreases rest, 0
  {
    var n, more := rest[0].node, stretch + [rest[0]];
    var st1 := RootStep(newGuid, st, rest[0]).value;
    RootStepChapter(newGuid, st, rest[0]);
    RootStepDeltas(newGuid, st, rest[0]);
    BookWalkedTwice(newGuid, start, stretch, [rest[0]]);
    assert BookWalked(newGuid, st, [rest[0]]) == Some(st1);
    NodesOfAppend(stretch, rest[0]);
    MarksAppend(NodesOf(stretch), [n]);
    assert Marks([n]) == (if IsElement(n, Chapter) then 1 else 0) + Marks([]);
    assert NodesOf(rest)[0] in NodesOf(rest) && NodesOf(rest)[1..] == NodesOf(rest[1..]);
    FirstChapterAppend(NodesOf(stretch), [n]);
    ds := RestDelivers(newGuid, start, more, st1, rest[1..], end);
    var later := Segments(NodesOf(rest[1..]), st1.curChapter.Some?);
    PlusAssoc(NodesOf(stretch), [n], later[0]);
  }

  lemma {:induction false} NextChapterDelivers(newGuid: nat -> string, start: BookState, stretch: seq<RootNode>, st: BookState,
                                               rest: seq<RootNode>, end: BookState) returns (ds: seq<ChapterDelta>)
    requires Injective(newGuid) && AtStart(start, stretch) && BookWalked(newGuid, start, stretch) == Some(st)
    requires BookWalked(newGuid, st, rest) == Some(end) && rest != []
    requires AllNumbered(NodesOf(stretch)) && AllNumbered(NodesOf(rest)) && Marks(NodesOf(stretch)) == 1
    requires st.curChapter.Some? && InChapter(st, NodesOf(stretch)) && IsElement(rest[0].node, Chapter)
    ensures ChapterEnded(end, ChapterName(end)).deltas == st.deltas + ds && ds != []
    ensures var segs := Segments(NodesOf(rest), true);
            AllDeliver(newGuid, ds, [NodesOf(stretch) + segs[0]] + segs[1..])
    decreases rest, 0
  {
    var n := rest[0].node;
    ChapterNameNumber(st, NodesOf(stretch));
    var number, ended := ChapterNumber(NodesOf(stretch)), ImpliedEnded(st);
    var d := ChapterDelta(number, ended.fl.valid, ended.fl.ops);
    StretchDelivers(newGuid, start, stretch, st, ended.fl.valid, number);
    var st1 := MarkWalked(newGuid, st, rest[0]);
    assert NodesOf(rest)[0] in NodesOf(rest) && NodesOf(rest)[1..] == NodesOf(rest[1..]);
    var later := RestDelivers(newGuid, Cleared(st), [rest[0]], st1, rest[1..], end);
    ds := [d] + later;
    PlusAssoc(st.deltas, [d], later);
    var segs := MarkSegments(NodesOf(rest));
    DeliverOneMore(newGuid, d, NodesOf(stretch), later, segs);
  }

  lemma MarkSegments(nodes: seq<Node>) returns (later: seq<seq<Node>>)
    requires nodes != [] && IsElement(nodes[0], Chapter)
    ensures var segs := Segments(nodes[1..], true); later == [[nodes[0]] + segs[0]] + segs[1..]
    ensures Segments(nodes, true)[0] == [] && Segments(nodes, true)[1..] == later
    ensures later[0][0] == nodes[0]
    ensures forall seg: seq<Node> :: seg + Segments(nodes, true)[0] == seg
  {
    var segs := Segments(nodes[1..], true);
    later := [[nodes[0]] + segs[0]] + segs[1..];
    assert Segments(nodes, true) == [[]] + later;
  }

  lemma MarkWalked(newGuid: nat -> string, st: BookState, root: RootNode) returns (st1: BookState)
    requires IsElement(root.node, Chapter) && HasNumber(root.node)
    requires st.curChapter.Some? && ParseInt(st.curChapter.value).Some?
    ensures RootStep(newGuid, st, root) == Some(st1) && BookWalked(newGuid, Cleared(st), [root]) == Some(st1)
    ensures st1.curChapter == Some(root.node.attrs["number"])
    ensures st1.deltas == st.deltas +
              [ChapterDelta(ParseInt(st.curChapter.value).value, ImpliedEnded(st).fl.valid, ImpliedEnded(st).fl.ops)]
    ensures NodesOf([root]) == [root.node] && Marks([root.node]) == 1
  {
    st1 := RootStep(newGuid, st, root).value;
    MarkClears(newGuid, st, root);
    RootStepChapter(newGuid, Cleared(st), root);
    RootStepDeltas(newGuid, Cleared(st), root);
    assert BookWalked(newGuid, st1, []) == Some(st1);
    assert Marks([root.node]) == 1 + Marks([]);
  }

  lemma DeliverOneMore(newGuid: nat -> string, d: ChapterDelta, seg: seq<Node>, ds: seq<ChapterDelta>, segs: seq<seq<Node>>)
    requires Delivers(newGuid, d, seg) && d.number == ChapterNumber(seg) && AllDeliver(newGuid, ds, segs)
    requires segs != [] && StartsNumbered(segs[0])
    ensures AllDeliver(newGuid, [d] + ds, [seg] + segs)
  {
    Tail(d, ds);
    Tail(seg, segs);
  }

  lemma NodesOfAppend(roots: seq<RootNode>, root: RootNode)
    ensures NodesOf(roots + [root]) == NodesOf(roots) + [root.node]
  {
  }

  lemma RootStepDeltas(newGuid: nat -> string, st: BookState, root: RootNode)
    requires IsElement(root.node, Chapter) ==> st.curChapter.None?
    ensures var st1 := RootStep(newGuid, st, root); st1.Some? ==> st1.value.deltas == st.deltas
  {
    if IsElement(root.node, Book) {
      ParaStepDeltas(newGuid, st.(bookIsValid := root.schemaValid), root.node);
    } else if IsElement(root.node, Para) {
      ParaStepDeltas(newGuid, st, root.node);
    }
  }

  lemma ParaStepDeltas(newGuid: nat -> string, st: BookState, n: Node)
    requires n.XElement?
    ensures var st1 := ParaStep(newGuid, st, n); st1.Some? ==> st1.value.deltas == st.deltas
  {
  }

  // ----- the round trip

  // The chapters whose Delta is valid are in the domain.
  predicate InDomain(ds: seq<ChapterDelta>, segs: seq<seq<Node>>) {
    |ds| == |segs| && forall i :: 0 <= i < |ds| && ds[i].isValid ==> ItemsOk(Grouped(segs[i]))
  }

  /** What comes back for each chapter: its normal form, or the chapter itself if its Delta is invalid. */
  function Back(ds: seq<ChapterDelta>, segs: seq<seq<Node>>): (r: seq<seq<Node>>)
    requires InDomain(ds, segs)
    ensures |r| == |segs|
  {
    if segs == [] then []
    else
      assert ds[0] in ds;
      [if ds[0].isValid then BookNorm(Grouped(segs[0])) else segs[0]] + Back(ds[1..], segs[1..])
  }

  lemma AllDeliverTail(newGuid: nat -> string, ds: seq<ChapterDelta>, segs: seq<seq<Node>>)
    requires AllDeliver(newGuid, ds, segs) && |segs| > 1
    ensures AllDeliver(newGuid, ds[1..], segs[1..]) && ds[1].number == NextNumber(segs, ds[0].number)
  {
    NumberedAt(ds, segs, 1);
    InTail(segs, 1);
  }

  lemma {:induction false} OwnMerge(newGuid: nat -> string, n: int, segs: seq<seq<Node>>, ds: seq<ChapterDelta>)
    requires AllDeliver(newGuid, ds, segs) && InDomain(ds, segs) && (ds != [] ==> ds[0].number == n)
    ensures ChapterMerge(n, segs, ds) == Merged(Concat(Back(ds, segs)))
    decreases |segs|
  {
    if segs != [] {
      var d, seg := ds[0], segs[0];
      assert Delivers(newGuid, d, seg);
      assert d.isValid ==> [] + BookNorm(Grouped(seg)) == BookNorm(Grouped(seg));
      assert Replaced(seg, d) == Some(Back(ds, segs)[0]);
      if |segs| > 1 {
        AllDeliverTail(newGuid, ds, segs);
        OwnMerge(newGuid, NextNumber(segs, n), segs[1..], ds[1..]);
      }
    }
  }

  // The chapters with a valid Delta are canonical.
  predicate CanonicalWhereValid(ds: seq<ChapterDelta>, segs: seq<seq<Node>>)
    requires |ds| == |segs|
  {
    forall i :: 0 <= i < |ds| && ds[i].isValid ==> ItemsCanonical(Grouped(segs[i]))
  }

  lemma {:induction false} BackNoLonger(ds: seq<ChapterDelta>, segs: seq<seq<Node>>)
    requires InDomain(ds, segs)
    ensures |Concat(Back(ds, segs))| <= |Concat(segs)|
    ensures Concat(Back(ds, segs)) == Concat(segs) <==> CanonicalWhereValid(ds, segs)
  {
    if segs != [] {
      var a, b := Back(ds, segs)[0], segs[0];
      BackNoLonger(ds[1..], segs[1..]);
      UngroupedGrouped(b);
      if ds[0].isValid {
        BookNormalIff(Grouped(b));
      }
      assert Concat(Back(ds, segs)) == a + Concat(Back(ds[1..], segs[1..]));
      SameParts(a, Concat(Back(ds[1..], segs[1..])), b, Concat(segs[1..]));
      assert forall i :: 1 <= i < |ds| ==> ds[i] == ds[1..][i - 1] && segs[i] == segs[1..][i - 1];
    }
  }

  lemma {:induction false} FirstChapterIn(nodes: seq<Node>)
    ensures FirstChapter(nodes).Some? ==> FirstChapter(nodes).value in nodes && IsElement(FirstChapter(nodes).value, Chapter)
  {
    if nodes != [] {
      FirstChapterIn(nodes[1..]);
    }
  }

  /** The Deltas of a book are those of its chapters, in order, each rebuilding to its chapter in normal form. */
  lemma DeltasDeliver(newGuid: nat -> string, guids: nat, roots: seq<RootNode>, ds: seq<ChapterDelta>)
    requires Injective(newGuid) && ChapterDeltas(newGuid, guids, roots) == Some(ds)
    requires AllNumbered(NodesOf(roots))
    ensures ds != [] && AllDeliver(newGuid, ds, Segments(NodesOf(roots), false))
  {
    var st := Start(guids);
    var end := BookWalked(newGuid, st, roots).value;
    var ds1 := RestDelivers(newGuid, st, [], st, roots, end);
    assert [] + ds1 == ds1;
    var segs := Segments(NodesOf(roots), false);
    assert [] + segs[0] == segs[0] && [segs[0]] + segs[1..] == segs;
  }

  /**
   * Get-put: splicing a book's own chapter Deltas back into it gives each chapter with a valid Delta in
   * normal form and leaves the others alone; the book is unchanged exactly when every chapter with a
   * valid Delta is canonical, or when its single Delta has no operations. (A table with an id, or an
   * embedded element with an attribute named contents, makes the parser throw.)
   */
  lemma GetPut(newGuid: nat -> string, guids: nat, roots: seq<RootNode>, ds: seq<ChapterDelta>,
               nodes: seq<Node>, segs: seq<seq<Node>>)
    requires nodes == NodesOf(roots) && segs == Segments(nodes, false) && NoReserved(nodes)
    requires Injective(newGuid) && ChapterDeltas(newGuid, guids, roots) == Some(ds)
    requires AllNumbered(nodes) && InDomain(ds, segs)
    ensures Spliced(nodes, ds) == Merged(if SingleEmpty(ds) then nodes else Concat(Back(ds, segs)))
    ensures Spliced(nodes, ds) == Merged(nodes) <==> SingleEmpty(ds) || CanonicalWhereValid(ds, segs)
  {
    DeltasDeliver(newGuid, guids, roots, ds);
    FirstChapterIn(nodes);
    OwnMerge(newGuid, ds[0].number, segs, ds);
    SegmentsOf(nodes, false);
    BackNoLonger(ds, segs);
  }
}
