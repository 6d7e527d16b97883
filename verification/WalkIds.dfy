/**
 * A walk that starts with more generated ids and more tables behind it produces the same Delta with the
 * generated names moved: what a chapter's Delta says does not depend on the chapters before it.
 */
module WalkIds {
  import opened Text
  import opened Usx
  import opened RichText
  import opened DeltaParser
  import opened CharMarks
  import opened BookDomain
  import opened TableRoundTrip
  import opened BookRoundTrip
  import opened DeltaIds

  // The second walk is as far as the first, with every name moved.
  ghost predicate Alike(ids: Ids, a: Flow, b: Flow) {
    && b.ops == Renamed(ids, a.ops)
    && b.curRef == RefRenamed(ids, a.curRef)
    && b.guids == a.guids + ids.guids
  }

  ghost predicate Generates(ids: Ids, cx: Context) {
    ids.newGuid == cx.newGuid && Injective(ids.newGuid)
  }

  lemma InsertedAlike(ids: Ids, a: Flow, b: Flow, op: Op, op1: Op)
    requires Injective(ids.newGuid) && Alike(ids, a, b) && op1 == OpRenamed(ids, op)
    ensures Alike(ids, a.(ops := Inserted(a.ops, op)), b.(ops := Inserted(b.ops, op1)))
    ensures Alike(ids, a.(ops := a.ops + [op]), b.(ops := b.ops + [op1]))
  {
    RenamedInserted(ids, a.ops, op);
    RenamedAppend(ids, a.ops, op);
  }

  lemma SegmentEndedAlike(ids: Ids, a: Flow, b: Flow)
    requires Alike(ids, a, b)
    ensures Alike(ids, a.(ops := SegmentEnded(a.ops, a.curRef)), b.(ops := SegmentEnded(b.ops, b.curRef)))
  {
    RenamedSegmentEnded(ids, a.ops, a.curRef);
  }

  lemma {:induction false} WalkAlike(ids: Ids, cx: Context, a: Flow, b: Flow, nodes: seq<Node>, chars: seq<Attrs>, inChar: bool)
    requires Generates(ids, cx) && Alike(ids, a, b) && Inline(nodes, inChar, false)
    ensures Alike(ids, Walked(cx, a, nodes, chars), Walked(cx, b, nodes, CharsRenamed(ids, chars)))
    decreases nodes, 0
  {
    if nodes != [] {
      NodeWalkAlike(ids, cx, a, b, nodes[0], chars, inChar);
      WalkAlike(ids, cx, NodeWalked(cx, a, nodes[0], chars), NodeWalked(cx, b, nodes[0], CharsRenamed(ids, chars)),
                nodes[1..], chars, inChar);
    }
  }

  lemma {:induction false} NodeWalkAlike(ids: Ids, cx: Context, a: Flow, b: Flow, n: Node, chars: seq<Attrs>, inChar: bool)
    requires Generates(ids, cx) && Alike(ids, a, b) && NodeInline(n, inChar, false)
    ensures Alike(ids, NodeWalked(cx, a, n, chars), NodeWalked(cx, b, n, CharsRenamed(ids, chars)))
    decreases n, 2
  {
    if n.XText? || n.tag == Ref {
      TextWalkAlike(ids, cx, a, b, n, chars);
    } else if n.tag == Verse {
      VerseWalkAlike(ids, cx, a, b, n.attrs);
    } else if n.tag == Char {
      CharWalkAlike(ids, cx, a, b, n, chars, inChar);
    } else {
      EmbedWalkAlike(ids, cx, a, b, n, chars);
    }
  }

  lemma TextWalkAlike(ids: Ids, cx: Context, a: Flow, b: Flow, n: Node, chars: seq<Attrs>)
    requires Generates(ids, cx) && Alike(ids, a, b) && (n.XText? || n.tag == Ref)
    ensures Alike(ids, NodeWalked(cx, a, n, chars), NodeWalked(cx, b, n, CharsRenamed(ids, chars)))
  {
    var link := if n.XElement? then Some(n.attrs) else None;
    InlineRenamed(ids, chars, link, a.curRef);
    InsertedAlike(ids, a, b, Op(Str(NodeText(n)), InlineAttrs(chars, link, SegmentOf(a.curRef))),
                  Op(Str(NodeText(n)), InlineAttrs(CharsRenamed(ids, chars), link, SegmentOf(b.curRef))));
  }

  lemma VerseWalkAlike(ids: Ids, cx: Context, a: Flow, b: Flow, attrs: Attrs)
    requires Generates(ids, cx) && Alike(ids, a, b)
    ensures Alike(ids, VerseInserted(cx, a, attrs), VerseInserted(cx, b, attrs))
  {
    var op, ref := Op(Embed(Verse, attrs, []), NO_ATTRS), VerseRef(cx.chapter, Get(attrs, "number"));
    SegmentEndedAlike(ids, a, b);
    assert OpRenamed(ids, op) == op;
    InsertedAlike(ids, a.(ops := SegmentEnded(a.ops, a.curRef)), b.(ops := SegmentEnded(b.ops, b.curRef)), op, op);
    assert ref[0] == 'v';
    OtherRefsStay(ids, ref);
  }

  lemma {:induction false} CharWalkAlike(ids: Ids, cx: Context, a: Flow, b: Flow, n: Node, chars: seq<Attrs>, inChar: bool)
    requires Generates(ids, cx) && Alike(ids, a, b) && NodeInline(n, inChar, false) && IsElement(n, Char)
    ensures Alike(ids, NodeWalked(cx, a, n, chars), NodeWalked(cx, b, n, CharsRenamed(ids, chars)))
    decreases n, 1
  {
    IdentifiedAlike(ids, cx, n.attrs, a.guids);
    CharsAppend(ids, chars, Identified(cx, n.attrs, a.guids));
    CharIsInside(cx, a, n, chars);
    CharIsInside(cx, b, n, CharsRenamed(ids, chars));
    InsideAlike(ids, cx, a.(guids := a.guids + 1), b.(guids := b.guids + 1), n.nodes, chars + [Identified(cx, n.attrs, a.guids)]);
  }

  // The walk inside a char element, whose formatting is chars.
  function Inside(cx: Context, fl: Flow, nodes: seq<Node>, chars: seq<Attrs>): Flow {
    if nodes == [] then fl.(ops := fl.ops + [EmptyOp(chars, fl.curRef)]) else Walked(cx, fl, nodes, chars)
  }

  lemma CharIsInside(cx: Context, fl: Flow, n: Node, chars: seq<Attrs>)
    requires IsElement(n, Char) && "cid" !in n.attrs
    ensures NodeWalked(cx, fl, n, chars)
         == Inside(cx, fl.(guids := fl.guids + 1), n.nodes, chars + [Identified(cx, n.attrs, fl.guids)])
  {
  }

  lemma {:induction false} InsideAlike(ids: Ids, cx: Context, a: Flow, b: Flow, nodes: seq<Node>, chars: seq<Attrs>)
    requires Generates(ids, cx) && Alike(ids, a, b) && Inline(nodes, true, false)
    ensures Alike(ids, Inside(cx, a, nodes, chars), Inside(cx, b, nodes, CharsRenamed(ids, chars)))
    decreases nodes, 1
  {
    if nodes == [] {
      EmptyAlike(ids, a, b, chars);
    } else {
      WalkAlike(ids, cx, a, b, nodes, chars, true);
    }
  }

  lemma CharsAppend(ids: Ids, chars: seq<Attrs>, a: Attrs)
    ensures CharsRenamed(ids, chars + [a]) == CharsRenamed(ids, chars) + [CharRenamed(ids, a)]
  {
  }

  lemma EmptyAlike(ids: Ids, a: Flow, b: Flow, chars: seq<Attrs>)
    requires Injective(ids.newGuid) && Alike(ids, a, b)
    ensures Alike(ids, a.(ops := a.ops + [EmptyOp(chars, a.curRef)]),
                  b.(ops := b.ops + [EmptyOp(CharsRenamed(ids, chars), b.curRef)]))
  {
    InlineRenamed(ids, chars, None, a.curRef);
    InsertedAlike(ids, a, b, EmptyOp(chars, a.curRef), EmptyOp(CharsRenamed(ids, chars), b.curRef));
  }

  lemma IdentifiedAlike(ids: Ids, cx: Context, attrs: Attrs, guids: nat)
    requires Generates(ids, cx) && "cid" !in attrs
    ensures CharRenamed(ids, Identified(cx, attrs, guids)) == Identified(cx, attrs, guids + ids.guids)
  {
    MovedName(ids.newGuid, Plus(ids.guids), guids);
  }

  lemma EmbedInserted(ids: Ids, a: Flow, b: Flow, tag: Tag, attrs: Attrs, contents: seq<Op>, chars: seq<Attrs>)
    requires Injective(ids.newGuid) && Alike(ids, a, b)
    ensures Alike(ids, a.(ops := a.ops + [Op(Embed(tag, attrs, contents), InlineAttrs(chars, None, SegmentOf(a.curRef)))]),
                  b.(ops := b.ops + [Op(Embed(tag, attrs, Renamed(ids, contents)),
                                        InlineAttrs(CharsRenamed(ids, chars), None, SegmentOf(b.curRef)))]))
  {
    InlineRenamed(ids, chars, None, a.curRef);
    InsertedAlike(ids, a, b, Op(Embed(tag, attrs, contents), InlineAttrs(chars, None, SegmentOf(a.curRef))),
                  Op(Embed(tag, attrs, Renamed(ids, contents)), InlineAttrs(CharsRenamed(ids, chars), None, SegmentOf(b.curRef))));
  }

  lemma {:induction false} EmbedWalkAlike(ids: Ids, cx: Context, a: Flow, b: Flow, n: Node, chars: seq<Attrs>)
    requires Generates(ids, cx) && Alike(ids, a, b)
    requires n.XElement? && IsEmbedTag(n.tag) && Inline(n.nodes, false, false)
    ensures Alike(ids, NodeWalked(cx, a, n, chars), NodeWalked(cx, b, n, CharsRenamed(ids, chars)))
    decreases n, 1
  {
    var cx1 := cx.(chapter := None);
    var in0, in1 := Nested([], a.guids), Nested([], b.guids);
    WalkAlike(ids, cx1, in0, in1, n.nodes, [], false);
    assert CharsRenamed(ids, []) == [];
    var c0, c1 := Walked(cx1, in0, n.nodes, []), Walked(cx1, in1, n.nodes, []);
    EmbedInserted(ids, a.(guids := c0.guids), b.(guids := c1.guids), n.tag, n.attrs, c0.ops, chars);
  }

  // ----- tables

  ghost predicate TablesAlike(ids: Ids, a: Flow, b: Flow) {
    Alike(ids, a, b) && b.tableIndex == a.tableIndex + ids.tables
  }

  lemma NamesAlike(ids: Ids, t: nat, r: nat, c: nat)
    ensures TableMoved(ids, TableId(t)) == TableId(t + ids.tables)
    ensures RowMoved(ids, RowId(t, r)) == RowId(t + ids.tables, r)
    ensures CellMoved(ids, CellRef(t, r, c)) == CellRef(t + ids.tables, r, c)
  {
    NamesDiffer();
    MovedName(TableId, Plus(ids.tables), t);
    MovedName(RowName, RowPlus(ids.tables), (t, r));
    MovedName(CellName, CellPlus(ids.tables), (t, r, c));
  }

  lemma CellEndRenamed(ids: Ids, attrs: Attrs, t: nat, r: nat, cell: Node)
    requires cell.XElement?
    ensures OpRenamed(ids, CellEnd(attrs["id" := TableId(t)], RowId(t, r), cell))
         == CellEnd(attrs["id" := TableId(t + ids.tables)], RowId(t + ids.tables, r), cell)
  {
    NamesAlike(ids, t, r, 0);
    var row := map["id" := RowId(t, r)];
    assert RowRenamed(ids, row) == map["id" := RowId(t + ids.tables, r)];
    assert TableRenamed(ids, attrs["id" := TableId(t)]) == attrs["id" := TableId(t + ids.tables)];
  }

  lemma {:induction false} CellsAlike(ids: Ids, cx: Context, a: Flow, b: Flow, nodes: seq<Node>, attrs: Attrs, r: nat, c: nat)
    requires Generates(ids, cx) && TablesAlike(ids, a, b) && RowOk(nodes)
    ensures var t, t1 := a.tableIndex, b.tableIndex;
            var a1 := CellsWalked(cx, a, nodes, attrs["id" := TableId(t)], RowId(t, r), r, c);
            TablesAlike(ids, a1, CellsWalked(cx, b, nodes, attrs["id" := TableId(t1)], RowId(t1, r), r, c))
            && a1.tableIndex == t
    decreases nodes
  {
    if nodes == [] {
    } else if nodes[0].XElement? {
      var a1, b1 := CellAlike(ids, cx, a, b, nodes[0], attrs, r, c);
      CellsAlike(ids, cx, a1, b1, nodes[1..], attrs, r, c + 1);
    } else {
      CellsAlike(ids, cx, a, b, nodes[1..], attrs, r, c);
    }
  }

  // The end of a cell, after its content.
  function CellClosed(fl: Flow, n: Node, attrs: Attrs, r: nat): Flow
    requires n.XElement?
  {
    fl.(ops := Inserted(SegmentEnded(fl.ops, fl.curRef),
                        CellEnd(attrs["id" := TableId(fl.tableIndex)], RowId(fl.tableIndex, r), n)))
  }

  lemma CellEndAlike(ids: Ids, a: Flow, b: Flow, n: Node, attrs: Attrs, r: nat)
    requires Injective(ids.newGuid) && TablesAlike(ids, a, b) && n.XElement?
    ensures TablesAlike(ids, CellClosed(a, n, attrs, r), CellClosed(b, n, attrs, r))
  {
    SegmentEndedAlike(ids, a, b);
    CellEndRenamed(ids, attrs, a.tableIndex, r, n);
    InsertedAlike(ids, a.(ops := SegmentEnded(a.ops, a.curRef)), b.(ops := SegmentEnded(b.ops, b.curRef)),
                  CellEnd(attrs["id" := TableId(a.tableIndex)], RowId(a.tableIndex, r), n),
                  CellEnd(attrs["id" := TableId(b.tableIndex)], RowId(b.tableIndex, r), n));
  }

  // The parse state after one cell.
  function CellWalked(cx: Context, fl: Flow, n: Node, attrs: Attrs, r: nat, c: nat): Flow
    requires n.XElement?
  {
    var fl1 := NodeWalked(cx, fl.(curRef := Some(CellRef(fl.tableIndex, r, c))), n, []);
    fl1.(ops := Inserted(SegmentEnded(fl1.ops, fl1.curRef),
                         CellEnd(attrs["id" := TableId(fl.tableIndex)], RowId(fl.tableIndex, r), n)))
  }

  lemma CellContentAlike(ids: Ids, cx: Context, a: Flow, b: Flow, n: Node)
    requires Generates(ids, cx) && TablesAlike(ids, a, b) && n.XElement? && CellOk(n)
    ensures var a1 := NodeWalked(cx, a, n, []);
            TablesAlike(ids, a1, NodeWalked(cx, b, n, [])) && a1.tableIndex == a.tableIndex
  {
    var nodes := if n.tag == Cell then n.nodes else [n];
    SingleNode(cx, a, n);
    SingleNode(cx, b, n);
    WalkAlike(ids, cx, a, b, nodes, [], false);
    assert CharsRenamed(ids, []) == [];
    WalkKeeps(cx, a, nodes, [], false);
    WalkKeeps(cx, b, nodes, [], false);
  }

  lemma CellAlike(ids: Ids, cx: Context, a: Flow, b: Flow, n: Node, attrs: Attrs, r: nat, c: nat) returns (a1: Flow, b1: Flow)
    requires Generates(ids, cx) && TablesAlike(ids, a, b) && n.XElement? && CellOk(n)
    ensures a1 == CellWalked(cx, a, n, attrs, r, c) && b1 == CellWalked(cx, b, n, attrs, r, c)
    ensures TablesAlike(ids, a1, b1) && a1.tableIndex == a.tableIndex
  {
    var a0, b0 := a.(curRef := Some(CellRef(a.tableIndex, r, c))), b.(curRef := Some(CellRef(b.tableIndex, r, c)));
    NamesAlike(ids, a.tableIndex, r, c);
    CellContentAlike(ids, cx, a0, b0, n);
    var a2, b2 := NodeWalked(cx, a0, n, []), NodeWalked(cx, b0, n, []);
    CellEndAlike(ids, a2, b2, n, attrs, r);
    a1, b1 := CellClosed(a2, n, attrs, r), CellClosed(b2, n, attrs, r);
  }

  lemma {:induction false} RowsAlike(ids: Ids, cx: Context, a: Flow, b: Flow, nodes: seq<Node>, attrs: Attrs, r: nat)
    requires Generates(ids, cx) && TablesAlike(ids, a, b) && TableOk(nodes)
    ensures TablesAlike(ids, RowsWalked(cx, a, nodes, attrs["id" := TableId(a.tableIndex)], r),
                        RowsWalked(cx, b, nodes, attrs["id" := TableId(b.tableIndex)], r))
    decreases nodes
  {
    if nodes == [] {
    } else if IsElement(nodes[0], Row) {
      CellsAlike(ids, cx, a, b, nodes[0].nodes, attrs, r, 1);
      var t, t1 := a.tableIndex, b.tableIndex;
      RowsAlike(ids, cx, CellsWalked(cx, a, nodes[0].nodes, attrs["id" := TableId(t)], RowId(t, r), r, 1),
                CellsWalked(cx, b, nodes[0].nodes, attrs["id" := TableId(t1)], RowId(t1, r), r, 1), nodes[1..], attrs, r + 1);
    } else {
      RowsAlike(ids, cx, a, b, nodes[1..], attrs, r);
    }
  }

  // ----- the children of the usx element

  /** A child whose own attributes cannot be taken for generated names. */
  predicate Renamable(n: Node) {
    if IsBlock(n) then ItemOk(Block(n)) && (n.tag in {Para, Book} ==> !("cell" <= OrEmpty(Get(n.attrs, "style"))))
    else NodeInline(n, false, false)
  }

  predicate AllRenamable(nodes: seq<Node>) {
    forall n :: n in nodes ==> Renamable(n)
  }

  // Between the children of the usx element, no reference is that of a cell.
  ghost predicate StatesAlike(ids: Ids, a: BookState, b: BookState) {
    && TablesAlike(ids, a.fl, b.fl) && !("cell" <= OrEmpty(a.fl.curRef))
    && b.nextIds == a.nextIds && b.curChapter == a.curChapter && b.implied == a.implied
  }

  lemma SameRef(ids: Ids, a: BookState, b: BookState)
    requires StatesAlike(ids, a, b)
    ensures b.fl.curRef == a.fl.curRef
  {
    if a.fl.curRef.Some? {
      OtherRefsStay(ids, a.fl.curRef.value);
    }
  }

  // What follows a slash or an underscore does not make a cell reference of a string.
  lemma NotCell(p: string, c: char, q: string)
    requires !("cell" <= p) && c !in "cell"
    ensures !("cell" <= p + [c] + q)
  {
    var s := p + [c] + q;
    assert s[|p|] == c && s[..|p|] == p;
  }

  lemma PrefixNotCell(p: string, i: nat)
    requires !("cell" <= p) && i <= |p|
    ensures !("cell" <= p[..i])
  {
  }

  /** A paragraph's reference is not that of a cell either. */
  lemma ParagraphRefNotCell(curRef: Option<string>, style: Option<string>, nextIds: map<string, nat>)
    requires !("cell" <= OrEmpty(curRef)) && !("cell" <= OrEmpty(style))
    ensures var parts := RefParts(curRef, style);
            parts.Some? ==> !("cell" <= ParagraphRef(nextIds, parts.value.0, parts.value.1))
  {
    var parts := RefParts(curRef, style);
    if parts.Some? {
      var (key, prefix) := parts.value;
      if CanContainVerseText(style) && curRef.Some? {
        var slash := IndexOf(curRef.value, '/');
        PrefixNotCell(curRef.value, if slash == -1 then |curRef.value| else slash);
        assert curRef.value[..|curRef.value|] == curRef.value;
        NotCell(key, '/', OrEmpty(style));
        assert prefix == key + ['/'] + OrEmpty(style);
      }
      NotCell(prefix, '_', Decimal(NextId(nextIds, key)));
      assert ParagraphRef(nextIds, key, prefix) == prefix + ['_'] + Decimal(NextId(nextIds, key));
    }
  }

  lemma {:induction false} InlineRefNotCell(cx: Context, fl: Flow, nodes: seq<Node>, chars: seq<Attrs>, inChar: bool)
    requires Inline(nodes, inChar, false) && !("cell" <= OrEmpty(fl.curRef))
    ensures !("cell" <= OrEmpty(Walked(cx, fl, nodes, chars).curRef))
    decreases nodes, 0
  {
    if nodes != [] {
      NodeRefNotCell(cx, fl, nodes[0], chars, inChar);
      InlineRefNotCell(cx, NodeWalked(cx, fl, nodes[0], chars), nodes[1..], chars, inChar);
    }
  }

  lemma {:induction false} NodeRefNotCell(cx: Context, fl: Flow, n: Node, chars: seq<Attrs>, inChar: bool)
    requires NodeInline(n, inChar, false) && !("cell" <= OrEmpty(fl.curRef))
    ensures !("cell" <= OrEmpty(NodeWalked(cx, fl, n, chars).curRef))
    decreases n, 1
  {
    if IsElement(n, Char) {
      InlineRefNotCell(cx, fl.(guids := fl.guids + 1), n.nodes, chars + [Identified(cx, n.attrs, fl.guids)], true);
    } else if IsElement(n, Verse) {
      assert VerseRef(cx.chapter, Get(n.attrs, "number"))[0] == 'v';
    }
  }

  lemma ImpliedAlike(ids: Ids, a: BookState, b: BookState)
    requires Injective(ids.newGuid) && StatesAlike(ids, a, b)
    ensures StatesAlike(ids, ImpliedEnded(a), ImpliedEnded(b))
  {
    if a.implied {
      SegmentEndedAlike(ids, a.fl, b.fl);
      assert OpRenamed(ids, NEWLINE) == NEWLINE;
      InsertedAlike(ids, a.fl.(ops := SegmentEnded(a.fl.ops, a.fl.curRef)), b.fl.(ops := SegmentEnded(b.fl.ops, b.fl.curRef)),
                    NEWLINE, NEWLINE);
    }
  }

  lemma ParaBodyAlike(ids: Ids, cx: Context, a: Flow, b: Flow, n: Node)
    requires Generates(ids, cx) && TablesAlike(ids, a, b) && !("cell" <= OrEmpty(a.curRef))
    requires n.XElement? && n.tag in {Para, Book} && Inline(n.nodes, false, false)
    ensures TablesAlike(ids, ParaBody(cx, a, n), ParaBody(cx, b, n)) && !("cell" <= OrEmpty(ParaBody(cx, a, n).curRef))
  {
    WalkAlike(ids, cx, a, b, n.nodes, [], false);
    assert CharsRenamed(ids, []) == [];
    WalkKeeps(cx, a, n.nodes, [], false);
    WalkKeeps(cx, b, n.nodes, [], false);
    InlineRefNotCell(cx, a, n.nodes, [], false);
    var a1, b1 := Walked(cx, a, n.nodes, []), Walked(cx, b, n.nodes, []);
    SegmentEndedAlike(ids, a1, b1);
    var bad := !CanContainVerseText(Get(n.attrs, "style")) && HasDescendant(n.nodes, Verse);
    var end := Op(Str("\n"), NO_ATTRS.(block := Some(BlockFormat(n.tag, n.attrs)), invalidBlock := bad));
    assert OpRenamed(ids, end) == end;
    InsertedAlike(ids, a1.(ops := SegmentEnded(a1.ops, a1.curRef)), b1.(ops := SegmentEnded(b1.ops, b1.curRef)), end, end);
  }

  lemma ParaStepAlike(ids: Ids, a: BookState, b: BookState, n: Node)
    requires Injective(ids.newGuid) && StatesAlike(ids, a, b)
    requires n.XElement? && n.tag in {Para, Book} && Renamable(n)
    ensures var a1, b1 := ParaStep(ids.newGuid, a, n), ParaStep(ids.newGuid, b, n);
            (a1.Some? <==> b1.Some?) && (a1.Some? ==> StatesAlike(ids, a1.value, b1.value))
  {
    ImpliedAlike(ids, a, b);
    var a0, b0 := ImpliedEnded(a), ImpliedEnded(b);
    SameRef(ids, a0, b0);
    var style := Get(n.attrs, "style");
    var parts := RefParts(a0.fl.curRef, style);
    if parts.Some? {
      ParagraphRefNotCell(a0.fl.curRef, style, a0.nextIds);
      var a1, b1 := WithRef(a0, parts.value.0, parts.value.1), WithRef(b0, parts.value.0, parts.value.1);
      OtherRefsStay(ids, a1.fl.curRef.value);
      ParaBodyAlike(ids, Context(ids.newGuid, a1.curChapter), a1.fl, b1.fl, n);
    }
  }

  // The step over one child keeps the two walks alike.
  ghost predicate StepsAlike(ids: Ids, a: BookState, b: BookState, root: RootNode, root1: RootNode) {
    var a1, b1 := RootStep(ids.newGuid, a, root), RootStep(ids.newGuid, b, root1);
    (a1.Some? <==> b1.Some?) && (a1.Some? ==> StatesAlike(ids, a1.value, b1.value))
  }

  lemma TableWalkAlike(ids: Ids, cx: Context, a: Flow, b: Flow, n: Node)
    requires Generates(ids, cx) && TablesAlike(ids, a, b) && IsElement(n, Table) && TableOk(n.nodes)
    ensures TablesAlike(ids, NodeWalked(cx, a, n, []), NodeWalked(cx, b, n, [])) && NodeWalked(cx, a, n, []).curRef.None?
  {
    RowsAlike(ids, cx, a.(tableIndex := a.tableIndex + 1), b.(tableIndex := b.tableIndex + 1), n.nodes, n.attrs, 1);
  }

  lemma TableStepAlike(ids: Ids, a: BookState, b: BookState, root: RootNode, root1: RootNode)
    requires Injective(ids.newGuid) && StatesAlike(ids, a, b) && root.node == root1.node
    requires IsElement(root.node, Table) && Renamable(root.node)
    ensures StepsAlike(ids, a, b, root, root1)
  {
    TableWalkAlike(ids, Context(ids.newGuid, a.curChapter), a.fl, b.fl, root.node);
  }

  lemma InlineStepAlike(ids: Ids, a: BookState, b: BookState, root: RootNode, root1: RootNode)
    requires Injective(ids.newGuid) && StatesAlike(ids, a, b) && root.node == root1.node
    requires NodeInline(root.node, false, false) && !IsBlock(root.node)
    ensures StepsAlike(ids, a, b, root, root1)
  {
    var n, cx := root.node, Context(ids.newGuid, a.curChapter);
    NodeWalkAlike(ids, cx, a.fl, b.fl, n, [], false);
    assert CharsRenamed(ids, []) == [];
    NodeWalkKeeps(cx, a.fl, n, [], false);
    NodeWalkKeeps(cx, b.fl, n, [], false);
    NodeRefNotCell(cx, a.fl, n, [], false);
    var va := InlineRootStep(ids.newGuid, a, root);
    var vb := InlineRootStep(ids.newGuid, b, root1);
  }

  lemma MarkAlike(ids: Ids, a: Flow, b: Flow, attrs: Attrs)
    requires Injective(ids.newGuid) && Alike(ids, a, b)
    ensures Alike(ids, a.(ops := a.ops + [ChapterOp(attrs)]), b.(ops := b.ops + [ChapterOp(attrs)]))
  {
    assert OpRenamed(ids, ChapterOp(attrs)) == ChapterOp(attrs);
    InsertedAlike(ids, a, b, ChapterOp(attrs), ChapterOp(attrs));
  }

  lemma ChapterStepAlike(ids: Ids, a: BookState, b: BookState, root: RootNode, root1: RootNode)
    requires Injective(ids.newGuid) && StatesAlike(ids, a, b) && root.node == root1.node
    requires IsElement(root.node, Chapter) && a.curChapter.None?
    ensures StepsAlike(ids, a, b, root, root1)
  {
    MarkAlike(ids, a.fl, b.fl, root.node.attrs);
  }

  lemma ParaRootAlike(ids: Ids, a: BookState, b: BookState, root: RootNode, root1: RootNode)
    requires Injective(ids.newGuid) && StatesAlike(ids, a, b) && root.node == root1.node
    requires root.node.XElement? && root.node.tag in {Para, Book} && Renamable(root.node)
    ensures StepsAlike(ids, a, b, root, root1)
  {
    if root.node.tag == Para {
      ParaStepAlike(ids, a, b, root.node);
    } else {
      ParaStepAlike(ids, a.(bookIsValid := root.schemaValid), b.(bookIsValid := root1.schemaValid), root.node);
    }
  }

  /** One child after another keeps the two walks alike, whatever the schema validator says of each. */
  lemma RootStepAlike(ids: Ids, a: BookState, b: BookState, root: RootNode, root1: RootNode)
    requires Injective(ids.newGuid) && StatesAlike(ids, a, b) && root.node == root1.node
    requires Renamable(root.node) && (IsElement(root.node, Chapter) ==> a.curChapter.None?)
    ensures StepsAlike(ids, a, b, root, root1)
  {
    var n := root.node;
    if !IsBlock(n) {
      InlineStepAlike(ids, a, b, root, root1);
    } else if n.tag == Table {
      TableStepAlike(ids, a, b, root, root1);
    } else if n.tag == Chapter {
      ChapterStepAlike(ids, a, b, root, root1);
    } else {
      ParaRootAlike(ids, a, b, root, root1);
    }
  }

  lemma {:induction false} BookWalkAlike(ids: Ids, newGuid: nat -> string, a: BookState, b: BookState,
                                         roots: seq<RootNode>, roots1: seq<RootNode>, seen: bool)
    requires newGuid == ids.newGuid && Injective(newGuid) && StatesAlike(ids, a, b)
    requires NodesOf(roots) == NodesOf(roots1) && AllRenamable(NodesOf(roots))
    requires Marks(NodesOf(roots)) + (if seen then 1 else 0) <= 1 && (!seen ==> a.curChapter.None?)
    ensures var a1, b1 := BookWalked(newGuid, a, roots), BookWalked(newGuid, b, roots1);
            (a1.Some? <==> b1.Some?) && (a1.Some? ==> StatesAlike(ids, a1.value, b1.value))
    decreases roots
  {
    if roots != [] {
      assert NodesOf(roots)[0] in NodesOf(roots);
      assert NodesOf(roots)[1..] == NodesOf(roots[1..]) && NodesOf(roots1)[1..] == NodesOf(roots1[1..]);
      RootStepAlike(ids, a, b, roots[0], roots1[0]);
      var a1, b1 := RootStep(newGuid, a, roots[0]), RootStep(newGuid, b, roots1[0]);
      if a1.Some? {
        RootStepChapter(newGuid, a, roots[0]);
        BookWalkAlike(ids, newGuid, a1.value, b1.value, roots[1..], roots1[1..], seen || IsElement(roots[0].node, Chapter));
      }
    }
  }

  // ----- the Delta of a chapter

  function Checked(nodes: seq<Node>): (roots: seq<RootNode>)
    ensures NodesOf(roots) == nodes
  {
    if nodes == [] then [] else [RootNode(nodes[0], true)] + Checked(nodes[1..])
  }

  /** The Delta of a chapter that nothing was walked before. */
  function ChapterOps(newGuid: nat -> string, chapter: seq<Node>): Option<seq<Op>> {
    match BookWalked(newGuid, Start(0), Checked(chapter))
    case None => None
    case Some(st) => Some(ImpliedEnded(st).fl.ops)
  }

  /** A Delta that differs from its chapter's own only in what generated names it has. */
  ghost predicate IsDeltaOf(newGuid: nat -> string, ops: seq<Op>, chapter: seq<Node>) {
    exists g, t :: ChapterOps(newGuid, chapter).Some? && ops == Renamed(Ids(newGuid, g, t), ChapterOps(newGuid, chapter).value)
  }

  lemma DeltasOfOneChapter(newGuid: nat -> string, a: seq<Op>, b: seq<Op>, chapter: seq<Node>)
    requires IsDeltaOf(newGuid, a, chapter) && IsDeltaOf(newGuid, b, chapter)
    ensures SameUpToIds(newGuid, a, b)
  {
    var ops := ChapterOps(newGuid, chapter).value;
    var g, t :| a == Renamed(Ids(newGuid, g, t), ops);
    var g1, t1 :| b == Renamed(Ids(newGuid, g1, t1), ops);
    assert a == Renamed(Ids(newGuid, g, t), ops) && b == Renamed(Ids(newGuid, g1, t1), ops);
  }

  /** Wherever in a book a chapter stands, its Delta is its own up to generated names. */
  lemma StretchIsChapter(newGuid: nat -> string, start: BookState, stretch: seq<RootNode>, st: BookState)
    requires Injective(newGuid) && start.fl.ops == [] && !start.implied && start.curChapter.None? && start.nextIds == map[]
    requires start.fl.curRef.None? || (stretch != [] && IsElement(stretch[0].node, Chapter))
    requires BookWalked(newGuid, start, stretch) == Some(st)
    requires Marks(NodesOf(stretch)) <= 1 && AllRenamable(NodesOf(stretch))
    ensures IsDeltaOf(newGuid, ImpliedEnded(st).fl.ops, NodesOf(stretch))
  {
    var ids := Ids(newGuid, start.fl.guids, start.fl.tableIndex);
    var begin, roots := start.(fl := start.fl.(curRef := None)), Checked(NodesOf(stretch));
    assert BookWalked(newGuid, begin, stretch) == Some(st);
    assert Renamed(ids, []) == [];
    BookWalkAlike(ids, newGuid, Start(0), begin, roots, stretch, false);
    ImpliedAlike(ids, BookWalked(newGuid, Start(0), roots).value, st);
    assert ImpliedEnded(st).fl.ops == Renamed(Ids(newGuid, ids.guids, ids.tables), ChapterOps(newGuid, NodesOf(stretch)).value);
  }
}
