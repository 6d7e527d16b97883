/** Rebuilding chapters: paragraphs, implied paragraphs, tables and chapter marks, in any order the domain allows. */
module BookRoundTrip {
  import opened Text
  import opened Usx
  import opened RichText
  import opened DeltaParser
  import opened DeltaBuilder
  import opened NormalForm
  import opened CharMarks
  import opened InlineRoundTrip
  import opened BookDomain
  import opened TableRoundTrip

  // ----- paragraphs

  /** The newline of a paragraph ends an open table, and takes what was collected since. */
  lemma ParaNewline(m: Machine, top: seq<Node>, a: OpAttrs, tag: Tag, attrs: Attrs) returns (m2: Machine)
    requires Idle(m) && CleanAttrs(attrs) && (tag == Para || tag == Book)
    requires a == NO_ATTRS.(block := Some(BlockFormat(tag, attrs)), invalidBlock := a.invalidBlock)
    ensures TextStep(TopAdded(m, top), "\n", a) == Some(m2)
    ensures m2 == Machine(Output(m) + [XElement(tag, attrs, top)], [], [[]], None, None)
  {
    var ended := Machine(Output(m), [], [top], None, None);
    if m.table.Some? {
      TableBeforePara(m, top);
    } else {
      TopOfClosed(m, top);
    }
    m2 := BlockTaken(ended, a, tag, attrs);
  }

  /** Without an open table, what is added stands alone. */
  lemma TopOfClosed(m: Machine, top: seq<Node>)
    requires Idle(m) && m.table.None?
    ensures TopAdded(m, top) == Machine(Output(m), [], [top], None, None)
  {
    OutputClosed(m);
    assert [] + top == top;
    assert TopAdded(m, top).stack == [top];
  }

  lemma OutputClosed(m: Machine)
    requires Idle(m) && m.table.None?
    ensures Output(m) == m.content
  {
    assert m.content + [] == m.content;
  }

  lemma BlockTaken(m: Machine, a: OpAttrs, tag: Tag, attrs: Attrs) returns (m2: Machine)
    requires |m.stack| == 1 && CleanAttrs(attrs) && (tag == Para || tag == Book)
    requires a == NO_ATTRS.(block := Some(BlockFormat(tag, attrs)), invalidBlock := a.invalidBlock)
    ensures AttributedTextAdded(m, "\n", a) == m2
    ensures m2 == m.(content := m.content + [XElement(tag, attrs, m.stack[0])], stack := [[]])
  {
    var element := XElement(tag, attrs, m.stack[0]);
    assert Visible(attrs) == attrs;
    assert Repeated(|"\n"|, element) == [element];
    m2 := m.(content := m.content + [element], stack := [[]]);
    assert TopCleared(m).stack == [[]];
  }

  lemma TableBeforePara(m: Machine, top: seq<Node>)
    requires Idle(m) && m.table.Some?
    ensures TableClosed(TopAdded(m, top)) == Some(Machine(Output(m), [], [top], None, None))
  {
    TopOfIdle(m, top);
    var t := TopAdded(m, top);
    assert t.stack == [m.stack[0], m.stack[1], top];
    var rows := m.stack[0] + [RowElement(m.stack[1])];
    assert RowEnded(t).value.0.stack == [rows];
    var ended := TableEnded(RowEnded(t).value.0);
    assert ended == Machine(Output(m), [], [[]], None, None);
    OutputClosed(ended);
    TopOfClosed(ended, top);
  }

  lemma ParaBodyRebuilt(cx: Context, fl: Flow, n: Node, m: Machine) returns (m2: Machine)
    requires Injective(cx.newGuid) && (IsElement(n, Para) || IsElement(n, Book)) && ItemOk(Block(n))
    requires Read(fl.ops, m) && BlockEnd(fl.ops) && Idle(m) && fl.curRef.Some?
    ensures var fl1 := ParaBody(cx, fl, n);
            && Read(fl1.ops, m2) && StrictEnd(fl1.ops) && fl1.tableIndex == fl.tableIndex
            && m2 == Machine(Output(m) + ItemNorm(Block(n)), [], [[]], None, None)
  {
    var fl1 := Walked(cx, fl, n.nodes, []);
    var m1 := ContentRebuilt(cx, fl, n.nodes, m);
    var bad := !CanContainVerseText(Get(n.attrs, "style")) && HasDescendant(n.nodes, Verse);
    var end := Op(Str("\n"), NO_ATTRS.(block := Some(BlockFormat(n.tag, n.attrs)), invalidBlock := bad));
    m2 := ParaNewline(m, Norm(n.nodes), end.attrs, n.tag, n.attrs);
    PlainNewlineStep(m1, end);
    BlockNewlineRead(SegmentEnded(fl1.ops, fl1.curRef), end, m1, m2);
  }

  lemma PlainNewlineStep(m: Machine, end: Op)
    requires Shape(m) && end.insert == Str("\n") && end.attrs.chars.None?
    ensures Step(m, end) == TextStep(Settled(m, []), "\n", end.attrs)
  {
  }

  // ----- implied paragraphs

  // A newline without attributes that joins the last text leaves one line.
  predicate OneLine(ops: seq<Op>) {
    ops != [] && Last(ops).insert.Str? && Last(ops).attrs == NO_ATTRS ==>
      Last(ops).insert.text != "" && '\n' !in Last(ops).insert.text
  }

  lemma {:induction false} OneLineText(s: string)
    requires '\n' !in s
    ensures WithoutNewlines(s + "\n") == s
  {
    if s == "" {
      assert WithoutNewlines("\n") == [] + WithoutNewlines("\n"[1..]);
    } else {
      assert (s + "\n")[1..] == s[1..] + "\n";
      OneLineText(s[1..]);
    }
  }

  /** The newline of an implied paragraph moves what was collected to the output. */
  lemma ImpliedEndRead(ops: seq<Op>, ref: Option<string>, m: Machine, out: seq<Node>, top: seq<Node>) returns (m1: Machine)
    requires Read(ops, m) && OneLine(ops) && Settled(m, []) == Machine(out, [], [top], None, None)
    ensures var ops1 := Inserted(SegmentEnded(ops, ref), NEWLINE);
            Read(ops1, m1) && BlockEnd(ops1)
    ensures m1 == Machine(out + top, [], [[]], None, None)
  {
    m1 := Machine(out + top, [], [[]], None, None);
    NewlineInserted(ops, ref);
    if ops != [] && Joins(Last(ops), NEWLINE) {
      JoinedNewlineRead(ops, m, m1);
    } else {
      var m0 := SegmentEndedAppended(ops, ref, m);
      ImpliedNewlineStep(m0, out, top);
      ReadMore(SegmentEnded(ops, ref), NEWLINE, m0, m1);
    }
  }

  lemma NewlineInserted(ops: seq<Op>, ref: Option<string>)
    requires OneLine(ops)
    ensures var ended := SegmentEnded(ops, ref);
            if ops != [] && Joins(Last(ops), NEWLINE) then ended == ops
            else Inserted(ended, NEWLINE) == ended + [NEWLINE]
    ensures BlockEnd(Inserted(SegmentEnded(ops, ref), NEWLINE))
  {
  }

  lemma ImpliedNewlineStep(m: Machine, out: seq<Node>, top: seq<Node>)
    requires Shape(m) && Settled(m, []) == Machine(out, [], [top], None, None)
    ensures Step(m, NEWLINE) == Some(Machine(out + top, [], [[]], None, None))
  {
    PlainNewlineStep(m, NEWLINE);
    assert DropLast([top]) + [[]] == [[]];
  }

  lemma JoinedNewlineRead(ops: seq<Op>, m: Machine, m1: Machine)
    requires Read(ops, m) && OneLine(ops) && ops != [] && Joins(Last(ops), NEWLINE) && m.table.None?
    requires m1 == BlockEnded(Settled(m, [])) && m1.stack == [[]] && m1.cur == []
    ensures Read(Inserted(ops, NEWLINE), m1)
  {
    var text := Last(ops).insert.text;
    OneLineText(text);
    SettledAlready(m);
    assert ops[..|ops| - 1] == DropLast(ops);
    var before := Run(INITIAL, DropLast(ops)).value;
    assert Step(before, Last(ops)) == Some(m);
    var s := Synced(before, []).value;
    assert Last(text) in text;
    assert m == TopAdded(s, [XText(text)]);
    var joined := DropLast(ops) + [Op(Str(text + "\n"), NO_ATTRS)];
    assert joined[..|joined| - 1] == DropLast(ops);
    assert Step(before, Last(joined)) == Some(BlockEnded(m));
  }

  // ----- runs of root nodes

  function NodesOf(roots: seq<RootNode>): (nodes: seq<Node>)
    ensures |nodes| == |roots|
    ensures forall i :: 0 <= i < |roots| ==> nodes[i] == roots[i].node
  {
    if roots == [] then [] else [roots[0].node] + NodesOf(roots[1..])
  }

  lemma {:induction false} BookWalkedTwice(newGuid: nat -> string, st: BookState, a: seq<RootNode>, b: seq<RootNode>)
    ensures var st1 := BookWalked(newGuid, st, a);
            BookWalked(newGuid, st, a + b) == if st1.None? then None else BookWalked(newGuid, st1.value, b)
    decreases a
  {
    if a == [] {
      assert a + b == b;
    } else {
      assert (a + b)[0] == a[0] && (a + b)[1..] == a[1..] + b;
      var st1 := RootStep(newGuid, st, a[0]);
      if st1.Some? {
        BookWalkedTwice(newGuid, st1.value, a[1..], b);
      }
    }
  }

  lemma {:induction false} WalkIgnoresValid(cx: Context, fl: Flow, nodes: seq<Node>, chars: seq<Attrs>, inChar: bool, v: bool)
    requires Inline(nodes, inChar, false)
    ensures Walked(cx, fl.(valid := v), nodes, chars) == Walked(cx, fl, nodes, chars).(valid := v)
    decreases nodes, 0
  {
    if nodes != [] {
      if IsElement(nodes[0], Char) {
        WalkIgnoresValid(cx, fl.(guids := fl.guids + 1), nodes[0].nodes,
          chars + [Identified(cx, nodes[0].attrs, fl.guids)], true, v);
      }
      WalkIgnoresValid(cx, NodeWalked(cx, fl, nodes[0], chars), nodes[1..], chars, inChar, v);
    }
  }

  /** A run of inline nodes below the usx element is walked like the content of a paragraph. */
  lemma {:induction false} ImpliedWalked(newGuid: nat -> string, st: BookState, roots: seq<RootNode>)
    requires Inline(NodesOf(roots), false, false) && forall n :: n in NodesOf(roots) ==> !IsBlock(n)
    ensures var st1 := BookWalked(newGuid, st, roots);
            var fl := Walked(Context(newGuid, st.curChapter), st.fl, NodesOf(roots), []);
            && st1.Some?
            && st1.value == st.(fl := fl.(valid := st1.value.fl.valid), implied := st.implied || Triggered(NodesOf(roots)))
    decreases roots
  {
    var nodes := NodesOf(roots);
    if roots != [] {
      var fl0 := NodeWalked(Context(newGuid, st.curChapter), st.fl, nodes[0], []);
      assert nodes[0] in nodes;
      var v := InlineRootStep(newGuid, st, roots[0]);
      ImpliedWalked(newGuid, st.(fl := fl0.(valid := v), implied := st.implied || StartsImplied(nodes[0])), roots[1..]);
      WalkIgnoresValid(Context(newGuid, st.curChapter), fl0, nodes[1..], [], false, v);
      TriggeredStep(nodes);
    }
  }

  lemma InlineRootStep(newGuid: nat -> string, st: BookState, root: RootNode) returns (v: bool)
    requires NodeInline(root.node, false, false) && !IsBlock(root.node)
    ensures var fl0 := NodeWalked(Context(newGuid, st.curChapter), st.fl, root.node, []);
            RootStep(newGuid, st, root)
              == Some(st.(fl := fl0.(valid := v), implied := st.implied || StartsImplied(root.node)))
  {
    v := NodeWalked(Context(newGuid, st.curChapter), st.fl, root.node, []).valid && (root.node.XText? || root.schemaValid);
  }

  lemma TriggeredStep(nodes: seq<Node>)
    requires nodes != []
    ensures Triggered(nodes) <==> StartsImplied(nodes[0]) || Triggered(nodes[1..])
  {
    if Triggered(nodes[1..]) {
      var i :| 0 <= i < |nodes[1..]| && StartsImplied(nodes[1..][i]);
      assert StartsImplied(nodes[i + 1]);
    }
    if Triggered(nodes) && !StartsImplied(nodes[0]) {
      var i :| 0 <= i < |nodes| && StartsImplied(nodes[i]);
      assert StartsImplied(nodes[1..][i - 1]);
    }
  }

  // ----- one child of the usx element after another

  // The parser stands between two blocks, the machine has read what it wrote, and table k, row r is open if any is.
  predicate AfterBlock(st: BookState, m: Machine, k: nat, r: nat) {
    && !st.implied && Read(st.fl.ops, m) && StrictEnd(st.fl.ops)
    && Idle(m) && OpenAt(m, k, r) && k <= st.fl.tableIndex
  }

  predicate IsParaNode(n: Node) {
    IsElement(n, Para) || IsElement(n, Book)
  }

  /** A paragraph, given where the machine is once an implied paragraph before it has ended. */
  lemma ParaStepRebuilt(newGuid: nat -> string, st: BookState, n: Node, st1: BookState, m: Machine)
      returns (m1: Machine)
    requires Injective(newGuid) && IsParaNode(n) && ItemOk(Block(n)) && ParaStep(newGuid, st, n) == Some(st1)
    requires var fl := ImpliedEnded(st).fl; Read(fl.ops, m) && BlockEnd(fl.ops) && Idle(m)
    ensures AfterBlock(st1, m1, 0, 0) && Output(m1) == Output(m) + ItemNorm(Block(n)) && m1.table.None?
    ensures st1.curChapter == st.curChapter
  {
    var st0 := ImpliedEnded(st);
    var parts := RefParts(st0.fl.curRef, Get(n.attrs, "style")).value;
    var st2 := WithRef(st0, parts.0, parts.1);
    m1 := ParaBodyRebuilt(Context(newGuid, st2.curChapter), st2.fl, n, m);
    assert Output(m) + ItemNorm(Block(n)) + [] == Output(m) + ItemNorm(Block(n));
  }

  lemma OpenTableDropped(m: Machine)
    requires Idle(m)
    ensures TableDropped(m) == Some(Machine(Output(m), [], [[]], None, None))
  {
    if m.table.Some? {
      var rows := m.stack[0] + [RowElement(m.stack[1])];
      assert RowEnded(m).value.0.stack == [rows];
      assert DropLast([rows]) + [[]] == [[]];
    } else {
      OutputClosed(m);
    }
  }

  /** A chapter mark after blocks ends an open table. */
  lemma ChapterRebuilt(st: BookState, attrs: Attrs, nodes: seq<Node>, m: Machine, k: nat, r: nat) returns (m1: Machine)
    requires AfterBlock(st, m, k, r) && st.curChapter.None? && CleanAttrs(attrs)
    ensures AfterBlock(ChapterStep(st, attrs), m1, 0, 0) && m1.table.None?
    ensures Output(m1) == Output(m) + [XElement(Chapter, attrs, [])]
  {
    SettledAlready(m);
    assert Visible(attrs) == attrs;
    m1 := Machine(Output(m) + [XElement(Chapter, attrs, [])], [], [[]], None, None);
    assert m.content + [] == m.content;
    assert Step(m, ChapterOp(attrs)) == EmbedStep(m, Chapter, attrs, []);
    OpenTableDropped(m);
    ReadMore(st.fl.ops, ChapterOp(attrs), m, m1);
    assert Output(m1) == m1.content;
  }

  lemma TableStepRebuilt(newGuid: nat -> string, st: BookState, root: RootNode, st1: BookState, m: Machine, k: nat, r: nat)
      returns (m1: Machine, k1: nat, r1: nat)
    requires Injective(newGuid) && IsElement(root.node, Table) && ItemOk(Block(root.node)) && AfterBlock(st, m, k, r)
    requires RootStep(newGuid, st, root) == Some(st1)
    ensures AfterBlock(st1, m1, k1, r1) && Output(m1) == Output(m) + ItemNorm(Block(root.node))
    ensures st1.curChapter == st.curChapter
  {
    m1, k1, r1 := TableRebuilt(Context(newGuid, st.curChapter), st.fl, root.node, m, k, r);
  }

  /** One block after another. */
  lemma BlockRebuilt(newGuid: nat -> string, st: BookState, root: RootNode, st1: BookState, m: Machine, k: nat, r: nat)
      returns (m1: Machine, k1: nat, r1: nat)
    requires Injective(newGuid) && IsBlock(root.node) && ItemOk(Block(root.node)) && AfterBlock(st, m, k, r)
    requires RootStep(newGuid, st, root) == Some(st1)
    requires IsElement(root.node, Chapter) ==> st.curChapter.None?
    ensures AfterBlock(st1, m1, k1, r1) && Output(m1) == Output(m) + ItemNorm(Block(root.node))
    ensures !IsElement(root.node, Table) ==> m1.table.None?
    ensures !IsElement(root.node, Chapter) ==> st1.curChapter == st.curChapter
  {
    var n := root.node;
    if n.tag == Table {
      m1, k1, r1 := TableStepRebuilt(newGuid, st, root, st1, m, k, r);
    } else if n.tag == Chapter {
      k1, r1 := 0, 0;
      m1 := ChapterRebuilt(st, n.attrs, n.nodes, m, k, r);
    } else {
      k1, r1 := 0, 0;
      var st0 := if n.tag == Book then st.(bookIsValid := root.schemaValid) else st;
      var st2 := ParaStep(newGuid, st0, n).value;
      m1 := ParaStepRebuilt(newGuid, st0, n, st2, m);
    }
  }

  // ----- a chapter's worth of children

  // At most one chapter mark, and none if one was seen.
  predicate OneChapter(items: seq<Item>, seen: bool) {
    items == [] ||
    if items[0].Block? && IsElement(items[0].node, Chapter) then !seen && OneChapter(items[1..], true)
    else OneChapter(items[1..], seen)
  }

  lemma IdleFinished(ops: seq<Op>, m: Machine)
    requires Read(ops, m) && Idle(m)
    ensures Rebuilt(ops) == Some(Output(m))
  {
    OpenTableDropped(m);
    assert Output(m) + [] == Output(m);
  }

  lemma UnfinishedFinished(ops: seq<Op>, m: Machine, out: seq<Node>, top: seq<Node>)
    requires Read(ops, m) && Settled(m, []) == Machine(out, [], [top], None, None)
    ensures Rebuilt(ops) == Some(out + top)
  {
    ClosedShape(m, []);
    assert Opened(Closed(m, []).value, []) == Closed(m, []).value;
  }

  // The walk over an implied paragraph after a block, and where that leaves the machine.
  lemma ImpliedRebuilt(newGuid: nat -> string, st: BookState, roots: seq<RootNode>, m: Machine) returns (st1: BookState, m1: Machine)
    requires Injective(newGuid) && ItemOk(Implied(NodesOf(roots))) && !st.implied
    requires Read(st.fl.ops, m) && StrictEnd(st.fl.ops) && Idle(m) && m.table.None?
    ensures BookWalked(newGuid, st, roots) == Some(st1) && st1.curChapter == st.curChapter
    ensures Read(st1.fl.ops, m1) && OneLine(st1.fl.ops) && st1.implied == Triggered(NodesOf(roots))
    ensures Settled(m1, []) == Machine(Output(m), [], [Norm(NodesOf(roots))], None, None)
  {
    ImpliedWalked(newGuid, st, roots);
    st1 := BookWalked(newGuid, st, roots).value;
    m1 := RunRebuilt(Context(newGuid, st.curChapter), st.fl, NodesOf(roots), m);
  }

  lemma RunRebuilt(cx: Context, fl: Flow, nodes: seq<Node>, m: Machine) returns (m1: Machine)
    requires Injective(cx.newGuid) && Inline(nodes, false, false)
    requires Read(fl.ops, m) && StrictEnd(fl.ops) && Idle(m) && m.table.None?
    ensures var ops := Walked(cx, fl, nodes, []).ops; Read(ops, m1) && OneLine(ops)
    ensures Settled(m1, []) == Machine(Output(m), [], [Norm(nodes)], None, None)
  {
    m1 := InlineRebuilt(cx, fl, nodes, m);
    SettledAlready(m);
    TopOfClosed(m, Norm(nodes));
  }

  /**
   * What a stretch of the book with at most one chapter mark leaves in the Delta rebuilds to the output
   * so far followed by the stretch's normal form.
   */
  lemma {:induction false} ItemsRebuilt(newGuid: nat -> string, st: BookState, roots: seq<RootNode>, items: seq<Item>,
                                        m: Machine, k: nat, r: nat, seen: bool, st1: BookState)
    requires Injective(newGuid) && ItemsOk(items) && Ungrouped(items) == NodesOf(roots)
    requires OneChapter(items, seen) && (!seen ==> st.curChapter.None?)
    requires AfterBlock(st, m, k, r) && (items != [] && items[0].Implied? ==> m.table.None?)
    requires BookWalked(newGuid, st, roots) == Some(st1)
    ensures Rebuilt(ImpliedEnded(st1).fl.ops) == Some(Output(m) + BookNorm(items))
    decreases |items|, 2
  {
    if items == [] {
      IdleFinished(st.fl.ops, m);
      assert Output(m) + [] == Output(m);
    } else if items[0].Block? {
      var st2 := RootStep(newGuid, st, roots[0]).value;
      var m2, k2, r2 := BlockRebuilt(newGuid, st, roots[0], st2, m, k, r);
      ItemsRebuilt(newGuid, st2, roots[1..], items[1..], m2, k2, r2, seen || IsElement(roots[0].node, Chapter), st1);
      PlusAssoc(Output(m), ItemNorm(items[0]), BookNorm(items[1..]));
    } else {
      ImpliedThenRebuilt(newGuid, st, roots, items, m, seen, st1);
    }
  }

  lemma {:induction false} ImpliedThenRebuilt(newGuid: nat -> string, st: BookState, roots: seq<RootNode>, items: seq<Item>,
                                              m: Machine, seen: bool, st1: BookState)
    requires Injective(newGuid) && ItemsOk(items) && Ungrouped(items) == NodesOf(roots)
    requires OneChapter(items, seen) && (!seen ==> st.curChapter.None?)
    requires AfterBlock(st, m, 0, 0) && items != [] && items[0].Implied? && m.table.None?
    requires BookWalked(newGuid, st, roots) == Some(st1)
    ensures Rebuilt(ImpliedEnded(st1).fl.ops) == Some(Output(m) + BookNorm(items))
    decreases |items|, 1
  {
    var run, rest := SplitRun(roots, items);
    BookWalkedTwice(newGuid, st, run, rest);
    var st2, m2 := ImpliedRebuilt(newGuid, st, run, m);
    var out, top := Output(m), Norm(items[0].nodes);
    var m3 := ImpliedEndRead(st2.fl.ops, st2.fl.curRef, m2, out, top);
    PlusAssoc(out, top, BookNorm(items[1..]));
    PlusNothing(out + top);
    if rest == [] {
      if st2.implied {
        IdleFinished(ImpliedEnded(st2).fl.ops, m3);
      } else {
        UnfinishedFinished(st2.fl.ops, m2, out, top);
      }
    } else {
      ParagraphAfterImplied(newGuid, st2, rest, items[1..], m3, seen, st1);
    }
  }

  lemma SplitRun(roots: seq<RootNode>, items: seq<Item>) returns (run: seq<RootNode>, rest: seq<RootNode>)
    requires ItemsOk(items) && Ungrouped(items) == NodesOf(roots) && items != [] && items[0].Implied?
    ensures roots == run + rest && NodesOf(run) == items[0].nodes && NodesOf(rest) == Ungrouped(items[1..])
    ensures rest == [] <==> items[1..] == []
  {
    var n := |items[0].nodes|;
    run, rest := roots[..n], roots[n..];
    SplitNodes(roots, items[0].nodes, Ungrouped(items[1..]));
    UngroupedEmpty(items[1..]);
  }

  lemma SplitNodes(roots: seq<RootNode>, a: seq<Node>, b: seq<Node>)
    requires NodesOf(roots) == a + b
    ensures |a| <= |roots| && roots == roots[..|a|] + roots[|a|..]
    ensures NodesOf(roots[..|a|]) == a && NodesOf(roots[|a|..]) == b
  {
    NodesOfSplit(roots, |a|);
    assert (a + b)[..|a|] == a && (a + b)[|a|..] == b;
  }

  lemma UngroupedEmpty(items: seq<Item>)
    requires ItemsOk(items)
    ensures Ungrouped(items) == [] <==> items == []
  {
  }

  lemma {:induction false} ParagraphAfterImplied(newGuid: nat -> string, st: BookState, roots: seq<RootNode>, items: seq<Item>,
                                                 m: Machine, seen: bool, st1: BookState)
    requires Injective(newGuid) && ItemsOk(items) && Ungrouped(items) == NodesOf(roots)
    requires OneChapter(items, seen) && (!seen ==> st.curChapter.None?)
    requires items != [] && IsParagraph(items[0]) && st.implied
    requires Read(ImpliedEnded(st).fl.ops, m) && BlockEnd(ImpliedEnded(st).fl.ops) && Idle(m)
    requires BookWalked(newGuid, st, roots) == Some(st1)
    ensures Rebuilt(ImpliedEnded(st1).fl.ops) == Some(Output(m) + BookNorm(items))
    decreases |items|, 1
  {
    var n := roots[0].node;
    var st0 := if n.tag == Book then st.(bookIsValid := roots[0].schemaValid) else st;
    var st2 := RootStep(newGuid, st, roots[0]).value;
    var m2 := ParaStepRebuilt(newGuid, st0, n, ParaStep(newGuid, st0, n).value, m);
    ItemsRebuilt(newGuid, st2, roots[1..], items[1..], m2, 0, 0, seen, st1);
    PlusAssoc(Output(m), ItemNorm(items[0]), BookNorm(items[1..]));
  }

  lemma {:induction false} NodesOfSplit(roots: seq<RootNode>, n: nat)
    requires n <= |roots|
    ensures NodesOf(roots[..n]) == NodesOf(roots)[..n] && NodesOf(roots[n..]) == NodesOf(roots)[n..]
  {
  }

  // ----- chapter marks

  function Marks(nodes: seq<Node>): nat {
    if nodes == [] then 0 else (if IsElement(nodes[0], Chapter) then 1 else 0) + Marks(nodes[1..])
  }

  lemma {:induction false} MarksAppend(a: seq<Node>, b: seq<Node>)
    ensures Marks(a + b) == Marks(a) + Marks(b)
  {
    if a == [] {
      assert a + b == b;
    } else {
      assert (a + b)[1..] == a[1..] + b;
      MarksAppend(a[1..], b);
    }
  }

  lemma RootStepChapter(newGuid: nat -> string, st: BookState, root: RootNode)
    ensures var st1 := RootStep(newGuid, st, root);
            st1.Some? ==>
              st1.value.curChapter == if IsElement(root.node, Chapter) then Get(root.node.attrs, "number") else st.curChapter
  {
  }
}
