/**
 * Format nesting: the stack machine rebuilds from the runs of inline content exactly the forest they
 * came from, whatever was built before.
 */
module InlineRoundTrip {
  import opened Text
  import opened Usx
  import opened RichText
  import opened DeltaParser
  import opened DeltaBuilder
  import opened NormalForm
  import opened CharMarks

  // ----- closing and opening formatting

  // There is a node list below those of the open char elements.
  predicate Shape(m: Machine) {
    |m.stack| > |m.cur|
  }

  lemma {:induction false} ClosedShape(m: Machine, chars: seq<Attrs>)
    requires Shape(m)
    ensures Closed(m, chars).Some? && Shape(Closed(m, chars).value)
    ensures var c := Closed(m, chars).value;
            c == m.(cur := c.cur, stack := c.stack) && |c.stack| - |c.cur| == |m.stack| - |m.cur|
    decreases |m.cur|
  {
    if !(m.cur <= chars) {
      ClosedShape(CharEnded(m), chars);
    }
  }

  /** The machine brought to the node list for content formatted by path. */
  function Settled(m: Machine, path: seq<Attrs>): (r: Machine)
    requires Shape(m)
    ensures Synced(m, path) == Some(r)
    ensures r == m.(cur := path, stack := r.stack)
    ensures |r.stack| - |path| == |m.stack| - |m.cur|
  {
    ClosedShape(m, path);
    Synced(m, path).value
  }

  lemma PrefixOfExtended<T>(s: seq<T>, path: seq<T>, a: T)
    ensures s <= path + [a] <==> s <= path || s == path + [a]
  {
    assert path <= path + [a];
  }

  /** Formatting that is not open yet starts with an empty list on top of its parent's. */
  lemma {:induction false} SettledDeeper(m: Machine, path: seq<Attrs>, a: Attrs)
    requires Shape(m) && !(path + [a] <= m.cur)
    ensures Settled(m, path + [a]) == Settled(m, path).(cur := path + [a], stack := Settled(m, path).stack + [[]])
    decreases |m.cur|
  {
    if m.cur <= path {
      assert m.cur <= path + [a];
      var empty: seq<Node> := [];
      assert seq(|path + [a]| - |m.cur|, _ => empty) == seq(|path| - |m.cur|, _ => empty) + [empty];
    } else {
      PrefixOfExtended(m.cur, path, a);
      SettledDeeper(CharEnded(m), path, a);
    }
  }

  /** Leaving formatting that is open wraps what was collected in a char element. */
  lemma {:induction false} SettledShallower(m: Machine, path: seq<Attrs>, a: Attrs)
    requires Shape(m) && path + [a] <= m.cur
    ensures Settled(m, path) == CharEnded(Settled(m, path + [a]))
    decreases |m.cur|
  {
    if m.cur == path + [a] {
      assert DropLast(m.cur) == path;
      SettledAlready(m);
      SettledAlready(CharEnded(m));
    } else {
      assert path + [a] <= DropLast(m.cur);
      SettledShallower(CharEnded(m), path, a);
    }
  }

  lemma SettledAlready(m: Machine)
    requires Shape(m)
    ensures Settled(m, m.cur) == m
  {
    assert Opened(m, m.cur) == m;
  }

  // ----- what the last operation says about the machine

  function CharsIn(a: OpAttrs): seq<Attrs> {
    if a.chars.Some? then a.chars.value else []
  }

  function LastChars(ops: seq<Op>): seq<Attrs> {
    if ops == [] then [] else CharsIn(Last(ops).attrs)
  }

  // The machine has read the operations, and its open formatting is that of the last one.
  predicate Read(ops: seq<Op>, m: Machine) {
    Run(INITIAL, ops) == Some(m) && Shape(m) && m.cur == LastChars(ops)
  }

  lemma ReadMore(ops: seq<Op>, op: Op, m: Machine, m1: Machine)
    requires Read(ops, m) && Step(m, op) == Some(m1) && Shape(m1) && m1.cur == CharsIn(op.attrs)
    ensures Read(ops + [op], m1)
  {
    assert (ops + [op])[..|ops + [op]| - 1] == ops;
  }

  function RefOf(n: Node): Option<Attrs> {
    if IsElement(n, Ref) then Some(n.attrs) else None
  }

  /** The operations of n, inserted next at path, stay apart from those already there. */
  predicate Apart(ops: seq<Op>, ref: Option<string>, path: seq<Attrs>, n: Node) {
    if IsElement(n, Char) then !(path + [n.attrs] <= LastChars(ops))
    else
      (n.XText? || n.tag == Ref) && ops != [] && Last(ops).insert.Str? ==>
        var a := Last(ops).attrs;
        || a.block.Some? || a.table.Some?
        || a.chars != CharsOf(path) || a.ref != RefOf(n) || a.segment != SegmentOf(ref)
  }

  /** The last operation is one of n's, walked at path. */
  predicate EndsWith(ops: seq<Op>, path: seq<Attrs>, n: Node) {
    && ops != []
    && var op := Last(ops);
       if n.XText? then op == Op(Str(n.value), InlineAttrs(path, None, op.attrs.segment))
       else if n.tag == Ref then op.insert.Str? && op.attrs == InlineAttrs(path, RefOf(n), op.attrs.segment)
       else if n.tag == Char then path + [n.attrs] <= LastChars(ops)
       else op.insert.Embed? && LastChars(ops) == path
  }

  lemma NeighboursApart(ops: seq<Op>, ref: Option<string>, path: seq<Attrs>, n: Node, next: Node)
    requires EndsWith(ops, path, n) && !Fusible(n, next)
    requires IsElement(n, Char) && IsElement(next, Char) ==> n.attrs != next.attrs
    ensures Apart(ops, ref, path, next)
  {
    if IsElement(n, Char) {
      assert LastChars(ops)[|path|] == n.attrs;
    }
    if IsElement(next, Char) {
      assert (path + [next.attrs])[|path|] == next.attrs;
    }
  }

  lemma InnerApart(ops: seq<Op>, ref: Option<string>, path: seq<Attrs>, a: Attrs, n: Node)
    requires !(path + [a] <= LastChars(ops))
    ensures Apart(ops, ref, path + [a], n)
  {
    assert forall b :: path + [a] <= path + [a] + [b];
  }

  // ----- rebuilding

  // After the operations of inline content at path, the list at path has the content appended.
  predicate Appended(m: Machine, m1: Machine, path: seq<Attrs>, nodes: seq<Node>)
    requires Shape(m) && Shape(m1)
  {
    Settled(m1, path) == TopAdded(Settled(m, path), nodes)
  }

  lemma TopAddedNothing(m: Machine)
    requires m.stack != []
    ensures TopAdded(m, []) == m
  {
    assert Last(m.stack) + [] == Last(m.stack);
    assert DropLast(m.stack) + [Last(m.stack)] == m.stack;
  }

  lemma TopAddedTwice(m: Machine, a: seq<Node>, b: seq<Node>)
    requires m.stack != []
    ensures TopAdded(TopAdded(m, a), b) == TopAdded(m, a + b)
  {
    assert (Last(m.stack) + a) + b == Last(m.stack) + (a + b);
  }

  /** An operation that adds nodes to the list at its own path. */
  lemma OpAppended(ops: seq<Op>, op: Op, nodes: seq<Node>, m: Machine) returns (m1: Machine)
    requires Read(ops, m)
    requires Step(m, op) == Some(TopAdded(Settled(m, CharsIn(op.attrs)), nodes))
    ensures Read(ops + [op], m1) && Appended(m, m1, CharsIn(op.attrs), nodes)
    ensures m1.cur == CharsIn(op.attrs)
  {
    m1 := TopAdded(Settled(m, CharsIn(op.attrs)), nodes);
    ReadMore(ops, op, m, m1);
    SettledAlready(m1);
  }

  lemma TextAppended(ops: seq<Op>, ref: Option<string>, path: seq<Attrs>, link: Option<Attrs>, text: string, m: Machine)
      returns (m1: Machine)
    requires Read(ops, m) && text != "" && '\n' !in text
    requires Apart(ops, ref, path, if link.Some? then XElement(Ref, link.value, []) else XText(""))
    ensures var op := Op(Str(text), InlineAttrs(path, link, SegmentOf(ref)));
            Inserted(ops, op) == ops + [op] && Read(ops + [op], m1)
    ensures Appended(m, m1, path, [if link.Some? then XElement(Ref, Visible(link.value), [XText(text)]) else XText(text)])
  {
    var a := InlineAttrs(path, link, SegmentOf(ref));
    var node := if link.Some? then XElement(Ref, Visible(link.value), [XText(text)]) else XText(text);
    assert Last(text) in text;
    assert CharsIn(a) == path;
    m1 := OpAppended(ops, Op(Str(text), a), [node], m);
  }

  /** A blank or an empty marker adds nothing, but brings the machine to its path. */
  lemma MarkerAppended(ops: seq<Op>, op: Op, m: Machine) returns (m1: Machine)
    requires Read(ops, m) && op.insert.Embed? && (op.insert.tag == Blank || op.insert.tag == Empty)
    ensures Read(ops + [op], m1) && m1 == Settled(m, CharsIn(op.attrs))
    ensures Appended(m, m1, CharsIn(op.attrs), [])
  {
    m1 := Settled(m, CharsIn(op.attrs));
    TopAddedNothing(m1);
    SettledAlready(m1);
    ReadMore(ops, op, m, m1);
  }

  lemma SegmentEndedAppended(ops: seq<Op>, ref: Option<string>, m: Machine) returns (m1: Machine)
    requires Read(ops, m)
    ensures Read(SegmentEnded(ops, ref), m1) && Settled(m1, []) == Settled(m, [])
  {
    if SegmentEnded(ops, ref) == ops {
      m1 := m;
    } else {
      m1 := MarkerAppended(ops, BlankOp(ref.value), m);
      SettledAlready(m1);
    }
  }

  lemma AppendedTwice(m: Machine, m1: Machine, m2: Machine, path: seq<Attrs>, a: seq<Node>, b: seq<Node>)
    requires Shape(m) && Shape(m1) && Shape(m2) && Appended(m, m1, path, a) && Appended(m1, m2, path, b)
    ensures Appended(m, m2, path, a + b)
  {
    TopAddedTwice(Settled(m, path), a, b);
  }

  predicate Rebuildable(nodes: seq<Node>, inChar: bool) {
    Inline(nodes, inChar, true) && Canonical(nodes) && Separated(nodes)
  }

  // The operations of one node were appended and rebuild to that node.
  predicate NodeAppended(cx: Context, fl: Flow, n: Node, path: seq<Attrs>, m: Machine, m1: Machine)
    requires Shape(m)
  {
    var fl1 := NodeWalked(cx, fl, n, path);
    && Read(fl1.ops, m1)
    && Appended(m, m1, path, [NodeUnmarked(n)])
    && EndsWith(fl1.ops, path, n)
    && fl.ops <= fl1.ops
  }

  /**
   * Walking canonical marked content at a path, after any operations it stays apart from, only appends
   * operations; reading them appends exactly that content, without its marks, to the list at that path.
   */
  lemma {:induction false} ForestRebuilt(cx: Context, fl: Flow, nodes: seq<Node>, path: seq<Attrs>, m: Machine)
      returns (m1: Machine)
    requires Rebuildable(nodes, path != []) && Read(fl.ops, m)
    requires nodes != [] ==> Apart(fl.ops, fl.curRef, path, nodes[0])
    ensures var fl1 := Walked(cx, fl, nodes, path);
            && Read(fl1.ops, m1)
            && Appended(m, m1, path, Unmarked(nodes))
            && (nodes == [] ==> fl1 == fl && m1 == m)
            && (nodes != [] ==> EndsWith(fl1.ops, path, Last(nodes)))
            && fl.ops <= fl1.ops
    decreases nodes, 0
  {
    if nodes == [] {
      m1 := m;
      TopAddedNothing(Settled(m, path));
    } else {
      var n, rest := nodes[0], nodes[1..];
      var fl0 := NodeWalked(cx, fl, n, path);
      var m0 := NodeRebuilt(cx, fl, n, path, m);
      if rest != [] {
        assert IsElement(rest[0], Char) ==> rest[0].attrs in TopChars(rest);
        NeighboursApart(fl0.ops, fl0.curRef, path, n, rest[0]);
      }
      m1 := ForestRebuilt(cx, fl0, rest, path, m0);
      AppendedTwice(m, m0, m1, path, [NodeUnmarked(n)], Unmarked(rest));
    }
  }

  lemma {:induction false} NodeRebuilt(cx: Context, fl: Flow, n: Node, path: seq<Attrs>, m: Machine)
      returns (m1: Machine)
    requires NodeInline(n, path != [], true) && NodeCanonical(n) && NodeSeparated(n)
    requires Read(fl.ops, m) && Apart(fl.ops, fl.curRef, path, n)
    ensures NodeAppended(cx, fl, n, path, m, m1)
    decreases n, 2
  {
    if n.XText? || n.tag == Ref {
      m1 := TextRebuilt(cx, fl, n, path, m);
    } else if n.tag == Verse {
      m1 := VerseRebuilt(cx, fl, n, m);
    } else if n.tag == Char {
      m1 := CharRebuilt(cx, fl, n, path, m);
    } else {
      ContentsRebuilt(cx.(chapter := None), Nested([], fl.guids), n.nodes);
      m1 := EmbedRebuilt(cx, fl, n, path, m);
    }
  }

  lemma TextRebuilt(cx: Context, fl: Flow, n: Node, path: seq<Attrs>, m: Machine) returns (m1: Machine)
    requires NodeInline(n, path != [], true) && NodeCanonical(n) && (n.XText? || n.tag == Ref)
    requires Read(fl.ops, m) && Apart(fl.ops, fl.curRef, path, n)
    ensures NodeAppended(cx, fl, n, path, m, m1)
  {
    if n.XText? {
      m1 := TextAppended(fl.ops, fl.curRef, path, None, n.value, m);
    } else {
      RefText(n.nodes);
      assert n.nodes == [XText(n.nodes[0].value)] && Visible(n.attrs) == n.attrs;
      m1 := TextAppended(fl.ops, fl.curRef, path, Some(n.attrs), InnerText(n.nodes), m);
    }
  }

  lemma VerseRebuilt(cx: Context, fl: Flow, n: Node, m: Machine) returns (m1: Machine)
    requires NodeInline(n, false, true) && NodeCanonical(n) && IsElement(n, Verse)
    requires Read(fl.ops, m)
    ensures NodeAppended(cx, fl, n, [], m, m1)
  {
    var m0 := SegmentEndedAppended(fl.ops, fl.curRef, m);
    assert Visible(n.attrs) == n.attrs && n == XElement(Verse, n.attrs, []);
    TrivialRebuild();
    var op := Op(Embed(Verse, n.attrs, []), NO_ATTRS);
    m1 := OpAppended(SegmentEnded(fl.ops, fl.curRef), op, [n], m0);
  }

  lemma EmbedRebuilt(cx: Context, fl: Flow, n: Node, path: seq<Attrs>, m: Machine) returns (m1: Machine)
    requires NodeInline(n, path != [], true) && n.XElement? && IsEmbedTag(n.tag)
    requires Rebuilt(Walked(cx.(chapter := None), Nested([], fl.guids), n.nodes, []).ops) == Some(Unmarked(n.nodes))
    requires Read(fl.ops, m) && Apart(fl.ops, fl.curRef, path, n)
    ensures NodeAppended(cx, fl, n, path, m, m1)
  {
    var contents := Walked(cx.(chapter := None), Nested([], fl.guids), n.nodes, []);
    var op := Op(Embed(n.tag, n.attrs, contents.ops), InlineAttrs(path, None, SegmentOf(fl.curRef)));
    assert CharsIn(op.attrs) == path && Visible(n.attrs) == n.attrs;
    m1 := OpAppended(fl.ops, op, [NodeUnmarked(n)], m);
  }

  lemma TrivialRebuild()
    ensures Rebuilt([]) == Some([])
  {
    assert INITIAL.content + Last(INITIAL.stack) == [];
  }

  /** The nested document of a note or another embed rebuilds to the embed's content. */
  lemma {:induction false} ContentsRebuilt(cx: Context, fl: Flow, nodes: seq<Node>)
    requires Rebuildable(nodes, false) && fl.ops == []
    ensures Rebuilt(Walked(cx, fl, nodes, []).ops) == Some(Unmarked(nodes))
    decreases nodes, 1
  {
    var m1 := ForestRebuilt(cx, fl, nodes, [], INITIAL);
    RebuiltFromRead(Walked(cx, fl, nodes, []).ops, m1, Unmarked(nodes));
  }

  lemma RebuiltFromRead(ops: seq<Op>, m1: Machine, nodes: seq<Node>)
    requires Read(ops, m1) && Appended(INITIAL, m1, [], nodes)
    ensures Rebuilt(ops) == Some(nodes)
  {
    SettledAlready(INITIAL);
    assert Last(INITIAL.stack) + nodes == nodes;
    ClosedIsSettled(m1);
    var settled := Settled(m1, []);
    assert settled == TopAdded(INITIAL, nodes) && settled.table.None? && settled.content == [];
    assert [] + Last(settled.stack) == nodes;
  }

  // Without formatting there is nothing to open.
  lemma ClosedIsSettled(m: Machine)
    requires Shape(m)
    ensures Closed(m, []) == Some(Settled(m, []))
  {
    ClosedShape(m, []);
    var closed := Closed(m, []).value;
    assert EmptyLists(0) == [] && closed.stack + [] == closed.stack;
  }

  lemma {:induction false} CharRebuilt(cx: Context, fl: Flow, n: Node, path: seq<Attrs>, m: Machine)
      returns (m1: Machine)
    requires IsElement(n, Char) && NodeInline(n, path != [], true) && Canonical(n.nodes) && Separated(n.nodes)
    requires Read(fl.ops, m) && Apart(fl.ops, fl.curRef, path, n)
    ensures NodeAppended(cx, fl, n, path, m, m1)
    decreases n, 1
  {
    m1 := CharFilled(cx, fl, n, path, m);
    CharClosed(m, m1, path, n);
  }

  /** What is inside a char element is collected one level deeper; an empty marker only opens that level. */
  lemma {:induction false} CharFilled(cx: Context, fl: Flow, n: Node, path: seq<Attrs>, m: Machine)
      returns (m1: Machine)
    requires IsElement(n, Char) && NodeInline(n, path != [], true) && Canonical(n.nodes) && Separated(n.nodes)
    requires Read(fl.ops, m) && Apart(fl.ops, fl.curRef, path, n)
    ensures var ops := NodeWalked(cx, fl, n, path).ops;
            Read(ops, m1) && path + [n.attrs] <= m1.cur && EndsWith(ops, path, n) && fl.ops <= ops
    ensures Appended(m, m1, path + [n.attrs], Unmarked(n.nodes))
    decreases n, 0
  {
    var inner := path + [n.attrs];
    if n.nodes == [] {
      assert CharsIn(EmptyOp(inner, fl.curRef).attrs) == inner;
      m1 := MarkerAppended(fl.ops, EmptyOp(inner, fl.curRef), m);
    } else {
      InnerApart(fl.ops, fl.curRef, path, n.attrs, n.nodes[0]);
      m1 := ForestRebuilt(cx, fl, n.nodes, inner, m);
      InnerEnd(Walked(cx, fl, n.nodes, inner).ops, inner, Last(n.nodes));
    }
  }

  // One level deeper and out again.
  lemma CharAround(outer: Machine, path: seq<Attrs>, a: Attrs, kids: seq<Node>)
    requires outer.stack != [] && outer.cur == path
    ensures var inside := TopAdded(outer.(cur := path + [a], stack := outer.stack + [[]]), kids);
            CharEnded(inside) == TopAdded(outer, [CharElement(a, kids)])
  {
    var begun := outer.(cur := path + [a], stack := outer.stack + [[]]);
    assert TopAdded(begun, kids).stack == outer.stack + [kids] by {
      assert [] + kids == kids && DropLast(outer.stack + [[]]) == outer.stack;
    }
    assert DropLast(path + [a]) == path && DropLast(outer.stack + [kids]) == outer.stack;
  }

  /** Content collected inside a char element becomes that element in the list around it. */
  lemma CharClosed(m: Machine, m1: Machine, path: seq<Attrs>, n: Node)
    requires IsElement(n, Char) && CleanAttrs(n.attrs) && Shape(m) && Shape(m1)
    requires !(path + [n.attrs] <= m.cur) && path + [n.attrs] <= m1.cur
    requires Appended(m, m1, path + [n.attrs], Unmarked(n.nodes))
    ensures Appended(m, m1, path, [NodeUnmarked(n)])
  {
    SettledDeeper(m, path, n.attrs);
    SettledShallower(m1, path, n.attrs);
    CharAround(Settled(m, path), path, n.attrs, Unmarked(n.nodes));
    assert Visible(n.attrs - {"cid"}) == n.attrs - {"cid"};
  }

  lemma InnerEnd(ops: seq<Op>, inner: seq<Attrs>, n: Node)
    requires inner != [] && EndsWith(ops, inner, n)
    ensures inner <= LastChars(ops)
  {
  }

  // ----- the round trip of inline content

  /** Nothing inserted next, in the segment ref and without formatting, can join the last operation. */
  predicate Fresh(ops: seq<Op>, ref: Option<string>) {
    ops != [] ==>
      var op := Last(ops);
      && op.attrs.chars.None?
      && (op.insert.Str? ==> op.attrs.block.Some? || op.attrs.table.Some? || op.attrs.segment != SegmentOf(ref))
  }

  // A final text without attributes is not empty and has no newline of its own.
  predicate PlainEnd(ops: seq<Op>) {
    && ops != []
    && (Last(ops).insert.Str? && Last(ops).attrs == NO_ATTRS ==>
          Last(ops).insert.text != "" && '\n' !in Last(ops).insert.text)
  }

  lemma {:induction false} LastOfInline(nodes: seq<Node>, inChar: bool, marked: bool)
    requires nodes != [] && Inline(nodes, inChar, marked) && Canonical(nodes)
    ensures NodeInline(Last(nodes), inChar, marked) && NodeCanonical(Last(nodes))
  {
    if |nodes| > 1 {
      LastOfInline(nodes[1..], inChar, marked);
    }
  }

  /**
   * Inline content of any kind comes back in normal form: the operations the walk appends, read by the
   * machine, add the normal form of the content to the open list.
   */
  lemma InlineRebuilt(cx: Context, fl: Flow, nodes: seq<Node>, m: Machine) returns (m1: Machine)
    requires Injective(cx.newGuid) && Inline(nodes, false, false)
    requires Read(fl.ops, m) && Fresh(fl.ops, fl.curRef)
    ensures var fl1 := Walked(cx, fl, nodes, []);
            && Read(fl1.ops, m1)
            && Appended(m, m1, [], Norm(nodes))
            && (Norm(nodes) == [] ==> fl1.ops == fl.ops && m1 == m)
            && (Norm(nodes) != [] ==> PlainEnd(fl1.ops))
            && fl.ops <= fl1.ops
  {
    var marked := Marked(cx.newGuid, nodes, fl.guids);
    var normal := Norm(marked);
    UnmarkedMarked(cx.newGuid, nodes, false, fl.guids);
    WalkMarksChars(cx, fl, nodes, [], false);
    WalkOfNorm(cx, fl, marked, [], false);
    UnmarkedNorm(marked);
    NormInline(marked, false, true);
    NormIsCanonical(marked);
    MarkedSeparated(cx.newGuid, nodes, fl.guids);
    NormSeparated(marked);
    m1 := ForestRebuilt(cx, fl, normal, [], m);
    if normal != [] {
      LastOfInline(normal, false, true);
    }
  }

  /** Without anything built before, as in a note: parsing and rebuilding give the normal form. */
  lemma ContentsRoundTrip(cx: Context, fl: Flow, nodes: seq<Node>)
    requires Injective(cx.newGuid) && Inline(nodes, false, false) && fl.ops == []
    ensures Rebuilt(Walked(cx, fl, nodes, []).ops) == Some(Norm(nodes))
    ensures Rebuilt(Walked(cx, fl, nodes, []).ops) == Some(nodes) <==> Canonical(nodes)
  {
    var m1 := InlineRebuilt(cx, fl, nodes, INITIAL);
    RebuiltFromRead(Walked(cx, fl, nodes, []).ops, m1, Norm(nodes));
    NormalIffCanonical(nodes);
  }
}
