/** The references given to paragraphs are distinct, and no segment is left without an operation of its own. */
module SegmentRefs {
  import opened Text
  import opened Usx
  import opened RichText
  import opened DeltaParser
  import opened NormalForm
  import opened CharMarks
  import opened BookDomain
  import BR = BookRoundTrip

  // ----- distinct references

  function RefText(r: Reference): string {
    r.prefix + "_" + Decimal(r.number)
  }

  /** Two references are equal if and only if their prefixes and their numbers are. */
  lemma SameTextIff(a: Reference, b: Reference)
    ensures RefText(a) == RefText(b) <==> a.prefix == b.prefix && a.number == b.number
  {
    if RefText(a) == RefText(b) {
      SuffixedNumeral(a.prefix, a.number, b.prefix, b.number);
    }
  }

  // Counted under the paragraph's own style, or under the reference before it up to the first slash.
  predicate UnderStyle(r: Reference, style: Option<string>) {
    style == Some(r.prefix) && r.key == r.prefix
  }

  predicate UnderBase(r: Reference, style: Option<string>) {
    '/' !in r.key && r.prefix == r.key + "/" + OrEmpty(style)
  }

  function StyleOf(n: Node): Option<string> {
    if n.XElement? then Get(n.attrs, "style") else None
  }

  ghost predicate OfParagraph(r: Reference, roots: seq<RootNode>) {
    exists root :: root in roots && (UnderStyle(r, StyleOf(root.node)) || UnderBase(r, StyleOf(root.node)))
  }

  ghost predicate RefsCounted(st: BookState, roots: seq<RootNode>) {
    && (forall i :: 0 <= i < |st.refs| ==> OfParagraph(st.refs[i], roots))
    && (forall i :: 0 <= i < |st.refs| ==> st.refs[i].number < NextId(st.nextIds, st.refs[i].key))
    && (forall i, j :: 0 <= i < j < |st.refs| && st.refs[i].key == st.refs[j].key ==>
          st.refs[i].number < st.refs[j].number)
  }

  lemma PartsKind(curRef: Option<string>, style: Option<string>, n: nat)
    requires RefParts(curRef, style).Some?
    ensures var (key, prefix) := RefParts(curRef, style).value;
            var r := Reference(key, prefix, n); UnderStyle(r, style) || UnderBase(r, style)
  {
    if CanContainVerseText(style) && curRef.Some? {
      var slash := IndexOf(curRef.value, '/');
    }
  }

  lemma ParaStepRefs(newGuid: nat -> string, st: BookState, root: RootNode, roots: seq<RootNode>, st1: BookState)
    requires root in roots && root.node.XElement? && ParaStep(newGuid, st, root.node) == Some(st1)
    requires RefsCounted(st, roots)
    ensures RefsCounted(st1, roots)
  {
    var st0 := ImpliedEnded(st);
    var style := StyleOf(root.node);
    var (key, prefix) := RefParts(st0.fl.curRef, style).value;
    PartsKind(st0.fl.curRef, style, NextId(st0.nextIds, key));
    var r := Reference(key, prefix, NextId(st0.nextIds, key));
    assert OfParagraph(r, roots);
    assert st1.refs == st.refs + [r] && st1.nextIds == Counted(st.nextIds, key);
  }

  lemma SameRefs(st: BookState, st1: BookState, roots: seq<RootNode>)
    requires RefsCounted(st, roots) && (st1.refs == [] || (st1.refs == st.refs && st1.nextIds == st.nextIds))
    ensures RefsCounted(st1, roots)
  {
  }

  lemma OtherRootRefs(newGuid: nat -> string, st: BookState, root: RootNode, st1: BookState)
    requires RootStep(newGuid, st, root) == Some(st1) && !IsElement(root.node, Para) && !IsElement(root.node, Book)
    ensures st1.refs == [] || (st1.refs == st.refs && st1.nextIds == st.nextIds)
  {
  }

  lemma RootStepRefs(newGuid: nat -> string, st: BookState, root: RootNode, roots: seq<RootNode>, st1: BookState)
    requires root in roots && RootStep(newGuid, st, root) == Some(st1) && RefsCounted(st, roots)
    ensures RefsCounted(st1, roots)
  {
    var n := root.node;
    if IsElement(n, Para) || IsElement(n, Book) {
      var st0 := if n.tag == Book then st.(bookIsValid := root.schemaValid) else st;
      var st2 := ParaStep(newGuid, st0, n).value;
      SameRefs(st, st0, roots);
      ParaStepRefs(newGuid, st0, root, roots, st2);
      SameRefs(st2, st1, roots);
    } else {
      OtherRootRefs(newGuid, st, root, st1);
      SameRefs(st, st1, roots);
    }
  }

  lemma {:induction false} BookRefs(newGuid: nat -> string, st: BookState, roots: seq<RootNode>, all: seq<RootNode>, st1: BookState)
    requires RefsCounted(st, all) && BookWalked(newGuid, st, roots) == Some(st1)
    requires forall root :: root in roots ==> root in all
    ensures RefsCounted(st1, all)
    decreases roots
  {
    if roots != [] {
      assert roots[0] in roots;
      var st2 := RootStep(newGuid, st, roots[0]).value;
      RootStepRefs(newGuid, st, roots[0], all, st2);
      BookRefs(newGuid, st2, roots[1..], all, st1);
    }
  }

  /** The one way to give out a reference twice: a paragraph's own style is the base and style of another. */
  ghost predicate Clash(a: Reference, b: Reference, roots: seq<RootNode>) {
    && a.number == b.number && a.prefix == b.prefix
    && exists p, q :: p in roots && q in roots && UnderStyle(a, StyleOf(p.node)) && UnderBase(b, StyleOf(q.node))
  }

  /** Two references under one prefix have different keys only in this case. */
  lemma EqualRefs(a: Reference, b: Reference, roots: seq<RootNode>)
    requires OfParagraph(a, roots) && OfParagraph(b, roots) && a.key != b.key
    ensures RefText(a) == RefText(b) <==> Clash(a, b, roots) || Clash(b, a, roots)
  {
    SameTextIff(a, b);
    if a.prefix == b.prefix {
      var p :| p in roots && (UnderStyle(a, StyleOf(p.node)) || UnderBase(a, StyleOf(p.node)));
      var q :| q in roots && (UnderStyle(b, StyleOf(q.node)) || UnderBase(b, StyleOf(q.node)));
      if UnderBase(a, StyleOf(p.node)) && UnderBase(b, StyleOf(q.node)) {
        SameBase(a.key, OrEmpty(StyleOf(p.node)), b.key, OrEmpty(StyleOf(q.node)));
      }
    }
  }

  lemma SameBase(a: string, s: string, b: string, t: string)
    requires '/' !in a && '/' !in b && a + "/" + s == b + "/" + t
    ensures a == b
  {
    var whole := a + "/" + s;
    assert whole[|a|] == '/' && whole[|b|] == '/';
    assert forall k :: 0 <= k < |a| ==> whole[k] == a[k];
    assert forall k :: 0 <= k < |b| ==> whole[k] == b[k];
    assert |a| == |b| && whole[..|a|] == a && whole[..|b|] == b;
  }

  // No paragraph style contains a slash.
  predicate SlashFree(roots: seq<RootNode>) {
    forall root :: root in roots && StyleOf(root.node).Some? ==> '/' !in StyleOf(root.node).value
  }

  /**
   * Whatever the book, two paragraph references of a chapter Delta are equal if and only if they clash; in a
   * book whose styles have no slash they are pairwise distinct.
   */
  lemma ReferencesDistinct(newGuid: nat -> string, guids: nat, roots: seq<RootNode>, st: BookState, i: nat, j: nat)
    requires BookWalked(newGuid, Start(guids), roots) == Some(st) && i < j < |st.refs|
    ensures var a, b := st.refs[i], st.refs[j];
            && (RefText(a) == RefText(b) <==> Clash(a, b, roots) || Clash(b, a, roots))
            && (SlashFree(roots) ==> RefText(a) != RefText(b))
  {
    BookRefs(newGuid, Start(guids), roots, roots, st);
    var a, b := st.refs[i], st.refs[j];
    if a.key == b.key {
      SameTextIff(a, b);
    } else {
      EqualRefs(a, b, roots);
    }
    if Clash(a, b, roots) {
      SlashInStyle(a, b, roots);
    } else if Clash(b, a, roots) {
      SlashInStyle(b, a, roots);
    }
  }

  lemma SlashInStyle(a: Reference, b: Reference, roots: seq<RootNode>)
    requires Clash(a, b, roots)
    ensures !SlashFree(roots)
  {
    var p, q :| p in roots && q in roots && UnderStyle(a, StyleOf(p.node)) && UnderBase(b, StyleOf(q.node));
    assert StyleOf(p.node).value[|b.key|] == '/';
  }

  function TextPara(style: string, text: string, ok: bool): RootNode {
    RootNode(XElement(Para, map["style" := style], [XText(text)]), ok)
  }

  function TextOps(style: string, text: string, ref: string): seq<Op> {
    [Op(Str(text), NO_ATTRS.(segment := InSegment(ref))),
     Op(Str("\n"), NO_ATTRS.(block := Some(BlockFormat(Para, map["style" := style]))))]
  }

  // A paragraph of text; ok is the schema validator's verdict on it.
  lemma TextParaStep(newGuid: nat -> string, st: BookState, style: string, text: string, ok: bool)
    requires text != "" && Last(text) != '\n' && !st.implied && (st.fl.ops != [] ==> Last(st.fl.ops).attrs.block.Some?)
    requires RefParts(st.fl.curRef, Some(style)).Some?
    ensures var (key, prefix) := RefParts(st.fl.curRef, Some(style)).value;
            var ref := ParagraphRef(st.nextIds, key, prefix);
            RootStep(newGuid, st, TextPara(style, text, ok)) == Some(
              WithRef(st, key, prefix).(fl := st.fl.(ops := st.fl.ops + TextOps(style, text, ref), valid := st.fl.valid && ok,
                curRef := if CanContainVerseText(Some(style)) then Some(ref) else None)))
  {
    var (key, prefix) := RefParts(st.fl.curRef, Some(style)).value;
    var st1 := WithRef(st, key, prefix);
    var root := TextPara(style, text, ok);
    var n := root.node;
    var cx := Context(newGuid, st1.curChapter);
    var op := Op(Str(text), NO_ATTRS.(segment := SegmentOf(st1.fl.curRef)));
    var fl1 := st1.fl.(ops := st.fl.ops + [op]);
    assert n.nodes[1..] == [] && !HasDescendant(n.nodes, Verse);
    assert Walked(cx, st1.fl, n.nodes, []) == NodeWalked(cx, st1.fl, n.nodes[0], []) == fl1;
    assert SegmentEnded(fl1.ops, fl1.curRef) == fl1.ops;
    assert fl1.ops + [TextOps(style, text, "")[1]] == st.fl.ops + TextOps(style, text, fl1.curRef.value);
  }

  lemma ConcreteStyles()
    ensures CanContainVerseText(Some("p")) && !CanContainVerseText(Some("p_1/p"))
  {
    assert Last("p") == 'p' && Last("p_1/p") == 'p';
    assert forall style :: style in PARAGRAPH_POETRY_LIST_STYLES ==> |style| < 4;
  }

  lemma ConcreteParts()
    ensures RefParts(None, Some("p")) == Some(("p", "p"))
    ensures RefParts(Some("p_1"), Some("p")) == Some(("p_1", "p_1/p"))
    ensures RefParts(Some("p_1/p_1"), Some("p_1/p")) == Some(("p_1/p", "p_1/p"))
  {
    ConcreteStyles();
    assert IndexOf("p_1", '/') == -1;
    assert "p_1" + "/" + "p" == "p_1/p";
  }

  // The state after the first, the first two and all of three such paragraphs.
  function OnePara(valid: bool): BookState {
    Start(0).(fl := Nested(TextOps("p", "a", "p_1"), 0).(curRef := Some("p_1"), valid := valid),
              nextIds := map["p" := 2], refs := [Reference("p", "p", 1)])
  }

  function TwoParas(valid: bool): BookState {
    OnePara(valid).(fl := Nested(OnePara(valid).fl.ops + TextOps("p", "b", "p_1/p_1"), 0).(curRef := Some("p_1/p_1"), valid := valid),
               nextIds := map["p" := 2, "p_1" := 2], refs := OnePara(valid).refs + [Reference("p_1", "p_1/p", 1)])
  }

  function ThreeParas(valid: bool): BookState {
    TwoParas(valid).(fl := Nested(TwoParas(valid).fl.ops + TextOps("p_1/p", "c", "p_1/p_1"), 0).(valid := valid),
                nextIds := map["p" := 2, "p_1" := 2, "p_1/p" := 2],
                refs := TwoParas(valid).refs + [Reference("p_1/p", "p_1/p", 1)])
  }

  lemma FirstPara(newGuid: nat -> string, ok: bool)
    ensures RootStep(newGuid, Start(0), TextPara("p", "a", ok)) == Some(OnePara(ok))
  {
    ConcreteStyles();
    ConcreteParts();
    TextParaStep(newGuid, Start(0), "p", "a", ok);
    assert "p" + "_" + Decimal(1) == "p_1";
    PlusNothing(TextOps("p", "a", "p_1"));
    PlusNothing(OnePara(ok).refs);
  }

  lemma SecondPara(newGuid: nat -> string, valid: bool, ok: bool)
    ensures RootStep(newGuid, OnePara(valid), TextPara("p", "b", ok)) == Some(TwoParas(valid && ok))
  {
    ConcreteStyles();
    ConcreteParts();
    TextParaStep(newGuid, OnePara(valid), "p", "b", ok);
    assert "p_1/p" + "_" + Decimal(1) == "p_1/p_1";
  }

  lemma ThirdPara(newGuid: nat -> string, valid: bool, ok: bool)
    ensures RootStep(newGuid, TwoParas(valid), TextPara("p_1/p", "c", ok)) == Some(ThreeParas(valid && ok))
  {
    ConcreteStyles();
    ConcreteParts();
    TextParaStep(newGuid, TwoParas(valid), "p_1/p", "c", ok);
    assert "p_1/p" + "_" + Decimal(1) == "p_1/p_1";
  }

  lemma OneWalked(newGuid: nat -> string, st: BookState, roots: seq<RootNode>, st1: BookState)
    requires roots != [] && RootStep(newGuid, st, roots[0]) == Some(st1)
    ensures BookWalked(newGuid, st, roots) == BookWalked(newGuid, st1, roots[1..])
  {
  }

  lemma ThreeWalked(newGuid: nat -> string, roots: seq<RootNode>, st1: BookState, st2: BookState, st3: BookState)
    requires |roots| == 3 && RootStep(newGuid, Start(0), roots[0]) == Some(st1)
    requires RootStep(newGuid, st1, roots[1]) == Some(st2) && RootStep(newGuid, st2, roots[2]) == Some(st3)
    ensures BookWalked(newGuid, Start(0), roots) == Some(st3)
  {
    OneWalked(newGuid, Start(0), roots, st1);
    OneWalked(newGuid, st1, roots[1..], st2);
    OneWalked(newGuid, st2, roots[1..][1..], st3);
    assert BookWalked(newGuid, st3, roots[1..][1..][1..]) == Some(st3);
  }

  // A book without a chapter mark.
  lemma OneDelta(newGuid: nat -> string, roots: seq<RootNode>, st: BookState)
    requires BookWalked(newGuid, Start(0), roots) == Some(st)
    requires st.curChapter.None? && st.deltas == [] && !st.implied
    ensures ChapterDeltas(newGuid, 0, roots) == Some([ChapterDelta(1, st.fl.valid, st.fl.ops)])
  {
    ReadsOne();
    assert ChapterEnded(st, "1").deltas == [ChapterDelta(1, st.fl.valid, st.fl.ops)];
  }

  /**
   * With a slash in a style the code does give out the same reference twice: two segments have one name,
   * whatever the schema validator says of the paragraphs.
   */
  lemma SlashRepeatsReference(newGuid: nat -> string, ok1: bool, ok2: bool, ok3: bool)
    ensures var ops := TextOps("p", "a", "p_1") + TextOps("p", "b", "p_1/p_1") + TextOps("p_1/p", "c", "p_1/p_1");
            ChapterDeltas(newGuid, 0, [TextPara("p", "a", ok1), TextPara("p", "b", ok2), TextPara("p_1/p", "c", ok3)])
              == Some([ChapterDelta(1, ok1 && ok2 && ok3, ops)])
  {
    FirstPara(newGuid, ok1);
    SecondPara(newGuid, ok1, ok2);
    ThirdPara(newGuid, ok1 && ok2, ok3);
    var roots := [TextPara("p", "a", ok1), TextPara("p", "b", ok2), TextPara("p_1/p", "c", ok3)];
    var st := ThreeParas(ok1 && ok2 && ok3);
    ThreeWalked(newGuid, roots, OnePara(ok1), TwoParas(ok1 && ok2), st);
    OneDelta(newGuid, roots, st);
  }

  // ----- no empty segment

  predicate IsVerseOp(op: Op) {
    op.insert.Embed? && op.insert.tag == Verse
  }

  predicate BeginsWithNewline(op: Op) {
    op.insert.Str? && op.insert.text != "" && op.insert.text[0] == '\n'
  }

  predicate EndsWithNewline(op: Op) {
    op.insert.Str? && op.insert.text != "" && Last(op.insert.text) == '\n'
  }

  // No text is empty, and a newline stands at the end of its operation, and only where a block ends.
  predicate OneNewline(op: Op) {
    && (op.insert.Str? ==> op.insert.text != "" && '\n' !in DropLast(op.insert.text))
    && (EndsWithNewline(op) ==> op.attrs.block.Some? || op.attrs.table.Some? || op.attrs == NO_ATTRS)
  }

  // Between a verse and the next verse or newline, and between two newlines, there is something.
  predicate Filled(a: Op, b: Op) {
    && (IsVerseOp(a) ==> !IsVerseOp(b) && !BeginsWithNewline(b))
    && (EndsWithNewline(a) ==> !BeginsWithNewline(b))
  }

  predicate AllFilled(ops: seq<Op>) {
    && (forall i :: 0 <= i < |ops| ==> OneNewline(ops[i]))
    && (forall i :: 0 <= i < |ops| - 1 ==> Filled(ops[i], ops[i + 1]))
  }

  // The last operation does not wait for content, and a newline has the attributes of its block.
  predicate Calm(ops: seq<Op>) {
    ops != [] ==> !IsVerseOp(Last(ops)) && (Last(ops).attrs == NO_ATTRS ==> !EndsWithNewline(Last(ops)))
  }

  // So far all segments are filled, and whatever is left open has a reference to be filled under.
  predicate Going(fl: Flow) {
    AllFilled(fl.ops) && (fl.curRef.None? ==> Calm(fl.ops))
  }

  // An operation inside a segment.
  predicate Quiet(op: Op) {
    !IsVerseOp(op) && op.attrs.block.None? && op.attrs.table.None? && (op.insert.Str? ==> '\n' !in op.insert.text)
  }

  lemma NoNewline(s: string)
    requires '\n' !in s
    ensures s != "" ==> '\n' !in DropLast(s) && Last(s) != '\n' && s[0] != '\n'
  {
    if s != "" {
      assert Last(s) in s && s[0] in s;
    }
  }

  lemma QuietInserted(ops: seq<Op>, op: Op)
    requires AllFilled(ops) && Quiet(op)
    requires ops != [] && op.attrs == NO_ATTRS && Last(ops).attrs == NO_ATTRS ==> !EndsWithNewline(Last(ops))
    ensures var r := Inserted(ops, op);
            && AllFilled(r)
            && (op.insert != Str("") ==> r != [] && !IsVerseOp(Last(r)) && !EndsWithNewline(Last(r)))
  {
    if op.insert.Str? {
      NoNewline(op.insert.text);
    }
    if op.insert != Str("") && ops != [] && Joins(Last(ops), op) {
      var s, t := Last(ops).insert.text, op.insert.text;
      assert s != "" ==> s == DropLast(s) + [Last(s)];
      assert DropLast(s + t) == s + DropLast(t) && Last(s + t) == Last(t);
      LastReplaced(ops, Op(Str(s + t), op.attrs));
    }
  }

  // Replacing the last operation by one that begins and ends quietly.
  lemma LastReplaced(ops: seq<Op>, op: Op)
    requires AllFilled(ops) && ops != [] && OneNewline(op) && !IsVerseOp(op)
    requires BeginsWithNewline(op) ==> BeginsWithNewline(Last(ops))
    ensures AllFilled(DropLast(ops) + [op])
  {
    assert |ops| > 1 ==> Filled(ops[|ops| - 2], ops[|ops| - 1]);
  }

  lemma AppendedFilled(ops: seq<Op>, op: Op)
    requires AllFilled(ops) && OneNewline(op) && (ops != [] ==> Filled(Last(ops), op))
    ensures AllFilled(ops + [op])
  {
  }

  lemma SegmentFilled(ops: seq<Op>, ref: Option<string>)
    requires AllFilled(ops)
    ensures AllFilled(SegmentEnded(ops, ref))
    ensures var r := SegmentEnded(ops, ref); ref.Some? ==> r != [] && !IsVerseOp(Last(r)) && !EndsWithNewline(Last(r))
  {
    if ref.Some? {
      AppendedFilled(ops, BlankOp(ref.value));
    }
  }

  /** Ending a block leaves no segment empty, if there is a reference to give it a blank. */
  lemma BlockEndFilled(ops: seq<Op>, ref: Option<string>, end: Op)
    requires AllFilled(ops) && end.insert == Str("\n") && OneNewline(end)
    requires ref.Some? || (ops != [] ==> !IsVerseOp(Last(ops)) && !EndsWithNewline(Last(ops)))
    ensures var r := Inserted(SegmentEnded(ops, ref), end);
            AllFilled(r) && r != [] && !IsVerseOp(Last(r)) && Last(r).attrs == end.attrs
  {
    SegmentFilled(ops, ref);
    var ops1 := SegmentEnded(ops, ref);
    if ops1 != [] && Joins(Last(ops1), end) {
      var s := Last(ops1).insert.text;
      assert s != "" ==> s == DropLast(s) + [Last(s)];
      assert DropLast(s + "\n") == s;
      LastReplaced(ops1, Op(Str(s + "\n"), end.attrs));
    } else {
      AppendedFilled(ops1, end);
    }
  }

  // After content that leaves something, the last operation is no newline.
  predicate LeavesContent(fl: Flow) {
    fl.ops != [] && !EndsWithNewline(Last(fl.ops))
  }

  /** Inline content keeps segments filled; and it leaves content unless it has none. */
  lemma {:induction false} WalkFills(cx: Context, fl: Flow, nodes: seq<Node>, chars: seq<Attrs>, inChar: bool)
    requires Going(fl) && Inline(nodes, inChar, false)
    ensures var fl1 := Walked(cx, fl, nodes, chars);
            && Going(fl1) && (fl.curRef.Some? ==> fl1.curRef.Some?)
            && (Norm(nodes) != [] || LeavesContent(fl) ==> LeavesContent(fl1))
    decreases nodes, 0
  {
    if nodes != [] {
      NodeWalkFills(cx, fl, nodes[0], chars, inChar);
      WalkFills(cx, NodeWalked(cx, fl, nodes[0], chars), nodes[1..], chars, inChar);
      if Norm(nodes[1..]) == [] {
        assert Norm(nodes) == NodeNorm(nodes[0]);
      }
    }
  }

  lemma {:induction false} NodeWalkFills(cx: Context, fl: Flow, n: Node, chars: seq<Attrs>, inChar: bool)
    requires Going(fl) && NodeInline(n, inChar, false)
    ensures var fl1 := NodeWalked(cx, fl, n, chars);
            && Going(fl1) && (fl.curRef.Some? ==> fl1.curRef.Some?)
            && (NodeNorm(n) != [] || LeavesContent(fl) ==> LeavesContent(fl1))
    decreases n, 1
  {
    if n.XText? {
      QuietFlow(fl, Op(Str(n.value), InlineAttrs(chars, None, SegmentOf(fl.curRef))));
    } else if n.tag == Ref {
      QuietFlow(fl, Op(Str(InnerText(n.nodes)), InlineAttrs(chars, Some(n.attrs), SegmentOf(fl.curRef))));
    } else if n.tag == Verse {
      VerseFills(cx, fl, n.attrs);
    } else if n.tag == Char {
      var inner := chars + [Identified(cx, n.attrs, fl.guids)];
      if n.nodes == [] {
        QuietFlow(fl, EmptyOp(inner, fl.curRef));
      } else {
        WalkFills(cx, fl.(guids := fl.guids + 1), n.nodes, inner, true);
      }
    } else {
      EmbedFills(cx, fl, n, chars);
    }
  }

  lemma VerseFills(cx: Context, fl: Flow, attrs: Attrs)
    requires Going(fl)
    ensures Going(VerseInserted(cx, fl, attrs)) && LeavesContent(VerseInserted(cx, fl, attrs))
  {
    SegmentFilled(fl.ops, fl.curRef);
    AppendedFilled(SegmentEnded(fl.ops, fl.curRef), Op(Embed(Verse, attrs, []), NO_ATTRS));
  }

  lemma EmbedFills(cx: Context, fl: Flow, n: Node, chars: seq<Attrs>)
    requires Going(fl) && n.XElement? && IsEmbedTag(n.tag)
    ensures var fl1 := NodeWalked(cx, fl, n, chars); Going(fl1) && LeavesContent(fl1) && fl1.curRef == fl.curRef
  {
    var contents := Walked(cx.(chapter := None), Nested([], fl.guids), n.nodes, []);
    QuietFlow(fl, Op(Embed(n.tag, n.attrs, contents.ops), InlineAttrs(chars, None, SegmentOf(fl.curRef))));
  }

  lemma QuietFlow(fl: Flow, op: Op)
    requires Going(fl) && Quiet(op) && (op.attrs == NO_ATTRS ==> fl.curRef.None?)
    ensures var ops := Inserted(fl.ops, op);
            && Going(fl.(ops := ops))
            && (op.insert != Str("") || LeavesContent(fl) ==> LeavesContent(fl.(ops := ops)))
  {
    QuietInserted(fl.ops, op);
  }

  // ----- blocks

  /** The content of a paragraph or a cell and the newline that ends it, under a reference. */
  lemma SegmentWalkFills(cx: Context, fl: Flow, nodes: seq<Node>, end: Op)
    requires Going(fl) && fl.curRef.Some? && Inline(nodes, false, false)
    requires end.insert == Str("\n") && (end.attrs.block.Some? || end.attrs.table.Some?)
    ensures var fl1 := Walked(cx, fl, nodes, []);
            var ops := Inserted(SegmentEnded(fl1.ops, fl1.curRef), end);
            AllFilled(ops) && Calm(ops)
  {
    WalkFills(cx, fl, nodes, [], false);
    var fl1 := Walked(cx, fl, nodes, []);
    assert DropLast("\n") == "";
    BlockEndFilled(fl1.ops, fl1.curRef, end);
  }

  predicate AtBlockEnd(ops: seq<Op>) {
    AllFilled(ops) && Calm(ops)
  }

  lemma CellFills(cx: Context, fl: Flow, n: Node, tableAttrs: Attrs, rowId: string, ref: string)
    requires AtBlockEnd(fl.ops) && n.XElement? && CellOk(n)
    ensures var fl1 := NodeWalked(cx, fl.(curRef := Some(ref)), n, []);
            AtBlockEnd(Inserted(SegmentEnded(fl1.ops, fl1.curRef), CellEnd(tableAttrs, rowId, n)))
  {
    var kids := if n.tag == Cell then n.nodes else [n];
    assert n.tag != Cell ==> kids[1..] == [];
    SegmentWalkFills(cx, fl.(curRef := Some(ref)), kids, CellEnd(tableAttrs, rowId, n));
    assert NodeWalked(cx, fl.(curRef := Some(ref)), n, []) == Walked(cx, fl.(curRef := Some(ref)), kids, []);
  }

  lemma {:induction false} CellsFill(cx: Context, fl: Flow, nodes: seq<Node>, tableAttrs: Attrs, rowId: string, r: nat, c: nat)
    requires AtBlockEnd(fl.ops) && RowOk(nodes)
    ensures AtBlockEnd(CellsWalked(cx, fl, nodes, tableAttrs, rowId, r, c).ops)
    decreases nodes
  {
    if nodes != [] {
      if nodes[0].XElement? {
        var ref := CellRef(fl.tableIndex, r, c);
        CellFills(cx, fl, nodes[0], tableAttrs, rowId, ref);
        var fl1 := NodeWalked(cx, fl.(curRef := Some(ref)), nodes[0], []);
        var ops := Inserted(SegmentEnded(fl1.ops, fl1.curRef), CellEnd(tableAttrs, rowId, nodes[0]));
        CellsFill(cx, fl1.(ops := ops), nodes[1..], tableAttrs, rowId, r, c + 1);
      } else {
        CellsFill(cx, fl, nodes[1..], tableAttrs, rowId, r, c);
      }
    }
  }

  lemma {:induction false} RowsFill(cx: Context, fl: Flow, nodes: seq<Node>, tableAttrs: Attrs, r: nat)
    requires AtBlockEnd(fl.ops) && TableOk(nodes)
    ensures AtBlockEnd(RowsWalked(cx, fl, nodes, tableAttrs, r).ops)
    decreases nodes
  {
    if nodes != [] {
      if IsElement(nodes[0], Row) {
        var rowId := RowId(fl.tableIndex, r);
        CellsFill(cx, fl, nodes[0].nodes, tableAttrs, rowId, r, 1);
        RowsFill(cx, CellsWalked(cx, fl, nodes[0].nodes, tableAttrs, rowId, r, 1), nodes[1..], tableAttrs, r + 1);
      } else {
        RowsFill(cx, fl, nodes[1..], tableAttrs, r);
      }
    }
  }

  // ----- books

  /**
   * Blocks as in the domain, and inline nodes that leave something; no table directly after inline nodes,
   * nor the first chapter mark.
   */
  predicate RootsOk(roots: seq<RootNode>, afterInline: bool, seen: bool)
    decreases roots
  {
    roots == [] ||
    var n := roots[0].node;
    && (if IsBlock(n) then ItemOk(Block(n)) else NodeInline(n, false, false) && NodeNorm(n) != [])
    && (afterInline ==> !IsElement(n, Table) && (IsElement(n, Chapter) ==> seen && "number" in n.attrs))
    && (IsElement(n, Chapter) ==> "number" in n.attrs)
    && RootsOk(roots[1..], !IsBlock(n), seen || IsElement(n, Chapter))
  }

  // What holds between two children of the usx element.
  predicate Between(st: BookState, afterInline: bool) {
    && Going(st.fl) && (!afterInline ==> AtBlockEnd(st.fl.ops))
    && (afterInline ==> LeavesContent(st.fl))
    && (st.implied ==> afterInline)
    && (forall i :: 0 <= i < |st.deltas| ==> AllFilled(st.deltas[i].ops))
  }

  lemma ImpliedFills(st: BookState, afterInline: bool)
    requires Between(st, afterInline)
    ensures AllFilled(ImpliedEnded(st).fl.ops)
  {
    assert DropLast("\n") == "";
    if st.implied {
      BlockEndFilled(st.fl.ops, st.fl.curRef, NEWLINE);
    }
  }

  lemma ParaFills(newGuid: nat -> string, st: BookState, n: Node, afterInline: bool)
    requires Between(st, afterInline) && (IsElement(n, Para) || IsElement(n, Book)) && ItemOk(Block(n))
    ensures var st1 := ParaStep(newGuid, st, n); st1.Some? ==> Between(st1.value, false)
  {
    ImpliedFills(st, afterInline);
    var st0 := ImpliedEnded(st);
    var parts := RefParts(st0.fl.curRef, Get(n.attrs, "style"));
    if parts.Some? {
      var st2 := WithRef(st0, parts.value.0, parts.value.1);
      var bad := !CanContainVerseText(Get(n.attrs, "style")) && HasDescendant(n.nodes, Verse);
      var end := Op(Str("\n"), NO_ATTRS.(block := Some(BlockFormat(n.tag, n.attrs)), invalidBlock := bad));
      SegmentWalkFills(Context(newGuid, st2.curChapter), st2.fl, n.nodes, end);
    }
  }

  lemma ChapterEndedFills(st: BookState, chapter: string, afterInline: bool)
    requires Between(st, afterInline)
    ensures var ds := ChapterEnded(st, chapter).deltas; forall i :: 0 <= i < |ds| ==> AllFilled(ds[i].ops)
    ensures !ChapterEnded(st, chapter).implied
  {
    ImpliedFills(st, afterInline);
  }

  lemma FirstOpFills(op: Op)
    requires OneNewline(op) && !IsVerseOp(op) && op.insert.Embed?
    ensures AtBlockEnd([op])
  {
  }

  lemma ChapterFills(st: BookState, attrs: Attrs, afterInline: bool)
    requires Between(st, afterInline) && (afterInline ==> st.curChapter.Some?)
    ensures Between(ChapterStep(st, attrs), false)
  {
    if st.curChapter.Some? {
      ChapterEndedFills(st, st.curChapter.value, afterInline);
      FirstOpFills(ChapterOp(attrs));
      assert ChapterStep(st, attrs).fl.ops == [ChapterOp(attrs)];
    } else {
      AppendedFilled(st.fl.ops, ChapterOp(attrs));
    }
  }

  lemma TableFills(newGuid: nat -> string, st: BookState, root: RootNode, st1: BookState)
    requires Between(st, false) && IsElement(root.node, Table) && ItemOk(Block(root.node))
    requires RootStep(newGuid, st, root) == Some(st1)
    ensures Between(st1, false)
  {
    var n, t := root.node, st.fl.tableIndex + 1;
    RowsFill(Context(newGuid, st.curChapter), st.fl.(tableIndex := t), n.nodes, n.attrs["id" := TableId(t)], 1);
  }

  lemma InlineFills(newGuid: nat -> string, st: BookState, root: RootNode, afterInline: bool, st1: BookState)
    requires Between(st, afterInline) && RootStep(newGuid, st, root) == Some(st1)
    requires !IsBlock(root.node) && NodeInline(root.node, false, false) && NodeNorm(root.node) != []
    ensures Between(st1, true)
  {
    NodeWalkFills(Context(newGuid, st.curChapter), st.fl, root.node, [], false);
    var v := BR.InlineRootStep(newGuid, st, root);
  }

  lemma RootFills(newGuid: nat -> string, st: BookState, root: RootNode, afterInline: bool, st1: BookState)
    requires Between(st, afterInline) && RootStep(newGuid, st, root) == Some(st1)
    requires if IsBlock(root.node) then ItemOk(Block(root.node))
             else NodeInline(root.node, false, false) && NodeNorm(root.node) != []
    requires afterInline ==> !IsElement(root.node, Table) && (IsElement(root.node, Chapter) ==> st.curChapter.Some?)
    ensures Between(st1, !IsBlock(root.node))
  {
    var n := root.node;
    if !IsBlock(n) {
      InlineFills(newGuid, st, root, afterInline, st1);
    } else if n.tag == Table {
      TableFills(newGuid, st, root, st1);
    } else if n.tag == Chapter {
      ChapterFills(st, n.attrs, afterInline);
    } else {
      ParaFills(newGuid, if n.tag == Book then st.(bookIsValid := root.schemaValid) else st, n, afterInline);
    }
  }

  /**
   * No empty segment: in every chapter Delta a verse is followed by something other than a verse or a
   * newline, and no two newlines stand together, within or across operations.
   */
  lemma {:induction false} SegmentsFilled(newGuid: nat -> string, st: BookState, roots: seq<RootNode>,
                                          afterInline: bool, seen: bool, st1: BookState)
    requires Between(st, afterInline) && RootsOk(roots, afterInline, seen) && (seen ==> st.curChapter.Some?)
    requires BookWalked(newGuid, st, roots) == Some(st1)
    ensures forall i :: 0 <= i < |st1.deltas| ==> AllFilled(st1.deltas[i].ops)
    ensures AllFilled(ImpliedEnded(st1).fl.ops)
    decreases roots
  {
    if roots == [] {
      ImpliedFills(st, afterInline);
    } else {
      var st2, n := RootStep(newGuid, st, roots[0]).value, roots[0].node;
      RootFills(newGuid, st, roots[0], afterInline, st2);
      assert st2.curChapter == if IsElement(n, Chapter) then Get(n.attrs, "number") else st.curChapter;
      SegmentsFilled(newGuid, st2, roots[1..], !IsBlock(n), seen || IsElement(n, Chapter), st1);
    }
  }

  /** The same for the chapter Deltas of a whole book. */
  lemma NoEmptySegment(newGuid: nat -> string, guids: nat, roots: seq<RootNode>, ds: seq<ChapterDelta>)
    requires RootsOk(roots, false, false) && ChapterDeltas(newGuid, guids, roots) == Some(ds)
    ensures forall i :: 0 <= i < |ds| ==> AllFilled(ds[i].ops)
  {
    SegmentsFilled(newGuid, Start(guids), roots, false, false, BookWalked(newGuid, Start(guids), roots).value);
  }
}
