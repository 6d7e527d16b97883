/**
 * Splicing chapter Deltas into an old book: one pass over the children of the usx element with a cursor
 * into the Deltas, and the chapter-wise merge that it amounts to.
 */
module DeltaMerge {
  import opened Text
  import opened Usx
  import opened RichText
  import opened DeltaParser
  import opened DeltaBuilder

  // FirstChapterInvalid is the code's InvalidDataException; Broken stands for its other exceptions.
  datatype MergeError = FirstChapterInvalid | Broken
  datatype MergeResult = Merged(nodes: seq<Node>) | Failed(error: MergeError)

  /** What a chapter Delta puts into the book; None when it does not rebuild. */
  function Content(d: ChapterDelta): Option<seq<Node>> {
    if d.isValid then Rebuilt(d.ops) else Some([])
  }

  predicate IsBookOp(op: Op) {
    op.attrs.block.Some? && op.attrs.block.value.tag == Book
  }

  predicate HasBookOp(ops: seq<Op>) {
    exists i :: 0 <= i < |ops| && IsBookOp(ops[i])
  }

  // The chapter number an element announces; a number that is no integer leaves the previous one.
  function NumberOf(n: Node, previous: int): int
  {
    var number := if n.XElement? && "number" in n.attrs then ParseInt(n.attrs["number"]) else None;
    if number.Some? then number.value else previous
  }

  function Before(nodes: Option<seq<Node>>, rest: MergeResult): MergeResult {
    if nodes.None? then Failed(Broken)
    else match rest
      case Merged(more) => Merged(nodes.value + more)
      case Failed(e) => Failed(e)
  }

  // ----- the merge, chapter by chapter

  /** The children from each chapter mark after the first one on; what precedes belongs to the first chapter. */
  function Segments(nodes: seq<Node>, found: bool): (segs: seq<seq<Node>>)
    ensures segs != []
  {
    if nodes == [] then [[]]
    else
      var rest := Segments(nodes[1..], found || IsElement(nodes[0], Chapter));
      if found && IsElement(nodes[0], Chapter) then [[], [nodes[0]] + rest[0]] + rest[1..]
      else [[nodes[0]] + rest[0]] + rest[1..]
  }

  function Books(nodes: seq<Node>): seq<Node> {
    if nodes == [] then [] else (if IsElement(nodes[0], Book) then [nodes[0]] else []) + Books(nodes[1..])
  }

  /** A chapter's old children replaced by its Delta; an invalid Delta leaves them alone. */
  function Replaced(seg: seq<Node>, d: ChapterDelta): Option<seq<Node>> {
    if !d.isValid then Some(seg)
    else
      var nodes := Rebuilt(d.ops);
      if nodes.None? then None
      else Some((if HasBookOp(d.ops) then [] else Books(seg)) + nodes.value)
  }

  function Appended(deltas: seq<ChapterDelta>): MergeResult {
    if deltas == [] then Merged([]) else Before(Content(deltas[0]), Appended(deltas[1..]))
  }

  function NextNumber(segs: seq<seq<Node>>, n: int): int
    requires segs != []
  {
    if |segs| == 1 || segs[1] == [] then n else NumberOf(segs[1][0], n)
  }

  /**
   * The merge of the old chapters segs, of which the first has number n, with Deltas. A Delta for an old
   * chapter replaces it, one for a smaller number goes before it, and an old chapter without one stays.
   */
  function ChapterMerge(n: int, segs: seq<seq<Node>>, deltas: seq<ChapterDelta>): MergeResult
    decreases |segs| + |deltas|
  {
    if deltas == [] then Merged(Concat(segs))
    else if segs == [] then Appended(deltas)
    else if deltas[0].number == n then
      Before(Replaced(segs[0], deltas[0]), ChapterMerge(NextNumber(segs, n), segs[1..], deltas[1..]))
    else if deltas[0].number < n then
      // the code looks at the Delta after this one even if there is none
      if |deltas| == 1 then Failed(Broken)
      else Before(Content(deltas[0]), ChapterMerge(n, segs, deltas[1..]))
    else
      Before(Some(segs[0]), ChapterMerge(NextNumber(segs, n), segs[1..], deltas))
  }

  function FirstChapter(nodes: seq<Node>): Option<Node> {
    if nodes == [] then None
    else if IsElement(nodes[0], Chapter) then Some(nodes[0])
    else FirstChapter(nodes[1..])
  }

  predicate HasNumber(n: Node) {
    n.XElement? && "number" in n.attrs && ParseInt(n.attrs["number"]).Some?
  }

  // A single Delta without operations is taken for no change at all.
  predicate SingleEmpty(deltas: seq<ChapterDelta>) {
    |deltas| == 1 && deltas[0].ops == []
  }

  /** The spliced book. */
  function Spliced(nodes: seq<Node>, deltas: seq<ChapterDelta>): MergeResult {
    if deltas == [] then Failed(Broken)
    else if SingleEmpty(deltas) then Merged(nodes)
    else if FirstChapter(nodes).Some? && !HasNumber(FirstChapter(nodes).value) then Failed(FirstChapterInvalid)
    else ChapterMerge(deltas[0].number, Segments(nodes, false), deltas)
  }

  // ----- the pass over the children

  // The cursors of the pass: the Deltas not used up, the current chapter number, and whether the first
  // chapter mark was seen.
  datatype Cursor = Cursor(deltas: seq<ChapterDelta>, chapter: int, found: bool)

  /** The Deltas for missing chapters that go before a chapter: what they add, and what is left. */
  function Skipped(deltas: seq<ChapterDelta>, n: int): (r: Option<(seq<Node>, seq<ChapterDelta>)>)
    requires deltas != []
    ensures r.Some? ==> r.value.1 != [] && r.value.1[0].number >= n
  {
    if deltas[0].number >= n then Some(([], deltas))
    else
      var nodes := Content(deltas[0]);
      if nodes.None? || |deltas| == 1 then None
      else
        var more := Skipped(deltas[1..], n);
        if more.None? then None else Some((nodes.value + more.value.0, more.value.1))
  }

  predicate IsRemoved(c: Cursor, n: Node)
    requires c.deltas != []
  {
    c.deltas[0].number == c.chapter && c.deltas[0].isValid && (!IsElement(n, Book) || HasBookOp(c.deltas[0].ops))
  }

  /** The children from here on, after the pass. */
  function Passed(nodes: seq<Node>, c: Cursor): MergeResult
    requires c.deltas != []
    decreases |nodes|, 1
  {
    if nodes == [] then Appended(c.deltas)
    else if IsElement(nodes[0], Chapter) && c.found then
      var d := c.deltas[0];
      var left := if d.number == c.chapter then c.deltas[1..] else c.deltas;
      var chapter := NumberOf(nodes[0], c.chapter);
      Before(if d.number == c.chapter then Content(d) else Some([]), ChapterPassed(nodes, left, chapter))
    else if IsElement(nodes[0], Chapter) && !HasNumber(nodes[0]) then Failed(FirstChapterInvalid)
    else ChildPassed(nodes, c.(found := c.found || IsElement(nodes[0], Chapter)))
  }

  function ChapterPassed(nodes: seq<Node>, deltas: seq<ChapterDelta>, chapter: int): MergeResult
    requires nodes != []
    decreases |nodes|, 0
  {
    if deltas == [] then Merged(nodes)
    else
      var skipped := Skipped(deltas, chapter);
      if skipped.None? then Failed(Broken)
      else Before(Some(skipped.value.0), ChildPassed(nodes, Cursor(skipped.value.1, chapter, true)))
  }

  function ChildPassed(nodes: seq<Node>, c: Cursor): MergeResult
    requires nodes != [] && c.deltas != []
    decreases |nodes| - 1, 2
  {
    Before(Some(if IsRemoved(c, nodes[0]) then [] else [nodes[0]]), Passed(nodes[1..], c))
  }

  // ----- the pass is the chapter-wise merge

  lemma {:induction false} SegmentsOf(nodes: seq<Node>, found: bool)
    ensures Concat(Segments(nodes, found)) == nodes
  {
    if nodes == [] {
      assert Concat(Segments(nodes, found)) == [] + Concat([]);
    } else {
      var rest := Segments(nodes[1..], found || IsElement(nodes[0], Chapter));
      SegmentsOf(nodes[1..], found || IsElement(nodes[0], Chapter));
      var segs := Segments(nodes, found);
      assert Concat(rest) == rest[0] + Concat(rest[1..]);
      if found && IsElement(nodes[0], Chapter) {
        assert segs[1..][0] == [nodes[0]] + rest[0] && segs[1..][1..] == rest[1..];
        assert Concat(segs) == [] + (([nodes[0]] + rest[0]) + Concat(rest[1..]));
      } else {
        assert segs[1..] == rest[1..];
        PlusAssoc([nodes[0]], rest[0], Concat(rest[1..]));
      }
    }
  }

  lemma BeforeTwice(a: seq<Node>, b: Option<seq<Node>>, rest: MergeResult)
    ensures Before(Some(a), Before(b, rest)) == Before(if b.None? then None else Some(a + b.value), rest)
  {
    if b.Some? && rest.Merged? {
      PlusAssoc(a, b.value, rest.nodes);
    }
  }

  /** One more child at the front of the current chapter is kept or removed, and changes nothing else. */
  lemma ChildMerged(n: int, child: Node, seg: seq<Node>, segs: seq<seq<Node>>, deltas: seq<ChapterDelta>)
    requires deltas != [] && deltas[0].number >= n
    ensures ChapterMerge(n, [[child] + seg] + segs, deltas)
         == Before(Some(if IsRemoved(Cursor(deltas, n, true), child) then [] else [child]), ChapterMerge(n, [seg] + segs, deltas))
  {
    var more, less := [[child] + seg] + segs, [seg] + segs;
    assert more[1..] == segs && less[1..] == segs;
    var kept := if IsRemoved(Cursor(deltas, n, true), child) then [] else [child];
    if deltas[0].number == n {
      var rest := ChapterMerge(NextNumber(more, n), segs, deltas[1..]);
      assert ([child] + seg)[1..] == seg;
      PlusAssoc(kept, Books(seg), Rebuilt(deltas[0].ops).GetOr([]));
      BeforeTwice(kept, Replaced(seg, deltas[0]), rest);
    } else {
      BeforeTwice(kept, Some(seg), ChapterMerge(NextNumber(more, n), segs, deltas));
    }
  }

  lemma {:induction false} SkippedMerged(n: int, segs: seq<seq<Node>>, deltas: seq<ChapterDelta>)
    requires deltas != [] && segs != []
    ensures var s := Skipped(deltas, n);
            ChapterMerge(n, segs, deltas)
              == if s.None? then Failed(Broken) else Before(Some(s.value.0), ChapterMerge(n, segs, s.value.1))
    decreases |deltas|
  {
    if deltas[0].number < n {
      if |deltas| > 1 {
        SkippedMerged(n, segs, deltas[1..]);
        var s, c := Skipped(deltas[1..], n), Content(deltas[0]);
        if s.Some? && c.Some? {
          BeforeTwice(c.value, Some(s.value.0), ChapterMerge(n, segs, s.value.1));
        }
      }
    } else {
      NothingBefore(ChapterMerge(n, segs, deltas));
    }
  }

  lemma NothingBefore(r: MergeResult)
    ensures Before(Some([]), r) == r
  {
    if r.Merged? {
      assert [] + r.nodes == r.nodes;
    }
  }

  lemma {:induction false} PassedMerged(nodes: seq<Node>, c: Cursor)
    requires c.deltas != [] && c.deltas[0].number >= c.chapter
    requires !c.found && FirstChapter(nodes).Some? ==> HasNumber(FirstChapter(nodes).value)
    ensures Passed(nodes, c) == ChapterMerge(c.chapter, Segments(nodes, c.found), c.deltas)
    decreases |nodes|, 2
  {
    if nodes == [] {
      NoMoreChildren(c);
    } else if IsElement(nodes[0], Chapter) && c.found {
      var left := if c.deltas[0].number == c.chapter then c.deltas[1..] else c.deltas;
      var chapter := NumberOf(nodes[0], c.chapter);
      ChapterPassedMerged(nodes, left, chapter);
      ChapterBoundary(nodes, c);
    } else {
      ChildPassedMerged(nodes, c.(found := c.found || IsElement(nodes[0], Chapter)));
    }
  }

  lemma NoMoreChildren(c: Cursor)
    requires c.deltas != [] && c.deltas[0].number >= c.chapter
    ensures Appended(c.deltas) == ChapterMerge(c.chapter, [[]], c.deltas)
  {
    NothingBefore(Appended(c.deltas));
    EmptyReplaced(c.deltas[0]);
    var segs: seq<seq<Node>> := [[]];
    assert segs[1..] == [];
    assert Concat<Node>([]) == [];
  }

  lemma EmptyReplaced(d: ChapterDelta)
    ensures Replaced([], d) == Content(d)
  {
    if Rebuilt(d.ops).Some? {
      assert [] + Rebuilt(d.ops).value == Rebuilt(d.ops).value;
    }
  }

  /** A chapter mark ends the old chapter before it, whose own Delta has its content put in here. */
  lemma ChapterBoundary(nodes: seq<Node>, c: Cursor)
    requires nodes != [] && IsElement(nodes[0], Chapter) && c.found
    requires c.deltas != [] && c.deltas[0].number >= c.chapter
    ensures var d := c.deltas[0];
            var left := if d.number == c.chapter then c.deltas[1..] else c.deltas;
            var rest := Segments(nodes[1..], true);
            var segs := [[nodes[0]] + rest[0]] + rest[1..];
            ChapterMerge(c.chapter, Segments(nodes, true), c.deltas)
              == Before(if d.number == c.chapter then Content(d) else Some([]),
                        ChapterMerge(NumberOf(nodes[0], c.chapter), segs, left))
  {
    var rest := Segments(nodes[1..], true);
    var segs := [[nodes[0]] + rest[0]] + rest[1..];
    assert Segments(nodes, true) == [[]] + segs;
    assert ([[]] + segs)[1..] == segs;
    EmptyReplaced(c.deltas[0]);
  }

  lemma {:induction false} ChapterPassedMerged(nodes: seq<Node>, deltas: seq<ChapterDelta>, chapter: int)
    requires nodes != [] && IsElement(nodes[0], Chapter)
    ensures var rest := Segments(nodes[1..], true);
            ChapterPassed(nodes, deltas, chapter) == ChapterMerge(chapter, [[nodes[0]] + rest[0]] + rest[1..], deltas)
    decreases |nodes|, 1
  {
    var rest := Segments(nodes[1..], true);
    var segs := [[nodes[0]] + rest[0]] + rest[1..];
    if deltas == [] {
      SegmentsOf(nodes, false);
      assert Segments(nodes, false) == segs;
    } else {
      SkippedMerged(chapter, segs, deltas);
      var skipped := Skipped(deltas, chapter);
      if skipped.Some? {
        ChildPassedMerged(nodes, Cursor(skipped.value.1, chapter, true));
      }
    }
  }

  lemma {:induction false} ChildPassedMerged(nodes: seq<Node>, c: Cursor)
    requires nodes != [] && c.deltas != [] && c.deltas[0].number >= c.chapter
    requires !c.found && FirstChapter(nodes[1..]).Some? ==> HasNumber(FirstChapter(nodes[1..]).value)
    ensures var rest := Segments(nodes[1..], c.found);
            ChildPassed(nodes, c) == ChapterMerge(c.chapter, [[nodes[0]] + rest[0]] + rest[1..], c.deltas)
    decreases |nodes|, 0
  {
    var rest := Segments(nodes[1..], c.found);
    PassedMerged(nodes[1..], c);
    ChildMerged(c.chapter, nodes[0], rest[0], rest[1..], c.deltas);
    assert [rest[0]] + rest[1..] == rest;
  }

  lemma {:induction false} BadFirstChapter(nodes: seq<Node>, c: Cursor)
    requires c.deltas != [] && !c.found && FirstChapter(nodes).Some? && !HasNumber(FirstChapter(nodes).value)
    ensures Passed(nodes, c) == Failed(FirstChapterInvalid)
    decreases |nodes|
  {
    if !IsElement(nodes[0], Chapter) {
      BadFirstChapter(nodes[1..], c);
    }
  }

  /** The pass over the children computes the chapter-wise merge, whatever the order of the numbers. */
  lemma PassIsSplice(nodes: seq<Node>, deltas: seq<ChapterDelta>)
    requires deltas != [] && !SingleEmpty(deltas)
    ensures Passed(nodes, Cursor(deltas, deltas[0].number, false)) == Spliced(nodes, deltas)
  {
    var c := Cursor(deltas, deltas[0].number, false);
    if FirstChapter(nodes).Some? && !HasNumber(FirstChapter(nodes).value) {
      BadFirstChapter(nodes, c);
    } else {
      PassedMerged(nodes, c);
    }
  }

  // ----- when the merge succeeds, and what it leaves alone

  // The numbers of the old chapters after the first, each with the previous number in place of a bad one.
  function LaterNumbers(segs: seq<seq<Node>>, n: int): seq<int>
    requires segs != []
    decreases |segs|
  {
    if |segs| == 1 then [] else [NextNumber(segs, n)] + LaterNumbers(segs[1..], NextNumber(segs, n))
  }

  predicate AllRebuild(deltas: seq<ChapterDelta>) {
    forall i :: 0 <= i < |deltas| ==> Content(deltas[i]).Some?
  }

  predicate Ascending(s: seq<int>) {
    forall i, j :: 0 <= i < j < |s| ==> s[i] < s[j]
  }

  function Numbers(deltas: seq<ChapterDelta>): (r: seq<int>)
    ensures |r| == |deltas| && forall i :: 0 <= i < |deltas| ==> r[i] == deltas[i].number
  {
    if deltas == [] then [] else [deltas[0].number] + Numbers(deltas[1..])
  }

  lemma {:induction false} AppendedAlways(deltas: seq<ChapterDelta>)
    requires AllRebuild(deltas)
    ensures Appended(deltas).Merged?
  {
    if deltas != [] {
      assert Content(deltas[0]).Some?;
      assert AllRebuild(deltas[1..]);
      AppendedAlways(deltas[1..]);
    }
  }

  /** Whether a merge of sorted numbers gets by without looking past the end of the new ones. */
  predicate Reaches(olds: seq<int>, news: seq<int>)
    decreases |olds| + |news|
  {
    if olds == [] || news == [] then true
    else if news[0] == olds[0] then Reaches(olds[1..], news[1..])
    else if news[0] < olds[0] then |news| > 1 && Reaches(olds, news[1..])
    else Reaches(olds[1..], news)
  }

  function OldNumbers(n: int, segs: seq<seq<Node>>): seq<int> {
    if segs == [] then [] else [n] + LaterNumbers(segs, n)
  }

  lemma OldNumbersTail(n: int, segs: seq<seq<Node>>)
    requires segs != []
    ensures OldNumbers(n, segs)[0] == n
    ensures OldNumbers(n, segs)[1..] == OldNumbers(NextNumber(segs, n), segs[1..])
  {
  }

  lemma {:induction false} MergeReaches(n: int, segs: seq<seq<Node>>, deltas: seq<ChapterDelta>)
    requires AllRebuild(deltas)
    ensures ChapterMerge(n, segs, deltas).Merged? <==> Reaches(OldNumbers(n, segs), Numbers(deltas))
    decreases |segs| + |deltas|
  {
    if segs == [] {
      AppendedAlways(deltas);
    } else if deltas != [] {
      OldNumbersTail(n, segs);
      assert Content(deltas[0]).Some? && AllRebuild(deltas[1..]);
      assert Numbers(deltas)[1..] == Numbers(deltas[1..]);
      if deltas[0].number == n {
        MergeReaches(NextNumber(segs, n), segs[1..], deltas[1..]);
      } else if deltas[0].number < n {
        MergeReaches(n, segs, deltas[1..]);
      } else {
        MergeReaches(NextNumber(segs, n), segs[1..], deltas);
      }
    }
  }

  lemma {:induction false} ReachesIff(olds: seq<int>, news: seq<int>)
    requires olds != [] && news != [] && Ascending(olds) && Ascending(news)
    ensures Reaches(olds, news) <==> (Last(news) in olds || Last(news) > Last(olds))
    decreases |olds| + |news|
  {
    AscendingTail(olds);
    AscendingTail(news);
    assert olds == [olds[0]] + olds[1..];
    if news[0] == olds[0] {
      if |olds| > 1 && |news| > 1 {
        ReachesIff(olds[1..], news[1..]);
      }
    } else if news[0] < olds[0] {
      if |news| > 1 {
        ReachesIff(olds, news[1..]);
      }
    } else if |olds| > 1 {
      ReachesIff(olds[1..], news);
      assert Last(news) >= news[0] > olds[0];
    }
  }

  /**
   * With ascending chapter numbers on both sides, the merge runs past the end of the Deltas exactly when
   * the last Delta is for a chapter that is missing from the old book and smaller than its last one.
   */
  lemma MergeSucceedsIff(n: int, segs: seq<seq<Node>>, deltas: seq<ChapterDelta>)
    requires segs != [] && deltas != [] && AllRebuild(deltas)
    requires Ascending(OldNumbers(n, segs)) && Ascending(Numbers(deltas))
    ensures ChapterMerge(n, segs, deltas).Merged? <==>
              (Last(deltas).number in OldNumbers(n, segs) || Last(deltas).number > Last(OldNumbers(n, segs)))
  {
    MergeReaches(n, segs, deltas);
    ReachesIff(OldNumbers(n, segs), Numbers(deltas));
  }

  function Mark(number: string): Node {
    XElement(Chapter, map["number" := number], [])
  }

  /** A book with chapters 1 and 5, and Deltas for 1 and 3: the code looks for a Delta after the last one. */
  lemma MissingChapterFails(one: ChapterDelta, three: ChapterDelta)
    requires one.number == 1 && three.number == 3
    ensures Spliced([Mark("1"), Mark("5")], [one, three]) == Failed(Broken)
  {
    ReadsOne();
    ReadsFive();
    var nodes, deltas := [Mark("1"), Mark("5")], [one, three];
    assert nodes[1..] == [Mark("5")] && nodes[1..][1..] == [];
    assert [Mark("5")] + Segments([], true)[0] == [Mark("5")] && [Mark("1")] + [] == [Mark("1")];
    assert Segments(nodes[1..], true) == [[], [Mark("5")]];
    var segs := Segments(nodes, false);
    assert segs == [[Mark("1")], [Mark("5")]];
    assert ChapterMerge(5, segs[1..], deltas[1..]) == Failed(Broken);
  }

  lemma ReadsFive()
    ensures ParseInt("5") == Some(5)
  {
    assert TrimStart("5") == "5" && TrimEnd("5") == "5";
    assert DropLast("5") == "" && DigitsValue("5") == 10 * DigitsValue("") + 5;
  }

  lemma AscendingTail(s: seq<int>)
    requires Ascending(s) && s != []
    ensures Ascending(s[1..]) && (forall x :: x in s[1..] ==> s[0] < x)
  {
  }

  /** Deltas that are all invalid leave the book as it is, or fail for lack of a Delta. */
  lemma {:induction false} InvalidChangesNothing(n: int, segs: seq<seq<Node>>, deltas: seq<ChapterDelta>)
    requires forall i :: 0 <= i < |deltas| ==> !deltas[i].isValid
    ensures ChapterMerge(n, segs, deltas).Merged? ==> ChapterMerge(n, segs, deltas) == Merged(Concat(segs))
    decreases |segs| + |deltas|
  {
    if deltas != [] && segs != [] {
      if deltas[0].number == n {
        InvalidChangesNothing(NextNumber(segs, n), segs[1..], deltas[1..]);
      } else if deltas[0].number < n {
        InvalidChangesNothing(n, segs, deltas[1..]);
        assert [] + Concat(segs) == Concat(segs);
      } else {
        InvalidChangesNothing(NextNumber(segs, n), segs[1..], deltas);
      }
    } else if segs == [] {
      NoneAppended(deltas);
    }
  }

  lemma {:induction false} NoneAppended(deltas: seq<ChapterDelta>)
    requires forall i :: 0 <= i < |deltas| ==> !deltas[i].isValid
    ensures Appended(deltas) == Merged([])
  {
    if deltas != [] {
      NoneAppended(deltas[1..]);
    }
  }
}
