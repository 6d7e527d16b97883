/**
 * The other law of the mapper: after chapter Deltas are spliced into a book, parsing the book gives those
 * Deltas for their chapters and the old Deltas for the others, up to generated names.
 */
module PutGet {
  import opened Text
  import opened Usx
  import opened RichText
  import opened DeltaParser
  import opened DeltaBuilder
  import opened DeltaMerge
  import opened BookDomain
  import opened BookRoundTrip
  import opened DeltaIds
  import opened WalkIds
  import opened WholeBook

  // ----- the chapters of a book

  predicate StartsWithMark(chapter: seq<Node>) {
    chapter != [] && IsElement(chapter[0], Chapter) && Marks(chapter) == 1
  }

  // One chapter mark each, at the front of every chapter but the first; found if one came before.
  predicate ChaptersOk(chapters: seq<seq<Node>>, found: bool) {
    && chapters != []
    && Marks(chapters[0]) + (if found then 1 else 0) <= 1
    && (|chapters| > 1 ==> found || Marks(chapters[0]) == 1)
    && forall i :: 1 <= i < |chapters| ==> StartsWithMark(chapters[i])
  }

  lemma {:induction false} SegmentsAreOk(nodes: seq<Node>, found: bool)
    ensures ChaptersOk(Segments(nodes, found), found)
  {
    if nodes != [] {
      var isMark := IsElement(nodes[0], Chapter);
      var rest := Segments(nodes[1..], found || isMark);
      SegmentsAreOk(nodes[1..], found || isMark);
      assert ([nodes[0]] + rest[0])[1..] == rest[0];
    }
  }

  // Without the first child of the first chapter.
  lemma OneChildLess(first: seq<Node>, later: seq<seq<Node>>)
    requires first != []
    ensures Concat([first] + later)[..1] == [first[0]] && Concat([first] + later)[1..] == Concat([first[1..]] + later)
  {
    Tail(first, later);
    Tail(first[1..], later);
  }

  lemma NothingFirst(later: seq<seq<Node>>)
    ensures Concat([[]] + later) == Concat(later)
  {
    Tail([], later);
    PlusNothing(Concat(later));
  }

  // The chapters from the next child on, if that child begins a chapter or continues one.
  lemma NextSegment(nodes: seq<Node>, found: bool, first: seq<Node>, later: seq<seq<Node>>)
    requires nodes != [] && first != [] && nodes[0] == first[0]
    requires Segments(nodes[1..], found || IsElement(nodes[0], Chapter)) == [first[1..]] + later
    ensures Segments(nodes, found) == if found && IsElement(nodes[0], Chapter) then [[]] + ([first] + later) else [first] + later
  {
    Tail(first[1..], later);
    HeadTail(first);
    PlusAssoc([[]], [first], later);
    assert [[]] + [first] == [[], first];
  }

  /** Chapters that are put together are found again. */
  lemma {:induction false} SegmentsOfChapters(chapters: seq<seq<Node>>, found: bool)
    requires ChaptersOk(chapters, found)
    ensures Segments(Concat(chapters), found) == chapters
    decreases Concat(chapters)
  {
    HeadTail(chapters);
    var nodes, first, later := Concat(chapters), chapters[0], chapters[1..];
    if first != [] {
      OneChildLess(first, later);
      SegmentsOfChapters([first[1..]] + later, found || IsElement(first[0], Chapter));
      NextSegment(nodes, found, first, later);
    } else if later != [] {
      HeadTail(later);
      NothingFirst(later);
      OneChildLess(later[0], later[1..]);
      SegmentsOfChapters([later[0][1..]] + later[1..], true);
      NextSegment(nodes, true, later[0], later[1..]);
    } else {
      assert chapters == [[]] && Concat(later) == [];
    }
  }

  lemma {:induction false} InConcat(chapters: seq<seq<Node>>, i: nat)
    requires i < |chapters|
    ensures forall n :: n in chapters[i] ==> n in Concat(chapters)
  {
    if i > 0 {
      InConcat(chapters[1..], i - 1);
    }
  }

  // A chapter with its Delta.
  datatype Part = Part(chapter: seq<Node>, ops: seq<Op>)

  /** A chapter that does not depend on its place in a book, and a Delta of it. */
  ghost predicate PartOk(newGuid: nat -> string, p: Part) {
    AllRenamable(p.chapter) && AllNumbered(p.chapter) && IsDeltaOf(newGuid, p.ops, p.chapter)
  }

  // ----- where a Delta comes from

  // A book that was parsed, and the number of one of its chapters.
  datatype Origin = Origin(guids: nat, roots: seq<RootNode>, chapter: nat)

  ghost predicate IsOrigin(newGuid: nat -> string, d: ChapterDelta, chapter: seq<Node>, o: Origin) {
    var ds, chapters := ChapterDeltas(newGuid, o.guids, o.roots), Segments(NodesOf(o.roots), false);
    && ds.Some? && AllNumbered(NodesOf(o.roots)) && o.chapter < |ds.value| && o.chapter < |chapters|
    && ds.value[o.chapter].ops == d.ops && chapters[o.chapter] == chapter
  }

  /** The Delta is that of a chapter of some book, in the domain and canonical. */
  ghost predicate ComesFrom(newGuid: nat -> string, d: ChapterDelta, chapter: seq<Node>) {
    && (exists o :: IsOrigin(newGuid, d, chapter, o))
    && ItemsOk(Grouped(chapter)) && ItemsCanonical(Grouped(chapter)) && AllRenamable(chapter)
  }

  lemma OriginDelivers(newGuid: nat -> string, d: ChapterDelta, chapter: seq<Node>, o: Origin)
    requires Injective(newGuid) && IsOrigin(newGuid, d, chapter, o)
    ensures Delivers(newGuid, d, chapter) && AllNumbered(chapter) && Marks(chapter) <= 1
  {
    var ds, chapters := ChapterDeltas(newGuid, o.guids, o.roots).value, Segments(NodesOf(o.roots), false);
    DeltasDeliver(newGuid, o.guids, o.roots, ds);
    DeliversAt(newGuid, ds, chapters, o.chapter, ds[o.chapter], chapter);
    ChaptersOfBook(NodesOf(o.roots), o.chapter);
  }

  lemma ChaptersOfBook(nodes: seq<Node>, i: nat)
    requires i < |Segments(nodes, false)|
    ensures var chapter := Segments(nodes, false)[i];
            && (AllNumbered(nodes) ==> AllNumbered(chapter)) && (AllRenamable(nodes) ==> AllRenamable(chapter))
            && Marks(chapter) <= 1
  {
    SegmentsAreOk(nodes, false);
    SegmentsOf(nodes, false);
    InConcat(Segments(nodes, false), i);
  }

  lemma CanonicalDelivered(newGuid: nat -> string, d: ChapterDelta, chapter: seq<Node>)
    requires Injective(newGuid) && ComesFrom(newGuid, d, chapter)
    ensures Rebuilt(d.ops) == Some(chapter) && PartOk(newGuid, Part(chapter, d.ops)) && Marks(chapter) <= 1
  {
    var o :| IsOrigin(newGuid, d, chapter, o);
    OriginDelivers(newGuid, d, chapter, o);
    BookNormalIff(Grouped(chapter));
    UngroupedGrouped(chapter);
  }

  // ----- what the spliced book consists of

  function Chapters(parts: seq<Part>): (r: seq<seq<Node>>)
    ensures |r| == |parts| && forall i :: 0 <= i < |parts| ==> r[i] == parts[i].chapter
  {
    if parts == [] then [] else [parts[0].chapter] + Chapters(parts[1..])
  }

  /**
   * The chapters one expects in the spliced book: the old chapter n and those after it, with Deltas olds,
   * except that a valid Delta brings its own chapter, instead of the old one with its number if there is
   * one. news are the chapters that the Deltas ds come from.
   */
  function Expected(n: int, segs: seq<seq<Node>>, olds: seq<ChapterDelta>, ds: seq<ChapterDelta>, news: seq<seq<Node>>): seq<Part>
    requires |olds| == |segs| && |news| == |ds|
    decreases |segs| + |ds|
  {
    if segs == [] && ds == [] then []
    else if ds == [] || (segs != [] && ds[0].number > n) then
      [Part(segs[0], olds[0].ops)] + Expected(NextNumber(segs, n), segs[1..], olds[1..], ds, news)
    else
      var brought := if ds[0].isValid then [Part(news[0], ds[0].ops)] else [];
      if segs == [] || ds[0].number < n then brought + Expected(n, segs, olds, ds[1..], news[1..])
      else
        (if ds[0].isValid then brought else [Part(segs[0], olds[0].ops)])
        + Expected(NextNumber(segs, n), segs[1..], olds[1..], ds[1..], news[1..])
  }

  lemma ChaptersAppend(a: seq<Part>, b: seq<Part>)
    ensures Concat(Chapters(a + b)) == Concat(Chapters(a)) + Concat(Chapters(b))
  {
    assert Chapters(a + b) == Chapters(a) + Chapters(b);
    ConcatAppend(Chapters(a), Chapters(b));
  }

  lemma OneChapterPart(p: Part)
    ensures Concat(Chapters([p])) == p.chapter
  {
    assert Chapters([p]) == [p.chapter] && Concat([p.chapter]) == p.chapter + Concat([]);
  }

  // Every valid Delta rebuilds to its chapter.
  predicate AllRebuild(ds: seq<ChapterDelta>, news: seq<seq<Node>>) {
    |ds| == |news| && forall i :: 0 <= i < |ds| && ds[i].isValid ==> Rebuilt(ds[i].ops) == Some(news[i])
  }

  predicate NoBooks(segs: seq<seq<Node>>) {
    forall i :: 0 <= i < |segs| ==> Books(segs[i]) == []
  }

  /** Book elements stand in the first chapter only, and a valid Delta for that chapter brings its own. */
  predicate BooksSafe(n: int, segs: seq<seq<Node>>, ds: seq<ChapterDelta>) {
    segs == [] ||
    (NoBooks(segs[1..]) &&
     (Books(segs[0]) == [] || ds == [] || ds[0].number > n ||
      (ds[0].number == n && (ds[0].isValid ==> HasBookOp(ds[0].ops)))))
  }

  /** The merge gives the expected chapters. */
  lemma {:induction false} MergeIsExpected(n: int, segs: seq<seq<Node>>, olds: seq<ChapterDelta>,
                                           ds: seq<ChapterDelta>, news: seq<seq<Node>>)
    requires |olds| == |segs| && AllRebuild(ds, news) && BooksSafe(n, segs, ds)
    ensures ChapterMerge(n, segs, ds).Merged? ==>
              ChapterMerge(n, segs, ds) == Merged(Concat(Chapters(Expected(n, segs, olds, ds, news))))
    decreases |segs| + |ds|
  {
    if segs == [] && ds == [] {
    } else if ds == [] || (segs != [] && ds[0].number > n) {
      var p := Part(segs[0], olds[0].ops);
      MergeIsExpected(NextNumber(segs, n), segs[1..], olds[1..], ds, news);
      ChaptersAppend([p], Expected(NextNumber(segs, n), segs[1..], olds[1..], ds, news));
      OneChapterPart(p);
    } else {
      var brought := if ds[0].isValid then [Part(news[0], ds[0].ops)] else [];
      OneChapterPart(Part(news[0], ds[0].ops));
      assert Concat(Chapters(brought)) == Content(ds[0]).value;
      if segs == [] || ds[0].number < n {
        MergeIsExpected(n, segs, olds, ds[1..], news[1..]);
        ChaptersAppend(brought, Expected(n, segs, olds, ds[1..], news[1..]));
      } else {
        var p := if ds[0].isValid then brought else [Part(segs[0], olds[0].ops)];
        OneChapterPart(Part(segs[0], olds[0].ops));
        assert [] + news[0] == news[0];
        assert Replaced(segs[0], ds[0]) == Some(Concat(Chapters(p)));
        MergeIsExpected(NextNumber(segs, n), segs[1..], olds[1..], ds[1..], news[1..]);
        ChaptersAppend(p, Expected(NextNumber(segs, n), segs[1..], olds[1..], ds[1..], news[1..]));
      }
    }
  }

  // ----- parsing the spliced book

  // The old chapters with their Deltas, and those that valid Deltas bring.
  ghost function Candidates(segs: seq<seq<Node>>, olds: seq<ChapterDelta>, ds: seq<ChapterDelta>, news: seq<seq<Node>>): set<Part>
    requires |olds| == |segs| && |news| == |ds|
  {
    (set i | 0 <= i < |segs| :: Part(segs[i], olds[i].ops)) + (set i | 0 <= i < |ds| && ds[i].isValid :: Part(news[i], ds[i].ops))
  }

  lemma FewerCandidates(segs: seq<seq<Node>>, olds: seq<ChapterDelta>, ds: seq<ChapterDelta>, news: seq<seq<Node>>)
    requires |olds| == |segs| && |news| == |ds|
    ensures segs != [] ==> Candidates(segs[1..], olds[1..], ds, news) <= Candidates(segs, olds, ds, news)
    ensures segs != [] ==> Part(segs[0], olds[0].ops) in Candidates(segs, olds, ds, news)
    ensures ds != [] ==> Candidates(segs, olds, ds[1..], news[1..]) <= Candidates(segs, olds, ds, news)
    ensures ds != [] && ds[0].isValid ==> Part(news[0], ds[0].ops) in Candidates(segs, olds, ds, news)
  {
    if segs != [] {
      assert forall i :: 0 <= i < |segs[1..]| ==> segs[1..][i] == segs[i + 1] && olds[1..][i] == olds[i + 1];
    }
    if ds != [] {
      assert forall i :: 0 <= i < |ds[1..]| ==> ds[1..][i] == ds[i + 1] && news[1..][i] == news[i + 1];
    }
  }

  lemma {:induction false} ExpectedAmong(n: int, segs: seq<seq<Node>>, olds: seq<ChapterDelta>, ds: seq<ChapterDelta>,
                                         news: seq<seq<Node>>)
    requires |olds| == |segs| && |news| == |ds|
    ensures forall p :: p in Expected(n, segs, olds, ds, news) ==> p in Candidates(segs, olds, ds, news)
    decreases |segs| + |ds|
  {
    FewerCandidates(segs, olds, ds, news);
    if segs == [] && ds == [] {
    } else if ds == [] || (segs != [] && ds[0].number > n) {
      ExpectedAmong(NextNumber(segs, n), segs[1..], olds[1..], ds, news);
    } else if segs == [] || ds[0].number < n {
      ExpectedAmong(n, segs, olds, ds[1..], news[1..]);
    } else {
      FewerCandidates(segs, olds, ds[1..], news[1..]);
      ExpectedAmong(NextNumber(segs, n), segs[1..], olds[1..], ds[1..], news[1..]);
    }
  }

  lemma {:induction false} AllInParts(newGuid: nat -> string, parts: seq<Part>)
    requires forall p :: p in parts ==> PartOk(newGuid, p)
    ensures AllRenamable(Concat(Chapters(parts))) && AllNumbered(Concat(Chapters(parts)))
  {
    if parts != [] {
      AllInParts(newGuid, parts[1..]);
      var rest := Concat(Chapters(parts[1..]));
      assert Chapters(parts)[1..] == Chapters(parts[1..]);
      assert Concat(Chapters(parts)) == parts[0].chapter + rest;
      assert PartOk(newGuid, parts[0]);
      forall x | x in parts[0].chapter + rest ensures Renamable(x) && (IsElement(x, Chapter) ==> HasNumber(x)) {
        assert x in parts[0].chapter || x in rest;
      }
    }
  }

  /** The first part is the old first chapter or what replaces it; the others start with chapter marks. */
  lemma ExpectedChapters(n: int, segs: seq<seq<Node>>, olds: seq<ChapterDelta>, ds: seq<ChapterDelta>, news: seq<seq<Node>>,
                         parts: seq<Part>)
    requires |olds| == |segs| && |news| == |ds| && segs != [] && ds != [] && ds[0].number == n
    requires forall p :: p in Candidates(segs[1..], olds[1..], ds[1..], news[1..]) ==> StartsWithMark(p.chapter)
    requires var first := if ds[0].isValid then news[0] else segs[0];
             Marks(first) <= 1 && (|segs| + |ds| > 2 ==> Marks(first) == 1)
    requires parts == Expected(n, segs, olds, ds, news)
    ensures ChaptersOk(Chapters(parts), false)
  {
    var rest := Expected(NextNumber(segs, n), segs[1..], olds[1..], ds[1..], news[1..]);
    ExpectedAmong(NextNumber(segs, n), segs[1..], olds[1..], ds[1..], news[1..]);
    assert parts[1..] == rest;
    forall i | 1 <= i < |parts| ensures StartsWithMark(Chapters(parts)[i]) {
      assert parts[i] == rest[i - 1] && rest[i - 1] in rest;
    }
  }

  // What is spliced into the book: Deltas of chapters in the domain, which start with their chapter marks
  // except perhaps the first.
  ghost predicate AllComeFrom(newGuid: nat -> string, ds: seq<ChapterDelta>, news: seq<seq<Node>>) {
    && |news| == |ds|
    && forall i :: 0 <= i < |ds| && ds[i].isValid ==>
         ComesFrom(newGuid, ds[i], news[i]) && (i > 0 ==> StartsWithMark(news[i]))
  }

  lemma BroughtOk(newGuid: nat -> string, ds: seq<ChapterDelta>, news: seq<seq<Node>>)
    requires Injective(newGuid) && AllComeFrom(newGuid, ds, news)
    ensures AllRebuild(ds, news)
    ensures forall i :: 0 <= i < |ds| && ds[i].isValid ==> PartOk(newGuid, Part(news[i], ds[i].ops)) && Marks(news[i]) <= 1
  {
    forall i | 0 <= i < |ds| && ds[i].isValid
      ensures Rebuilt(ds[i].ops) == Some(news[i]) && PartOk(newGuid, Part(news[i], ds[i].ops)) && Marks(news[i]) <= 1
    {
      CanonicalDelivered(newGuid, ds[i], news[i]);
    }
  }

  lemma OldsOk(newGuid: nat -> string, guids: nat, roots: seq<RootNode>, olds: seq<ChapterDelta>)
    requires Injective(newGuid) && ChapterDeltas(newGuid, guids, roots) == Some(olds)
    requires AllNumbered(NodesOf(roots)) && AllRenamable(NodesOf(roots))
    ensures var segs := Segments(NodesOf(roots), false);
            && |segs| == |olds| && Marks(segs[0]) <= 1
            && (forall i :: 1 <= i < |segs| ==> StartsWithMark(segs[i]))
            && (forall i :: 0 <= i < |segs| ==> PartOk(newGuid, Part(segs[i], olds[i].ops)))
  {
    var segs := Segments(NodesOf(roots), false);
    DeltasDeliver(newGuid, guids, roots, olds);
    SegmentsAreOk(NodesOf(roots), false);
    forall i | 0 <= i < |segs| ensures PartOk(newGuid, Part(segs[i], olds[i].ops)) {
      ChaptersOfBook(NodesOf(roots), i);
      DeliversAt(newGuid, olds, segs, i, olds[i], segs[i]);
    }
  }

  lemma CandidatesOk(newGuid: nat -> string, segs: seq<seq<Node>>, olds: seq<ChapterDelta>,
                     ds: seq<ChapterDelta>, news: seq<seq<Node>>)
    requires |olds| == |segs| && |news| == |ds|
    requires forall i :: 0 <= i < |segs| ==> PartOk(newGuid, Part(segs[i], olds[i].ops))
    requires forall i :: 0 <= i < |ds| && ds[i].isValid ==> PartOk(newGuid, Part(news[i], ds[i].ops))
    ensures forall p :: p in Candidates(segs, olds, ds, news) ==> PartOk(newGuid, p)
  {
    forall p | p in Candidates(segs, olds, ds, news) ensures PartOk(newGuid, p) {
      if i :| 0 <= i < |segs| && p == Part(segs[i], olds[i].ops) {
      } else {
        var i :| 0 <= i < |ds| && ds[i].isValid && p == Part(news[i], ds[i].ops);
      }
    }
  }

  lemma LaterCandidatesStart(segs: seq<seq<Node>>, olds: seq<ChapterDelta>, ds: seq<ChapterDelta>, news: seq<seq<Node>>)
    requires |olds| == |segs| && |news| == |ds| && segs != [] && ds != []
    requires forall i :: 1 <= i < |segs| ==> StartsWithMark(segs[i])
    requires forall i :: 1 <= i < |ds| && ds[i].isValid ==> StartsWithMark(news[i])
    ensures forall p :: p in Candidates(segs[1..], olds[1..], ds[1..], news[1..]) ==> StartsWithMark(p.chapter)
  {
    forall p | p in Candidates(segs[1..], olds[1..], ds[1..], news[1..]) ensures StartsWithMark(p.chapter) {
      if i :| 0 <= i < |segs[1..]| && p == Part(segs[1..][i], olds[1..][i].ops) {
        assert p.chapter == segs[i + 1];
      } else {
        var i :| 0 <= i < |ds[1..]| && ds[1..][i].isValid && p == Part(news[1..][i], ds[1..][i].ops);
        assert p.chapter == news[i + 1];
      }
    }
  }

  lemma SplicedParts(newGuid: nat -> string, segs: seq<seq<Node>>, olds: seq<ChapterDelta>,
                     ds: seq<ChapterDelta>, news: seq<seq<Node>>) returns (parts: seq<Part>)
    requires |olds| == |segs| && AllRebuild(ds, news) && segs != [] && ds != [] && BooksSafe(ds[0].number, segs, ds)
    requires forall i :: 0 <= i < |segs| ==> PartOk(newGuid, Part(segs[i], olds[i].ops))
    requires forall i :: 0 <= i < |ds| && ds[i].isValid ==> PartOk(newGuid, Part(news[i], ds[i].ops))
    requires forall i :: 1 <= i < |segs| ==> StartsWithMark(segs[i])
    requires forall i :: 1 <= i < |ds| && ds[i].isValid ==> StartsWithMark(news[i])
    requires var first := if ds[0].isValid then news[0] else segs[0];
             Marks(first) <= 1 && (|segs| + |ds| > 2 ==> Marks(first) == 1)
    ensures parts == Expected(ds[0].number, segs, olds, ds, news)
    ensures (forall p :: p in parts ==> PartOk(newGuid, p)) && ChaptersOk(Chapters(parts), false)
    ensures ChapterMerge(ds[0].number, segs, ds).Merged? ==>
              ChapterMerge(ds[0].number, segs, ds) == Merged(Concat(Chapters(parts)))
  {
    var n := ds[0].number;
    parts := Expected(n, segs, olds, ds, news);
    MergeIsExpected(n, segs, olds, ds, news);
    ExpectedAmong(n, segs, olds, ds, news);
    CandidatesOk(newGuid, segs, olds, ds, news);
    LaterCandidatesStart(segs, olds, ds, news);
    ExpectedChapters(n, segs, olds, ds, news, parts);
  }

  // ----- the spliced book parses

  /** A chapter that can be parsed alone can be parsed wherever a chapter starts. */
  lemma ChapterWalks(newGuid: nat -> string, p: Part, start: BookState, stretch: seq<RootNode>)
    requires Injective(newGuid) && PartOk(newGuid, p) && Marks(p.chapter) <= 1
    requires AtStart(start, stretch) && NodesOf(stretch) == p.chapter
    ensures BookWalked(newGuid, start, stretch).Some?
  {
    var ids := Ids(newGuid, start.fl.guids, start.fl.tableIndex);
    var begin := start.(fl := start.fl.(curRef := None));
    assert Renamed(ids, []) == [];
    BookWalkAlike(ids, newGuid, Start(0), begin, Checked(p.chapter), stretch, false);
    if stretch != [] && IsElement(stretch[0].node, Chapter) {
      assert RootStep(newGuid, begin, stretch[0]) == RootStep(newGuid, start, stretch[0]);
    }
  }

  // Once there was a chapter mark, there is a current chapter.
  lemma {:induction false} StaysInChapter(newGuid: nat -> string, st: BookState, roots: seq<RootNode>, st1: BookState)
    requires BookWalked(newGuid, st, roots) == Some(st1) && AllNumbered(NodesOf(roots))
    requires st.curChapter.Some? || Marks(NodesOf(roots)) > 0
    ensures st1.curChapter.Some?
    decreases roots
  {
    if roots != [] {
      assert NodesOf(roots)[0] in NodesOf(roots) && NodesOf(roots)[1..] == NodesOf(roots[1..]);
      RootStepChapter(newGuid, st, roots[0]);
      StaysInChapter(newGuid, RootStep(newGuid, st, roots[0]).value, roots[1..], st1);
    }
  }

  lemma NodesOfParts(roots: seq<RootNode>, k: nat)
    requires k <= |roots|
    ensures NodesOf(roots[..k]) == NodesOf(roots)[..k]
    ensures NodesOf(roots[k..]) == NodesOf(roots)[k..]
  {
  }

  // A book's children divided where a chapter ends.
  lemma Divided(roots: seq<RootNode>, a: seq<Node>, b: seq<Node>) returns (stretch: seq<RootNode>, rest: seq<RootNode>)
    requires NodesOf(roots) == a + b
    ensures roots == stretch + rest && NodesOf(stretch) == a && NodesOf(rest) == b
  {
    stretch, rest := roots[..|a|], roots[|a|..];
    NodesOfParts(roots, |a|);
    SplitAgain(a, b);
  }

  /** Later chapters are parsed from their marks on. */
  lemma {:induction false} LaterPartsWalk(newGuid: nat -> string, st: BookState, parts: seq<Part>, roots: seq<RootNode>)
    requires Injective(newGuid) && (forall p :: p in parts ==> PartOk(newGuid, p) && StartsWithMark(p.chapter))
    requires st.curChapter.Some? && NodesOf(roots) == Concat(Chapters(parts))
    ensures BookWalked(newGuid, st, roots).Some?
    decreases |parts|
  {
    if parts != [] {
      assert Chapters(parts)[1..] == Chapters(parts[1..]) && parts[0] in parts;
      var stretch, rest := Divided(roots, parts[0].chapter, Concat(Chapters(parts[1..])));
      assert stretch[0].node == parts[0].chapter[0];
      ChapterWalks(newGuid, parts[0], Cleared(st), stretch);
      MarkClears(newGuid, st, stretch[0]);
      var st1 := BookWalked(newGuid, st, stretch).value;
      StaysInChapter(newGuid, st, stretch, st1);
      LaterPartsWalk(newGuid, st1, parts[1..], rest);
      BookWalkedTwice(newGuid, st, stretch, rest);
    }
  }

  /** A book that consists of such chapters can be parsed. */
  lemma PartsWalk(newGuid: nat -> string, guids: nat, parts: seq<Part>, roots: seq<RootNode>)
    requires Injective(newGuid) && (forall p :: p in parts ==> PartOk(newGuid, p)) && ChaptersOk(Chapters(parts), false)
    requires NodesOf(roots) == Concat(Chapters(parts))
    ensures ChapterDeltas(newGuid, guids, roots).Some?
  {
    var later, st := parts[1..], Start(guids);
    assert Chapters(parts)[1..] == Chapters(later) && parts[0] in parts;
    var stretch, rest := Divided(roots, parts[0].chapter, Concat(Chapters(later)));
    ChapterWalks(newGuid, parts[0], st, stretch);
    var st1 := BookWalked(newGuid, st, stretch).value;
    if later != [] {
      StaysInChapter(newGuid, st, stretch, st1);
      forall p | p in later ensures StartsWithMark(p.chapter) {
        var i :| 1 <= i < |parts| && parts[i] == p;
        assert StartsWithMark(Chapters(parts)[i]);
      }
      LaterPartsWalk(newGuid, st1, later, rest);
    }
    BookWalkedTwice(newGuid, st, stretch, rest);
  }

  /** The Deltas of a book that consists of the parts are theirs, up to generated names. */
  lemma PartsParsed(newGuid: nat -> string, parts: seq<Part>, guids: nat, roots: seq<RootNode>) returns (ds: seq<ChapterDelta>)
    requires Injective(newGuid) && NodesOf(roots) == Concat(Chapters(parts))
    requires (forall p :: p in parts ==> PartOk(newGuid, p)) && ChaptersOk(Chapters(parts), false)
    ensures ChapterDeltas(newGuid, guids, roots) == Some(ds)
    ensures Segments(NodesOf(roots), false) == Chapters(parts) && |ds| == |parts|
    ensures forall i :: 0 <= i < |ds| ==> SameUpToIds(newGuid, ds[i].ops, parts[i].ops)
    ensures forall i :: 0 <= i < |ds| ==> ds[i].number == ChapterNumber(parts[i].chapter)
  {
    PartsWalk(newGuid, guids, parts, roots);
    ds := ChapterDeltas(newGuid, guids, roots).value;
    SegmentsOfChapters(Chapters(parts), false);
    AllInParts(newGuid, parts);
    DeltasDeliver(newGuid, guids, roots, ds);
    forall i | 0 <= i < |ds|
      ensures SameUpToIds(newGuid, ds[i].ops, parts[i].ops) && ds[i].number == ChapterNumber(parts[i].chapter)
    {
      DeliversAt(newGuid, ds, Chapters(parts), i, ds[i], parts[i].chapter);
      NumberedAt(ds, Chapters(parts), i);
      assert PartOk(newGuid, parts[i]);
      DeltasOfOneChapter(newGuid, ds[i].ops, parts[i].ops, parts[i].chapter);
    }
  }

  function Olds(segs: seq<seq<Node>>, olds: seq<ChapterDelta>): (parts: seq<Part>)
    requires |olds| == |segs|
    ensures |parts| == |segs| && forall i :: 0 <= i < |segs| ==> parts[i] == Part(segs[i], olds[i].ops)
  {
    if segs == [] then [] else [Part(segs[0], olds[0].ops)] + Olds(segs[1..], olds[1..])
  }

  lemma {:induction false} OldChapters(segs: seq<seq<Node>>, olds: seq<ChapterDelta>)
    requires |olds| == |segs|
    ensures Chapters(Olds(segs, olds)) == segs
  {
    if segs != [] {
      OldChapters(segs[1..], olds[1..]);
      Tail(Part(segs[0], olds[0].ops), Olds(segs[1..], olds[1..]));
      HeadTail(segs);
    }
  }

  // Nothing put in: the old chapters with their Deltas.
  lemma OldParts(newGuid: nat -> string, nodes: seq<Node>, olds: seq<ChapterDelta>) returns (parts: seq<Part>)
    requires |olds| == |Segments(nodes, false)|
    requires forall i :: 0 <= i < |olds| ==> PartOk(newGuid, Part(Segments(nodes, false)[i], olds[i].ops))
    ensures parts == Olds(Segments(nodes, false), olds) && (forall p :: p in parts ==> PartOk(newGuid, p))
    ensures ChaptersOk(Chapters(parts), false) && Concat(Chapters(parts)) == nodes
  {
    var segs := Segments(nodes, false);
    parts := Olds(segs, olds);
    OldChapters(segs, olds);
    SegmentsAreOk(nodes, false);
    SegmentsOf(nodes, false);
  }

  /**
   * Put-get: a book is parsed, Deltas ds of other books' chapters news are spliced into it, and the result
   * is parsed, which succeeds. Its chapters are the expected ones, in order, and each has its number and the
   * expected Delta up to generated names: the Delta that was put in, or the old one where none was put in or
   * it was invalid. (A single Delta without operations is not put in.)
   */
  lemma PutGet(newGuid: nat -> string, guids: nat, roots: seq<RootNode>, olds: seq<ChapterDelta>, segs: seq<seq<Node>>,
               ds: seq<ChapterDelta>, news: seq<seq<Node>>, guids2: nat, roots2: seq<RootNode>)
      returns (parts: seq<Part>, ds2: seq<ChapterDelta>)
    requires Injective(newGuid) && ChapterDeltas(newGuid, guids, roots) == Some(olds)
    requires AllNumbered(NodesOf(roots)) && AllRenamable(NodesOf(roots))
    requires segs == Segments(NodesOf(roots), false)
    requires ds != [] && AllComeFrom(newGuid, ds, news)
    requires BooksSafe(ds[0].number, segs, ds)
    requires |segs| + |ds| > 2 ==> Marks(if ds[0].isValid then news[0] else segs[0]) == 1
    requires Spliced(NodesOf(roots), ds) == Merged(NodesOf(roots2))
    ensures |olds| == |segs|
    ensures parts == if SingleEmpty(ds) then Olds(segs, olds) else Expected(ds[0].number, segs, olds, ds, news)
    ensures ChapterDeltas(newGuid, guids2, roots2) == Some(ds2)
    ensures Segments(NodesOf(roots2), false) == Chapters(parts) && |ds2| == |parts|
    ensures forall i :: 0 <= i < |ds2| ==> SameUpToIds(newGuid, ds2[i].ops, parts[i].ops)
    ensures forall i :: 0 <= i < |ds2| ==> ds2[i].number == ChapterNumber(parts[i].chapter)
  {
    OldsOk(newGuid, guids, roots, olds);
    BroughtOk(newGuid, ds, news);
    if SingleEmpty(ds) {
      parts := OldParts(newGuid, NodesOf(roots), olds);
    } else {
      parts := SplicedParts(newGuid, segs, olds, ds, news);
    }
    ds2 := PartsParsed(newGuid, parts, guids2, roots2);
  }
}
