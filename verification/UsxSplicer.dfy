/** ToUsx: chapter Deltas spliced into a copy of the old book, edited in place. */
module UsxSplicer {
  import opened Text
  import opened Usx
  import opened RichText
  import opened DeltaParser
  import opened DeltaMerge
  import opened DeltaRebuilder

  // The children of the usx element.
  class UsxDocument {
    var nodes: seq<Node>

    constructor (nodes: seq<Node>)
      ensures this.nodes == nodes
    {
      this.nodes := nodes;
    }

    method AddBefore(pos: nat, added: seq<Node>)
      requires pos <= |nodes|
      modifies this
      ensures nodes == old(nodes)[..pos] + added + old(nodes)[pos..]
    {
      nodes := nodes[..pos] + added + nodes[pos..];
    }

    method Remove(pos: nat)
      requires pos < |nodes|
      modifies this
      ensures nodes == old(nodes)[..pos] + old(nodes)[pos + 1..]
    {
      nodes := nodes[..pos] + nodes[pos + 1..];
    }
  }

  method ContentOf(d: ChapterDelta) returns (nodes: Option<seq<Node>>)
    ensures nodes == Content(d)
  {
    nodes := Some([]);
    if d.isValid {
      nodes := ProcessDelta(d.ops);
    }
  }

  method FindBookOp(ops: seq<Op>) returns (found: bool)
    ensures found <==> HasBookOp(ops)
  {
    for i := 0 to |ops|
      invariant forall j :: 0 <= j < i ==> !IsBookOp(ops[j])
    {
      if IsBookOp(ops[i]) {
        return true;
      }
    }
    return false;
  }

  // The document is what has been passed and what is still to come, and the pass is part way through.
  ghost predicate Passing(doc: UsxDocument, pos: nat, ahead: seq<Node>, rest: MergeResult, whole: MergeResult)
    reads doc
  {
    && pos <= |doc.nodes| && doc.nodes[pos..] == ahead
    && whole == Before(Some(doc.nodes[..pos]), rest)
  }

  /** Puts nodes before the current child. */
  method PutBefore(doc: UsxDocument, pos: nat, added: seq<Node>, ghost ahead: seq<Node>, ghost rest: MergeResult, ghost whole: MergeResult)
      returns (pos1: nat)
    requires Passing(doc, pos, ahead, Before(Some(added), rest), whole)
    modifies doc
    ensures Passing(doc, pos1, ahead, rest, whole)
  {
    BeforeTwice(doc.nodes[..pos], Some(added), rest);
    doc.AddBefore(pos, added);
    pos1 := pos + |added|;
    assert doc.nodes[..pos1] == old(doc.nodes)[..pos] + added;
  }

  /** Goes past the current child, or removes it. */
  method KeepOrRemove(doc: UsxDocument, pos: nat, remove: bool, ghost ahead: seq<Node>, ghost rest: MergeResult, ghost whole: MergeResult)
      returns (pos1: nat)
    requires ahead != [] && Passing(doc, pos, ahead, Before(Some(if remove then [] else [ahead[0]]), rest), whole)
    modifies doc
    ensures Passing(doc, pos1, ahead[1..], rest, whole)
  {
    BeforeTwice(doc.nodes[..pos], Some(if remove then [] else [ahead[0]]), rest);
    assert doc.nodes[pos] == ahead[0];
    pos1 := pos;
    if remove {
      doc.Remove(pos);
      assert doc.nodes[..pos1] == old(doc.nodes)[..pos] + [];
    } else {
      pos1 := pos + 1;
      assert doc.nodes[..pos1] == doc.nodes[..pos] + [ahead[0]];
    }
    assert doc.nodes[pos1..] == ahead[1..];
  }

  /** Puts the Deltas for missing chapters before the chapter mark; fails where the code runs out of Deltas. */
  method PutMissing(doc: UsxDocument, pos: nat, deltas: seq<ChapterDelta>, idx: nat, chapter: int,
                    ghost ahead: seq<Node>, ghost whole: MergeResult) returns (ok: bool, pos1: nat, idx1: nat)
    requires ahead != [] && idx < |deltas|
    requires Passing(doc, pos, ahead, ChapterPassed(ahead, deltas[idx..], chapter), whole)
    modifies doc
    ensures !ok ==> whole == Failed(Broken)
    ensures ok ==> idx1 < |deltas| && Passing(doc, pos1, ahead, ChildPassed(ahead, Cursor(deltas[idx1..], chapter, true)), whole)
  {
    pos1, idx1 := pos, idx;
    while deltas[idx1].number < chapter
      invariant idx1 < |deltas|
      invariant Passing(doc, pos1, ahead, ChapterPassed(ahead, deltas[idx1..], chapter), whole)
      decreases |deltas| - idx1
    {
      assert deltas[idx1..][1..] == deltas[idx1 + 1..];
      var nodes := ContentOf(deltas[idx1]);
      if nodes.None? {
        return false, pos1, idx1;
      }
      idx1 := idx1 + 1;
      if idx1 == |deltas| {
        return false, pos1, idx1;
      }
      SkippedOne(ahead, deltas[idx1 - 1..], chapter);
      pos1 := PutBefore(doc, pos1, nodes.value, ahead, ChapterPassed(ahead, deltas[idx1..], chapter), whole);
    }
    NothingBefore(ChildPassed(ahead, Cursor(deltas[idx1..], chapter, true)));
    ok := true;
  }

  lemma SkippedOne(nodes: seq<Node>, deltas: seq<ChapterDelta>, chapter: int)
    requires nodes != [] && |deltas| > 1 && deltas[0].number < chapter && Content(deltas[0]).Some?
    ensures ChapterPassed(nodes, deltas, chapter) == Before(Content(deltas[0]), ChapterPassed(nodes, deltas[1..], chapter))
  {
    var more := Skipped(deltas[1..], chapter);
    if more.Some? {
      BeforeTwice(Content(deltas[0]).value, Some(more.value.0), ChildPassed(nodes, Cursor(more.value.1, chapter, true)));
    }
  }

  /**
   * At a later chapter mark: the content of the chapter that ends here, then that of missing chapters.
   * The pass is over if the Deltas are used up, or run out.
   */
  method PassMark(doc: UsxDocument, pos: nat, deltas: seq<ChapterDelta>, idx: nat, curChapter: int, curNode: Node,
                  ghost ahead: seq<Node>, ghost whole: MergeResult)
      returns (over: Option<MergeResult>, pos1: nat, idx1: nat, chapter: int)
    requires ahead != [] && ahead[0] == curNode && IsElement(curNode, Chapter) && idx < |deltas|
    requires Passing(doc, pos, ahead, Passed(ahead, Cursor(deltas[idx..], curChapter, true)), whole)
    modifies doc
    ensures over.Some? ==> over.value == whole
    ensures over.None? ==> idx1 < |deltas|
    ensures over.None? ==> Passing(doc, pos1, ahead, ChildPassed(ahead, Cursor(deltas[idx1..], chapter, true)), whole)
  {
    assert deltas[idx..][1..] == deltas[idx + 1..];
    pos1, idx1 := pos, idx;
    chapter := NumberOf(curNode, curChapter);
    var nodes := Some([]);
    if deltas[idx].number == curChapter {
      nodes := ContentOf(deltas[idx]);
      idx1 := idx + 1;
    }
    if nodes.None? {
      return Some(Failed(Broken)), pos1, idx1, chapter;
    }
    pos1 := PutBefore(doc, pos, nodes.value, ahead, ChapterPassed(ahead, deltas[idx1..], chapter), whole);
    if idx1 >= |deltas| {
      assert doc.nodes == doc.nodes[..pos1] + ahead;
      return Some(Merged(doc.nodes)), pos1, idx1, chapter;
    }
    var ok;
    ok, pos1, idx1 := PutMissing(doc, pos1, deltas, idx1, chapter, ahead, whole);
    over := if ok then None else Some(Failed(Broken));
  }

  /** After the last child: the Deltas that are left. */
  method AddRest(doc: UsxDocument, pos: nat, deltas: seq<ChapterDelta>, idx: nat, ghost whole: MergeResult) returns (r: MergeResult)
    requires idx <= |deltas| && Passing(doc, pos, [], Appended(deltas[idx..]), whole)
    modifies doc
    ensures r == whole
  {
    var i, pos1 := idx, pos;
    while i < |deltas|
      invariant i <= |deltas| && Passing(doc, pos1, [], Appended(deltas[i..]), whole)
    {
      assert deltas[i..][1..] == deltas[i + 1..];
      var nodes := ContentOf(deltas[i]);
      if nodes.None? {
        return Failed(Broken);
      }
      pos1 := PutBefore(doc, pos1, nodes.value, [], Appended(deltas[i + 1..]), whole);
      i := i + 1;
    }
    assert doc.nodes == doc.nodes[..pos1] + [];
    return Merged(doc.nodes);
  }

  /** The old book with the chapter Deltas spliced in. */
  method ToUsx(oldNodes: seq<Node>, deltas: seq<ChapterDelta>) returns (r: MergeResult)
    ensures r == Spliced(oldNodes, deltas)
  {
    if |deltas| == 0 {
      return Failed(Broken);
    }
    if |deltas| == 1 && |deltas[0].ops| == 0 {
      return Merged(oldNodes);
    }
    var doc := new UsxDocument(oldNodes);
    var isFirstChapterFound, idx, curChapter := false, 0, deltas[0].number;
    var pos: nat, i: nat := 0, 0;
    ghost var whole := Passed(oldNodes, Cursor(deltas, curChapter, false));
    PassIsSplice(oldNodes, deltas);
    NothingBefore(whole);
    assert deltas[0..] == deltas && oldNodes[0..] == oldNodes;
    while i < |oldNodes|
      invariant i <= |oldNodes| && idx < |deltas| && fresh(doc)
      invariant Passing(doc, pos, oldNodes[i..], Passed(oldNodes[i..], Cursor(deltas[idx..], curChapter, isFirstChapterFound)), whole)
    {
      var curNode := oldNodes[i];
      ghost var ahead := oldNodes[i..];
      assert ahead[1..] == oldNodes[i + 1..];
      if IsElement(curNode, Chapter) {
        if isFirstChapterFound {
          var over;
          over, pos, idx, curChapter := PassMark(doc, pos, deltas, idx, curChapter, curNode, ahead, whole);
          if over.Some? {
            return over.value;
          }
        } else {
          isFirstChapterFound := true;
          if !HasNumber(curNode) {
            return Failed(FirstChapterInvalid);
          }
        }
      }
      ghost var c := Cursor(deltas[idx..], curChapter, isFirstChapterFound);
      var hasBookOp := FindBookOp(deltas[idx].ops);
      var remove := deltas[idx].number == curChapter && deltas[idx].isValid && (!IsElement(curNode, Book) || hasBookOp);
      assert c.deltas[0] == deltas[idx] && remove == IsRemoved(c, curNode);
      assert Passing(doc, pos, ahead, ChildPassed(ahead, c), whole);
      pos := KeepOrRemove(doc, pos, remove, ahead, Passed(ahead[1..], c), whole);
      i := i + 1;
    }
    assert oldNodes[i..] == [];
    r := AddRest(doc, pos, deltas, idx, whole);
  }
}
