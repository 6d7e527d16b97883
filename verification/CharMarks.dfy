/**
 * The generated ids of char elements. A forest is marked when every char element carries an id; walking
 * a marked forest generates none, so the walk of a plain forest is the walk of its marked copy.
 */
module CharMarks {
  import opened Text
  import opened Usx
  import opened RichText
  import opened DeltaParser
  import opened NormalForm

  predicate CleanAttrs(a: Attrs) {
    "id" !in a && "invalid" !in a
  }

  // Names that make a plain embed inside a paragraph or a note.
  predicate IsEmbedTag(tag: Tag) {
    !(tag in {Para, Verse, Ref, Char, Table, Cell, Chapter, Blank, Empty})
  }

  /**
   * Inline content: text without newlines, refs, char formatting, notes and other embeds with inline
   * content of their own, and verses outside char formatting. A char has an id exactly if it is marked.
   */
  predicate Inline(nodes: seq<Node>, inChar: bool, marked: bool)
    decreases nodes, 0
  {
    nodes == [] || (NodeInline(nodes[0], inChar, marked) && Inline(nodes[1..], inChar, marked))
  }

  predicate NodeInline(n: Node, inChar: bool, marked: bool)
    decreases n, 1
  {
    match n
    case XText(value) => '\n' !in value
    case XElement(tag, attrs, nodes) =>
      && CleanAttrs(attrs)
      && if tag == Verse then !inChar
         else if tag == Ref then '\n' !in InnerText(nodes)
         else if tag == Char then ("cid" in attrs <==> marked) && Inline(nodes, true, marked)
         else IsEmbedTag(tag) && "contents" !in attrs && Inline(nodes, false, marked)
  }

  // ----- marking

  function CharCount(nodes: seq<Node>): nat
    decreases nodes, 0
  {
    if nodes == [] then 0 else NodeCharCount(nodes[0]) + CharCount(nodes[1..])
  }

  // Elements inside a ref or a verse are not walked.
  function NodeCharCount(n: Node): nat
    decreases n, 1
  {
    if n.XText? || n.tag == Ref || n.tag == Verse then 0
    else (if n.tag == Char then 1 else 0) + CharCount(n.nodes)
  }

  function Marked(newGuid: nat -> string, nodes: seq<Node>, g: nat): seq<Node>
    decreases nodes, 0
  {
    if nodes == [] then []
    else [NodeMarked(newGuid, nodes[0], g)] + Marked(newGuid, nodes[1..], g + NodeCharCount(nodes[0]))
  }

  function NodeMarked(newGuid: nat -> string, n: Node, g: nat): Node
    decreases n, 1
  {
    if n.XText? || n.tag == Ref || n.tag == Verse then n
    else if n.tag == Char then
      XElement(Char, n.attrs["cid" := newGuid(g)], Marked(newGuid, n.nodes, g + 1))
    else XElement(n.tag, n.attrs, Marked(newGuid, n.nodes, g))
  }

  function Unmarked(nodes: seq<Node>): (r: seq<Node>)
    ensures |r| == |nodes|
    decreases nodes, 0
  {
    if nodes == [] then [] else [NodeUnmarked(nodes[0])] + Unmarked(nodes[1..])
  }

  function NodeUnmarked(n: Node): Node
    decreases n, 1
  {
    if n.XText? || n.tag == Ref || n.tag == Verse then n
    else if n.tag == Char then XElement(Char, n.attrs - {"cid"}, Unmarked(n.nodes))
    else XElement(n.tag, n.attrs, Unmarked(n.nodes))
  }

  lemma {:induction false} UnmarkedMarked(newGuid: nat -> string, nodes: seq<Node>, inChar: bool, g: nat)
    requires Inline(nodes, inChar, false)
    ensures Unmarked(Marked(newGuid, nodes, g)) == nodes
    ensures Inline(Marked(newGuid, nodes, g), inChar, true)
    decreases nodes, 0
  {
    if nodes != [] {
      NodeUnmarkedMarked(newGuid, nodes[0], inChar, g);
      UnmarkedMarked(newGuid, nodes[1..], inChar, g + NodeCharCount(nodes[0]));
      assert Marked(newGuid, nodes, g)[1..] == Marked(newGuid, nodes[1..], g + NodeCharCount(nodes[0]));
    }
  }

  lemma {:induction false} NodeUnmarkedMarked(newGuid: nat -> string, n: Node, inChar: bool, g: nat)
    requires NodeInline(n, inChar, false)
    ensures NodeUnmarked(NodeMarked(newGuid, n, g)) == n
    ensures NodeInline(NodeMarked(newGuid, n, g), inChar, true)
    decreases n, 1
  {
    if n.XElement? {
      if n.tag == Char {
        UnmarkedMarked(newGuid, n.nodes, true, g + 1);
        assert n.attrs["cid" := newGuid(g)] - {"cid"} == n.attrs;
      } else if n.tag != Ref && n.tag != Verse {
        UnmarkedMarked(newGuid, n.nodes, false, g);
      }
    }
  }

  // ----- walking a marked forest

  /** A marked forest takes no ids: the walk does not depend on how many were generated. */
  lemma {:induction false} MarkedWalkTakesNoIds(cx: Context, fl: Flow, nodes: seq<Node>, chars: seq<Attrs>, inChar: bool, g: nat)
    requires Inline(nodes, inChar, true)
    ensures Walked(cx, fl.(guids := g), nodes, chars) == Walked(cx, fl, nodes, chars).(guids := g)
    ensures Walked(cx, fl, nodes, chars).guids == fl.guids
    decreases nodes, 0
  {
    if nodes != [] {
      NodeMarkedWalkTakesNoIds(cx, fl, nodes[0], chars, inChar, g);
      MarkedWalkTakesNoIds(cx, NodeWalked(cx, fl, nodes[0], chars), nodes[1..], chars, inChar, g);
    }
  }

  lemma {:induction false} NodeMarkedWalkTakesNoIds(cx: Context, fl: Flow, n: Node, chars: seq<Attrs>, inChar: bool, g: nat)
    requires NodeInline(n, inChar, true)
    ensures NodeWalked(cx, fl.(guids := g), n, chars) == NodeWalked(cx, fl, n, chars).(guids := g)
    ensures NodeWalked(cx, fl, n, chars).guids == fl.guids
    decreases n, 1
  {
    if n.XElement? && n.tag != Ref && n.tag != Verse {
      if n.tag == Char {
        MarkedWalkTakesNoIds(cx, fl, n.nodes, chars + [n.attrs], true, g);
      } else {
        MarkedWalkTakesNoIds(cx.(chapter := None), Nested([], fl.guids), n.nodes, [], false, g);
      }
    }
  }

  /** Walking a plain forest is walking its marked copy, and generating one id for each char element. */
  lemma {:induction false} WalkMarksChars(cx: Context, fl: Flow, nodes: seq<Node>, chars: seq<Attrs>, inChar: bool)
    requires Inline(nodes, inChar, false)
    ensures Walked(cx, fl, nodes, chars)
         == Walked(cx, fl, Marked(cx.newGuid, nodes, fl.guids), chars).(guids := fl.guids + CharCount(nodes))
    decreases nodes, 0
  {
    if nodes != [] {
      var marked, g1 := Marked(cx.newGuid, nodes, fl.guids), fl.guids + NodeCharCount(nodes[0]);
      NodeWalkMarksChars(cx, fl, nodes[0], chars, inChar);
      WalkMarksChars(cx, NodeWalked(cx, fl, nodes[0], chars), nodes[1..], chars, inChar);
      UnmarkedMarked(cx.newGuid, nodes[1..], inChar, g1);
      assert marked[1..] == Marked(cx.newGuid, nodes[1..], g1);
      MarkedWalkTakesNoIds(cx, NodeWalked(cx, fl, marked[0], chars), marked[1..], chars, inChar, g1);
    }
  }

  lemma {:induction false} NodeWalkMarksChars(cx: Context, fl: Flow, n: Node, chars: seq<Attrs>, inChar: bool)
    requires NodeInline(n, inChar, false)
    ensures NodeWalked(cx, fl, n, chars)
         == NodeWalked(cx, fl, NodeMarked(cx.newGuid, n, fl.guids), chars).(guids := fl.guids + NodeCharCount(n))
    decreases n, 1
  {
    if IsElement(n, Char) {
      CharWalkMarks(cx, fl, n, chars, inChar);
    } else if n.XElement? && n.tag != Ref && n.tag != Verse {
      var cx1, fl1 := cx.(chapter := None), Nested([], fl.guids);
      WalkMarksChars(cx1, fl1, n.nodes, [], false);
      UnmarkedMarked(cx.newGuid, n.nodes, false, fl.guids);
      MarkedWalkTakesNoIds(cx1, fl1, Marked(cx.newGuid, n.nodes, fl.guids), [], false, fl.guids);
    }
  }

  lemma {:induction false} CharWalkMarks(cx: Context, fl: Flow, n: Node, chars: seq<Attrs>, inChar: bool)
    requires IsElement(n, Char) && NodeInline(n, inChar, false)
    ensures NodeWalked(cx, fl, n, chars)
         == NodeWalked(cx, fl, NodeMarked(cx.newGuid, n, fl.guids), chars).(guids := fl.guids + NodeCharCount(n))
    decreases n, 0
  {
    var inner := chars + [n.attrs["cid" := cx.newGuid(fl.guids)]];
    var fl1, kids := fl.(guids := fl.guids + 1), Marked(cx.newGuid, n.nodes, fl.guids + 1);
    WalkMarksChars(cx, fl1, n.nodes, inner, true);
    UnmarkedMarked(cx.newGuid, n.nodes, true, fl.guids + 1);
    MarkedWalkTakesNoIds(cx, fl, kids, inner, true, fl.guids + 1);
  }

  // ----- normal forms of marked forests

  lemma {:induction false} UnmarkedNorm(nodes: seq<Node>)
    ensures Unmarked(Norm(nodes)) == Norm(Unmarked(nodes))
    decreases nodes, 0
  {
    if nodes != [] {
      NodeUnmarkedNorm(nodes[0]);
      UnmarkedNorm(nodes[1..]);
      UnmarkedJoined(NodeNorm(nodes[0]), Norm(nodes[1..]));
    }
  }

  lemma {:induction false} NodeUnmarkedNorm(n: Node)
    ensures Unmarked(NodeNorm(n)) == NodeNorm(NodeUnmarked(n))
    decreases n, 1
  {
    if n.XElement? && n.tag != Verse && n.tag != Ref {
      UnmarkedNorm(n.nodes);
    }
    if NodeNorm(n) != [] {
      assert NodeNorm(n)[1..] == [];
    }
  }

  lemma UnmarkedJoined(a: seq<Node>, b: seq<Node>)
    requires |a| <= 1
    ensures Unmarked(Joined(a, b)) == Joined(Unmarked(a), Unmarked(b))
  {
    if |a| == 1 {
      assert Unmarked(a) == [NodeUnmarked(a[0])] + Unmarked(a[1..]) && a[1..] == [];
      assert (a + b)[1..] == b;
    } else {
      assert a == [] && a + b == b;
    }
  }

  lemma {:induction false} NormInline(nodes: seq<Node>, inChar: bool, marked: bool)
    requires Inline(nodes, inChar, marked)
    ensures Inline(Norm(nodes), inChar, marked)
    decreases nodes, 0
  {
    if nodes != [] {
      NodeNormInline(nodes[0], inChar, marked);
      NormInline(nodes[1..], inChar, marked);
      JoinedInline(NodeNorm(nodes[0]), Norm(nodes[1..]), inChar, marked);
    }
  }

  lemma {:induction false} NodeNormInline(n: Node, inChar: bool, marked: bool)
    requires NodeInline(n, inChar, marked)
    ensures forall k :: k in NodeNorm(n) ==> NodeInline(k, inChar, marked)
    decreases n, 1
  {
    if n.XElement? && n.tag != Verse {
      if n.tag == Ref {
        OneText(InnerText(n.nodes));
      } else {
        NormInline(n.nodes, n.tag == Char, marked);
      }
    }
  }

  lemma JoinedInline(a: seq<Node>, b: seq<Node>, inChar: bool, marked: bool)
    requires |a| <= 1 && (forall k :: k in a ==> NodeInline(k, inChar, marked)) && Inline(b, inChar, marked)
    ensures Inline(Joined(a, b), inChar, marked)
  {
    if |a| == 1 && b != [] && Fusible(a[0], b[0]) {
      var r := Joined(a, b);
      assert a[0] in a;
      if a[0].XElement? {
        OneText(InnerText(a[0].nodes) + InnerText(b[0].nodes));
      }
      assert r[1..] == b[1..];
    } else if |a| == 1 {
      assert a[0] in a && (a + b)[1..] == b;
    } else {
      assert a == [] && a + b == b;
    }
  }

  // ----- different marks

  function TopChars(nodes: seq<Node>): set<Attrs> {
    if nodes == [] then {}
    else (if IsElement(nodes[0], Char) then {nodes[0].attrs} else {}) + TopChars(nodes[1..])
  }

  /** No two char siblings, at any depth, have the same attributes. */
  predicate Separated(nodes: seq<Node>)
    decreases nodes, 0
  {
    nodes == [] ||
    (NodeSeparated(nodes[0]) && Separated(nodes[1..]) &&
     (IsElement(nodes[0], Char) ==> nodes[0].attrs !in TopChars(nodes[1..])))
  }

  predicate NodeSeparated(n: Node)
    decreases n, 1
  {
    n.XText? || n.tag == Ref || n.tag == Verse || Separated(n.nodes)
  }

  ghost predicate MarkedFrom(newGuid: nat -> string, a: Attrs, g: nat) {
    exists k :: k >= g && "cid" in a && a["cid"] == newGuid(k)
  }

  lemma {:induction false} MarkedLater(newGuid: nat -> string, nodes: seq<Node>, g: nat)
    ensures forall a :: a in TopChars(Marked(newGuid, nodes, g)) ==> MarkedFrom(newGuid, a, g)
  {
    if nodes != [] {
      var marked, g1 := Marked(newGuid, nodes, g), g + NodeCharCount(nodes[0]);
      MarkedLater(newGuid, nodes[1..], g1);
      assert marked[0] == NodeMarked(newGuid, nodes[0], g) && marked[1..] == Marked(newGuid, nodes[1..], g1);
      forall a | a in TopChars(marked) ensures MarkedFrom(newGuid, a, g) {
        if a in TopChars(marked[1..]) {
          assert MarkedFrom(newGuid, a, g1);
        } else {
          assert TopChars(marked) == {marked[0].attrs} + TopChars(marked[1..]);
          assert g >= g && a["cid"] == newGuid(g);
        }
      }
    }
  }

  lemma {:induction false} MarkedSeparated(newGuid: nat -> string, nodes: seq<Node>, g: nat)
    requires Injective(newGuid)
    ensures Separated(Marked(newGuid, nodes, g))
    decreases nodes, 0
  {
    if nodes != [] {
      var n, g1 := nodes[0], g + NodeCharCount(nodes[0]);
      if n.XElement? && n.tag != Ref && n.tag != Verse {
        MarkedSeparated(newGuid, n.nodes, if n.tag == Char then g + 1 else g);
      }
      MarkedSeparated(newGuid, nodes[1..], g1);
      MarkedLater(newGuid, nodes[1..], g1);
      var marked := Marked(newGuid, nodes, g);
      assert marked[0] == NodeMarked(newGuid, n, g) && marked[1..] == Marked(newGuid, nodes[1..], g1);
      if IsElement(marked[0], Char) {
        assert !MarkedFrom(newGuid, marked[0].attrs, g1);
      }
    }
  }

  lemma {:induction false} NormSeparated(nodes: seq<Node>)
    requires Separated(nodes)
    ensures Separated(Norm(nodes)) && TopChars(Norm(nodes)) <= TopChars(nodes)
    decreases nodes, 0
  {
    if nodes != [] {
      var n, a, b := nodes[0], NodeNorm(nodes[0]), Norm(nodes[1..]);
      if n.XElement? && n.tag != Ref && n.tag != Verse {
        NormSeparated(n.nodes);
      }
      NormSeparated(nodes[1..]);
      JoinedSeparated(a, b);
    }
  }

  lemma JoinedSeparated(a: seq<Node>, b: seq<Node>)
    requires |a| <= 1 && Separated(b)
    requires a != [] ==> NodeSeparated(a[0]) && (IsElement(a[0], Char) ==> a[0].attrs !in TopChars(b))
    ensures Separated(Joined(a, b))
    ensures TopChars(Joined(a, b)) <= TopChars(a) + TopChars(b)
  {
    var r := Joined(a, b);
    if a == [] {
      assert r == b;
    } else {
      assert a[1..] == [];
      if b != [] && Fusible(a[0], b[0]) {
        assert r[0] == Fused(a[0], b[0]) && r[1..] == b[1..];
      } else {
        assert r[0] == a[0] && r[1..] == b;
      }
    }
  }

  // ----- the walk of a marked forest and of its normal form

  /** Bringing inline content into normal form changes nothing in the Delta it produces. */
  lemma {:induction false} WalkOfNorm(cx: Context, fl: Flow, nodes: seq<Node>, chars: seq<Attrs>, inChar: bool)
    requires Inline(nodes, inChar, true)
    ensures Walked(cx, fl, Norm(nodes), chars) == Walked(cx, fl, nodes, chars)
    decreases nodes, 0
  {
    if nodes != [] {
      var fl1 := NodeWalked(cx, fl, nodes[0], chars);
      NodeWalkOfNorm(cx, fl, nodes[0], chars, inChar);
      WalkOfNorm(cx, fl1, nodes[1..], chars, inChar);
      WalkOfJoined(cx, fl, NodeNorm(nodes[0]), Norm(nodes[1..]), chars);
    }
  }

  lemma {:induction false} NodeWalkOfNorm(cx: Context, fl: Flow, n: Node, chars: seq<Attrs>, inChar: bool)
    requires NodeInline(n, inChar, true)
    ensures Walked(cx, fl, NodeNorm(n), chars) == NodeWalked(cx, fl, n, chars)
    decreases n, 1
  {
    if NodeNorm(n) != [] {
      assert NodeNorm(n)[1..] == [];
    }
    if n.XElement? {
      if n.tag == Ref {
        OneText(InnerText(n.nodes));
      } else if n.tag == Char {
        WalkOfNorm(cx, fl, n.nodes, chars + [n.attrs], true);
      } else if n.tag != Verse {
        WalkOfNorm(cx.(chapter := None), Nested([], fl.guids), n.nodes, [], false);
      }
    }
  }

  lemma WalkOfJoined(cx: Context, fl: Flow, a: seq<Node>, b: seq<Node>, chars: seq<Attrs>)
    requires |a| <= 1
    ensures Walked(cx, fl, Joined(a, b), chars) == Walked(cx, Walked(cx, fl, a, chars), b, chars)
  {
    if |a| == 1 {
      assert a[1..] == [] && Walked(cx, fl, a, chars) == NodeWalked(cx, fl, a[0], chars);
      if b != [] && Fusible(a[0], b[0]) {
        var ref := if a[0].XElement? then Some(a[0].attrs) else None;
        var attrs := InlineAttrs(chars, ref, SegmentOf(fl.curRef));
        InsertedSplit(fl.ops, NodeText(a[0]), NodeText(b[0]), attrs);
        OneText(NodeText(a[0]) + NodeText(b[0]));
        assert Joined(a, b)[1..] == b[1..];
      } else {
        assert (a + b)[1..] == b;
      }
    } else {
      assert Joined(a, b) == b;
    }
  }
}
