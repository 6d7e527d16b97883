/**
 * What a trip through a Delta makes of inline content: empty text disappears, neighbouring texts and
 * neighbouring equal refs become one, a ref keeps only its text, and formatting around nothing goes
 * away. Content that is left alone by this is called canonical.
 */
module NormalForm {
  import opened Text
  import opened Usx

  /** Two neighbours whose runs have equal attributes. */
  predicate Fusible(a: Node, b: Node) {
    || (a.XText? && b.XText?)
    || (IsElement(a, Ref) && IsElement(b, Ref) && a.attrs == b.attrs)
  }

  function Fused(a: Node, b: Node): Node
    requires Fusible(a, b)
  {
    if a.XText? && b.XText? then XText(a.value + b.value)
    else if a.XElement? then a.(nodes := [XText(InnerText(a.nodes) + InnerText(if b.XElement? then b.nodes else []))])
    else a
  }

  /** Puts what became of one node (nothing, or one node) before what became of the nodes after it. */
  function Joined(a: seq<Node>, b: seq<Node>): seq<Node> {
    if |a| == 1 && b != [] && Fusible(a[0], b[0]) then [Fused(a[0], b[0])] + b[1..] else a + b
  }

  function Norm(nodes: seq<Node>): seq<Node>
    decreases nodes, 0
  {
    if nodes == [] then [] else Joined(NodeNorm(nodes[0]), Norm(nodes[1..]))
  }

  function NodeNorm(n: Node): (r: seq<Node>)
    ensures |r| <= 1
    decreases n, 1
  {
    match n
    case XText(value) => if value == "" then [] else [n]
    case XElement(tag, attrs, nodes) =>
      match tag
      case Verse => [XElement(Verse, attrs, [])]
      case Ref =>
        var text := InnerText(nodes);
        if text == "" then [] else [XElement(Ref, attrs, [XText(text)])]
      case Char =>
        var inner := Norm(nodes);
        if nodes != [] && inner == [] then [] else [XElement(Char, attrs, inner)]
      case _ => [XElement(tag, attrs, Norm(nodes))]
  }

  predicate Canonical(nodes: seq<Node>)
    decreases nodes, 0
  {
    nodes == [] ||
    (NodeCanonical(nodes[0]) && Canonical(nodes[1..]) && (|nodes| > 1 ==> !Fusible(nodes[0], nodes[1])))
  }

  predicate NodeCanonical(n: Node)
    decreases n, 1
  {
    match n
    case XText(value) => value != ""
    case XElement(tag, _, nodes) =>
      match tag
      case Verse => nodes == []
      case Ref => |nodes| == 1 && nodes[0].XText? && nodes[0].value != ""
      case _ => Canonical(nodes)
  }

  lemma OneText(v: string)
    ensures InnerText([XText(v)]) == v
  {
    assert InnerText([XText(v)]) == NodeText(XText(v)) + InnerText([]);
  }

  lemma RefText(nodes: seq<Node>)
    requires |nodes| == 1 && nodes[0].XText?
    ensures InnerText(nodes) == nodes[0].value
  {
    OneText(nodes[0].value);
    assert nodes == [nodes[0]];
  }

  // ----- the normal form is canonical

  lemma {:induction false} NormIsCanonical(nodes: seq<Node>)
    ensures Canonical(Norm(nodes))
    decreases nodes, 0
  {
    if nodes != [] {
      NodeNormIsCanonical(nodes[0]);
      NormIsCanonical(nodes[1..]);
      JoinedIsCanonical(NodeNorm(nodes[0]), Norm(nodes[1..]));
    }
  }

  lemma {:induction false} NodeNormIsCanonical(n: Node)
    ensures forall k :: k in NodeNorm(n) ==> NodeCanonical(k)
    decreases n, 1
  {
    if n.XElement? && n.tag != Verse && n.tag != Ref {
      NormIsCanonical(n.nodes);
    }
  }

  lemma JoinedIsCanonical(a: seq<Node>, b: seq<Node>)
    requires |a| <= 1 && (forall k :: k in a ==> NodeCanonical(k)) && Canonical(b)
    ensures Canonical(Joined(a, b))
  {
    if |a| == 1 && b != [] {
      var r := Joined(a, b);
      if Fusible(a[0], b[0]) {
        FusedIsCanonical(a[0], b[0]);
        assert r[1..] == b[1..];
        assert |b| > 1 ==> (Fusible(r[0], b[1]) <==> Fusible(b[0], b[1]));
      } else {
        assert r[1..] == b;
      }
    } else if |a| == 1 {
      assert Joined(a, b) == a && a[1..] == [];
    } else {
      assert Joined(a, b) == b;
    }
  }

  lemma FusedIsCanonical(a: Node, b: Node)
    requires Fusible(a, b) && NodeCanonical(a) && NodeCanonical(b)
    ensures NodeCanonical(Fused(a, b))
    ensures b.XText? ==> Fused(a, b).XText?
    ensures b.XElement? ==> IsElement(Fused(a, b), Ref) && Fused(a, b).attrs == b.attrs
  {
    if a.XElement? {
      RefText(a.nodes);
    }
  }

  // ----- exactly the canonical content is its own normal form

  lemma {:induction false} NormNoLonger(nodes: seq<Node>)
    ensures |Norm(nodes)| <= |nodes|
  {
    if nodes != [] {
      NormNoLonger(nodes[1..]);
    }
  }

  lemma {:induction false} CanonicalIsNormal(nodes: seq<Node>)
    requires Canonical(nodes)
    ensures Norm(nodes) == nodes
    decreases nodes, 0
  {
    if nodes != [] {
      NodeCanonicalIsNormal(nodes[0]);
      CanonicalIsNormal(nodes[1..]);
      assert nodes == [nodes[0]] + nodes[1..];
    }
  }

  lemma {:induction false} NodeCanonicalIsNormal(n: Node)
    requires NodeCanonical(n)
    ensures NodeNorm(n) == [n]
    decreases n, 1
  {
    if n.XElement? {
      if n.tag == Ref {
        RefText(n.nodes);
        assert n.nodes == [XText(n.nodes[0].value)];
      } else if n.tag != Verse {
        CanonicalIsNormal(n.nodes);
      }
    }
  }

  /** Inline content survives a round trip unchanged exactly when it is canonical. */
  lemma NormalIffCanonical(nodes: seq<Node>)
    ensures Norm(nodes) == nodes <==> Canonical(nodes)
    ensures Norm(Norm(nodes)) == Norm(nodes)
  {
    NormIsCanonical(nodes);
    CanonicalIsNormal(Norm(nodes));
    if Canonical(nodes) {
      CanonicalIsNormal(nodes);
    }
  }

  /** The text of the content, in reading order, is what it was, exactly if there is none inside a verse. */
  lemma {:induction false} NormKeepsText(nodes: seq<Node>)
    ensures |InnerText(Norm(nodes))| <= |InnerText(nodes)|
    ensures InnerText(Norm(nodes)) == InnerText(nodes) <==> NoVerseText(nodes)
    decreases nodes, 0
  {
    if nodes != [] {
      var kept, rest := NodeNorm(nodes[0]), Norm(nodes[1..]);
      NodeNormKeepsText(nodes[0]);
      NormKeepsText(nodes[1..]);
      JoinedText(kept, rest);
      SameParts(InnerText(kept), InnerText(rest), NodeText(nodes[0]), InnerText(nodes[1..]));
    }
  }

  lemma {:induction false} NodeNormKeepsText(n: Node)
    ensures |InnerText(NodeNorm(n))| <= |NodeText(n)|
    ensures InnerText(NodeNorm(n)) == NodeText(n) <==> NodeNoVerseText(n)
    decreases n, 1
  {
    match n
    case XText(v) =>
      OneText(v);
    case XElement(tag, attrs, nodes) =>
      if tag == Ref {
        OneText(InnerText(nodes));
      } else if tag != Verse {
        NormKeepsText(nodes);
      }
      if NodeNorm(n) != [] {
        assert NodeNorm(n) == [NodeNorm(n)[0]] && NodeNorm(n)[1..] == [];
        assert InnerText(NodeNorm(n)) == NodeText(NodeNorm(n)[0]) + InnerText([]);
      }
  }

  lemma FusedText(a: Node, b: Node)
    requires Fusible(a, b)
    ensures NodeText(Fused(a, b)) == NodeText(a) + NodeText(b)
  {
    if a.XElement? {
      OneText(InnerText(a.nodes) + InnerText(b.nodes));
    }
  }

  lemma FirstText(n: Node, rest: seq<Node>)
    ensures InnerText([n] + rest) == NodeText(n) + InnerText(rest)
  {
    assert ([n] + rest)[1..] == rest;
  }

  lemma FusedTexts(n: Node, b: seq<Node>)
    requires b != [] && Fusible(n, b[0])
    ensures InnerText([Fused(n, b[0])] + b[1..]) == NodeText(n) + InnerText(b)
  {
    FusedText(n, b[0]);
    FirstText(Fused(n, b[0]), b[1..]);
    FirstText(b[0], b[1..]);
    assert b == [b[0]] + b[1..];
    PlusAssoc(NodeText(n), NodeText(b[0]), InnerText(b[1..]));
  }

  lemma JoinedText(a: seq<Node>, b: seq<Node>)
    requires |a| <= 1
    ensures InnerText(Joined(a, b)) == InnerText(a) + InnerText(b)
  {
    if a == [] {
      assert a + b == b;
    } else {
      var n := a[0];
      assert a == [n] + [];
      FirstText(n, []);
      if b != [] && Fusible(n, b[0]) {
        FusedTexts(n, b);
      } else {
        FirstText(n, b);
        assert a + b == [n] + b;
      }
    }
  }

  // A verse marker has no text of its own.
  predicate NoVerseText(nodes: seq<Node>)
    decreases nodes, 0
  {
    nodes == [] || (NodeNoVerseText(nodes[0]) && NoVerseText(nodes[1..]))
  }

  predicate NodeNoVerseText(n: Node)
    decreases n, 1
  {
    n.XText? || (if n.tag == Verse then InnerText(n.nodes) == "" else n.tag == Ref || NoVerseText(n.nodes))
  }
}
