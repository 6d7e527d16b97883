/**
 * XML trees and their written form: what a reader finds who removes every line break, with the white space
 * after it, in front of a tag.
 */
module XmlText {
  import opened Text

  type Attrs = map<string, string>

  datatype Xml = Text(value: string) | Element(name: string, attrs: Attrs, nodes: seq<Xml>)

  function InnerText(nodes: seq<Xml>): string
    decreases nodes, 0
  {
    if nodes == [] then "" else NodeText(nodes[0]) + InnerText(nodes[1..])
  }

  function NodeText(n: Xml): string
    decreases n, 1
  {
    if n.Text? then n.value else InnerText(n.nodes)
  }

  // The only text of an element.
  function TextOf(s: string): seq<Xml> {
    if s == "" then [] else [Text(s)]
  }

  /** The tree as it is read from its written form: neighbouring texts are one, and empty ones vanish. */
  function Reread(nodes: seq<Xml>): seq<Xml>
    decreases nodes, 0
  {
    if nodes == [] then [] else Cons(nodes[0], Reread(nodes[1..]))
  }

  function Cons(n: Xml, rest: seq<Xml>): seq<Xml>
    decreases n, 1
  {
    match n
    case Element(_, _, _) => [NodeReread(n)] + rest
    case Text(v) =>
      if v == "" then rest
      else if rest != [] && rest[0].Text? then [Text(v + rest[0].value)] + rest[1..]
      else [n] + rest
  }

  function NodeReread(n: Xml): Xml
    requires n.Element?
    decreases n, 0
  {
    n.(nodes := Reread(n.nodes))
  }

  lemma RereadFirst(n: Xml, rest: seq<Xml>)
    requires n.Element?
    ensures Reread([n] + rest) == [NodeReread(n)] + Reread(rest)
  {
    assert ([n] + rest)[1..] == rest;
  }

  lemma TextOfFlat(s: string)
    ensures InnerText(TextOf(s)) == s && Flat(TextOf(s)) && Reread(TextOf(s)) == TextOf(s)
  {
    if s != "" {
      assert InnerText([Text(s)]) == s + InnerText([]);
      assert Reread([Text(s)]) == Cons(Text(s), Reread([]));
    }
  }

  // Nothing but text, in one piece.
  predicate Flat(nodes: seq<Xml>) {
    nodes == TextOf(InnerText(nodes))
  }

  // ----- line breaks before tags

  predicate AllSpace(s: string) {
    forall i :: 0 <= i < |s| ==> IsSpace(s[i])
  }

  /** The text without a line break that has only white space after it. */
  function Strip(s: string): string {
    if s == "" then ""
    else if s[0] == '\n' && AllSpace(s[1..]) then ""
    else [s[0]] + Strip(s[1..])
  }

  lemma {:induction false} StripSpace(s: string)
    ensures AllSpace(Strip(s)) <==> AllSpace(s)
  {
    if s != "" {
      StripSpace(s[1..]);
      HeadTail(s);
      assert AllSpace(s) <==> IsSpace(s[0]) && AllSpace(s[1..]);
      Tail(s[0], Strip(s[1..]));
    }
  }

  lemma {:induction false} StripTwice(s: string)
    ensures Strip(Strip(s)) == Strip(s)
  {
    if s != "" && !(s[0] == '\n' && AllSpace(s[1..])) {
      StripTwice(s[1..]);
      StripSpace(s[1..]);
      Tail(s[0], Strip(s[1..]));
    }
  }

  // A line break and the white space that starts the next line.
  predicate IsIndent(w: string) {
    w != "" && w[0] == '\n' && AllSpace(w)
  }

  lemma {:induction false} StripIndent(s: string, w: string)
    requires IsIndent(w)
    ensures Strip(s + w) == Strip(s)
  {
    if s == "" {
      PlusNothing(w);
      assert forall i :: 0 <= i < |w[1..]| ==> w[1..][i] == w[i + 1];
    } else {
      assert (s + w)[0] == s[0] && (s + w)[1..] == s[1..] + w;
      StripIndent(s[1..], w);
      assert AllSpace(s[1..] + w) <==> AllSpace(s[1..]) by {
        assert forall i :: 0 <= i < |s[1..]| ==> (s[1..] + w)[i] == s[1..][i];
      }
    }
  }

  function Stripped(nodes: seq<Xml>): seq<Xml>
    decreases nodes, 0
  {
    if nodes == [] then [] else NodeStripped(nodes[0]) + Stripped(nodes[1..])
  }

  function NodeStripped(n: Xml): seq<Xml>
    decreases n, 1
  {
    match n
    case Text(v) => TextOf(Strip(v))
    case Element(name, attrs, nodes) => [Element(name, attrs, Stripped(nodes))]
  }

  /** What is read of a written list of nodes. */
  function ReadBack(nodes: seq<Xml>): seq<Xml> {
    Stripped(Reread(nodes))
  }

  function NodeRead(n: Xml): Xml
    requires n.Element?
  {
    n.(nodes := ReadBack(n.nodes))
  }

  lemma StrippedFirst(n: Xml, rest: seq<Xml>)
    ensures Stripped([n] + rest) == NodeStripped(n) + Stripped(rest)
  {
    Tail(n, rest);
  }

  lemma ReadFirst(n: Xml, rest: seq<Xml>)
    requires n.Element?
    ensures ReadBack([n] + rest) == [NodeRead(n)] + ReadBack(rest)
  {
    RereadFirst(n, rest);
    StrippedFirst(NodeReread(n), Reread(rest));
    assert NodeStripped(NodeReread(n)) == [NodeRead(n)];
  }

  lemma TextRead(s: string)
    ensures ReadBack(TextOf(s)) == TextOf(Strip(s)) == Stripped(TextOf(s))
  {
    TextOfFlat(s);
    if s != "" {
      PlusNothing([Text(s)]);
      StrippedFirst(Text(s), []);
      PlusNothing(TextOf(Strip(s)));
    }
  }

  // No text has a line break before a tag.
  predicate Steady(nodes: seq<Xml>)
    decreases nodes, 0
  {
    nodes == [] || (NodeSteady(nodes[0]) && Steady(nodes[1..]))
  }

  predicate NodeSteady(n: Xml)
    decreases n, 1
  {
    match n
    case Text(v) => Strip(v) == v
    case Element(_, _, nodes) => Steady(nodes)
  }

  lemma SteadyFirst(n: Xml, rest: seq<Xml>)
    ensures Steady([n] + rest) <==> NodeSteady(n) && Steady(rest)
  {
    Tail(n, rest);
  }

  /** What is read is steady. */
  lemma {:induction false} StrippedSteady(nodes: seq<Xml>)
    ensures Steady(Stripped(nodes))
    decreases nodes, 0
  {
    if nodes != [] {
      StrippedSteady(nodes[1..]);
      NodeStrippedSteady(nodes[0]);
      if NodeStripped(nodes[0]) == [] {
        PlusNothing(Stripped(nodes[1..]));
      } else {
        SteadyFirst(NodeStripped(nodes[0])[0], Stripped(nodes[1..]));
      }
    }
  }

  lemma {:induction false} NodeStrippedSteady(n: Xml)
    ensures NodeStripped(n) == [] || (|NodeStripped(n)| == 1 && NodeSteady(NodeStripped(n)[0]))
    decreases n, 1
  {
    match n
    case Text(v) => StripTwice(v);
    case Element(_, _, nodes) => StrippedSteady(nodes);
  }

  // Texts are not empty, and not next to each other.
  predicate Separate(nodes: seq<Xml>) {
    nodes == [] ||
    ((nodes[0].Text? ==> nodes[0].value != "" && (|nodes| > 1 ==> nodes[1].Element?)) && Separate(nodes[1..]))
  }

  lemma SeparateFirst(n: Xml, rest: seq<Xml>)
    requires Separate(rest) && (n.Text? ==> n.value != "" && (rest != [] ==> rest[0].Element?))
    ensures Separate([n] + rest)
  {
    Tail(n, rest);
  }

  lemma {:induction false} RereadSeparate(nodes: seq<Xml>)
    ensures Separate(Reread(nodes))
  {
    if nodes != [] {
      var n, rest := nodes[0], Reread(nodes[1..]);
      RereadSeparate(nodes[1..]);
      if n.Element? {
        SeparateFirst(NodeReread(n), rest);
      } else if n.value != "" && rest != [] && rest[0].Text? {
        SeparateFirst(Text(n.value + rest[0].value), rest[1..]);
      } else if n.value != "" {
        SeparateFirst(n, rest);
      }
    }
  }

  lemma {:induction false} StrippedSeparate(nodes: seq<Xml>)
    requires Separate(nodes)
    ensures Separate(Stripped(nodes))
    ensures nodes != [] && nodes[0].Element? ==> Stripped(nodes) != [] && Stripped(nodes)[0].Element?
  {
    if nodes != [] {
      var n, rest := nodes[0], Stripped(nodes[1..]);
      StrippedSeparate(nodes[1..]);
      if NodeStripped(n) == [] {
        PlusNothing(rest);
      } else {
        SeparateFirst(NodeStripped(n)[0], rest);
      }
    }
  }

  // ----- indentation

  /** written is nodes with line breaks and indentation added in front of tags, anywhere. */
  predicate Indents(nodes: seq<Xml>, written: seq<Xml>)
    decreases written, 0
  {
    if written == [] then nodes == []
    else
      || IndentFirst(nodes, written)
      || (nodes != [] && NodeIndents(nodes[0], written[0]) && Indents(nodes[1..], written[1..]))
  }

  predicate IndentFirst(nodes: seq<Xml>, written: seq<Xml>)
    requires written != []
    decreases written, 0, 0
  {
    && written[0].Text? && IsIndent(written[0].value)
    && (|written| > 1 ==> written[1].Element?)
    && Indents(nodes, written[1..])
  }

  predicate NodeIndents(n: Xml, w: Xml)
    decreases w, 1
  {
    match w
    case Text(v) => n == w
    case Element(name, attrs, nodes) => n.Element? && n.name == name && n.attrs == attrs && Indents(n.nodes, nodes)
  }

  // The text at the front, and what comes after it.
  function Lead(nodes: seq<Xml>): string {
    if nodes != [] && nodes[0].Text? then nodes[0].value else ""
  }

  function AfterLead(nodes: seq<Xml>): seq<Xml> {
    if nodes != [] && nodes[0].Text? then nodes[1..] else nodes
  }

  // Both are read alike, whatever text is put in front of them.
  ghost predicate ReadAlike(a: seq<Xml>, b: seq<Xml>) {
    && Stripped(AfterLead(a)) == Stripped(AfterLead(b))
    && forall s: string :: Strip(s + Lead(a)) == Strip(s + Lead(b))
  }

  lemma AlikeStripped(a: seq<Xml>, b: seq<Xml>)
    requires ReadAlike(a, b)
    ensures Stripped(a) == Stripped(b)
  {
    LeadStripped(a);
    LeadStripped(b);
    assert "" + Lead(a) == Lead(a) && "" + Lead(b) == Lead(b);
  }

  lemma LeadStripped(a: seq<Xml>)
    ensures Stripped(a) == TextOf(Strip(Lead(a))) + Stripped(AfterLead(a))
  {
    PlusNothing(Stripped(a));
  }

  lemma AlikeText(v: string, a: seq<Xml>, b: seq<Xml>)
    requires ReadAlike(a, b)
    ensures ReadAlike(Cons(Text(v), a), Cons(Text(v), b))
  {
    LeadOfCons(v, a);
    LeadOfCons(v, b);
    forall s: string ensures Strip(s + (v + Lead(a))) == Strip(s + (v + Lead(b))) {
      PlusAssoc(s, v, Lead(a));
      PlusAssoc(s, v, Lead(b));
    }
  }

  lemma LeadOfCons(v: string, a: seq<Xml>)
    ensures Lead(Cons(Text(v), a)) == v + Lead(a) && AfterLead(Cons(Text(v), a)) == AfterLead(a)
  {
    PlusNothing(v);
    PlusNothing(Lead(a));
    Tail(Text(v), a);
    if a != [] {
      Tail(Text(v + Lead(a)), a[1..]);
    }
  }

  lemma AlikeElement(n: Xml, w: Xml, a: seq<Xml>, b: seq<Xml>)
    requires n.Element? && w.Element? && n.name == w.name && n.attrs == w.attrs
    requires ReadAlike(Reread(n.nodes), Reread(w.nodes)) && ReadAlike(a, b)
    ensures ReadAlike(Cons(n, a), Cons(w, b))
  {
    AlikeStripped(Reread(n.nodes), Reread(w.nodes));
    AlikeStripped(a, b);
    StrippedFirst(NodeReread(n), a);
    StrippedFirst(NodeReread(w), b);
  }

  lemma AlikeIndent(w: string, a: seq<Xml>, b: seq<Xml>)
    requires IsIndent(w) && ReadAlike(a, b) && (b == [] || b[0].Element?)
    ensures ReadAlike(a, Cons(Text(w), b))
  {
    LeadOfCons(w, b);
    PlusNothing(w);
    forall s: string ensures Strip(s + Lead(a)) == Strip(s + w) {
      StripIndent(s, w);
      PlusNothing(s);
      assert Strip(s + Lead(a)) == Strip(s + Lead(b));
    }
  }

  lemma {:induction false} IndentedAlike(nodes: seq<Xml>, written: seq<Xml>)
    requires Indents(nodes, written)
    ensures ReadAlike(Reread(nodes), Reread(written))
    decreases written, 1
  {
    if written != [] {
      var w, rest := written[0], written[1..];
      if IndentFirst(nodes, written) {
        IndentedAlike(nodes, rest);
        assert rest != [] ==> rest[0].Element? && Reread(rest) == [NodeReread(rest[0])] + Reread(rest[1..]);
        AlikeIndent(w.value, Reread(nodes), Reread(rest));
      } else {
        IndentedAlike(nodes[1..], rest);
        if w.Text? {
          AlikeText(w.value, Reread(nodes[1..]), Reread(rest));
        } else {
          IndentedAlike(nodes[0].nodes, w.nodes);
          AlikeElement(nodes[0], w, Reread(nodes[1..]), Reread(rest));
        }
      }
    }
  }

  /** Indentation in front of tags is not read. */
  lemma IndentNotRead(nodes: seq<Xml>, written: seq<Xml>)
    requires Indents(nodes, written)
    ensures ReadBack(written) == ReadBack(nodes)
  {
    IndentedAlike(nodes, written);
    AlikeStripped(Reread(nodes), Reread(written));
  }
}
