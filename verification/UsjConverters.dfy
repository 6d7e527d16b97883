/** USX to USJ and back: the two tree converters, and exactly which trees survive the trip. */
module UsjConverters {
  import opened Text

  type Attrs = map<string, string>

  // A USX document tree; Whitespace is text that the XML reader classified as white space.
  datatype Node =
    | TextNode(value: string)
    | Whitespace(value: string)
    | OtherNode
    | Element(name: string, attrs: Attrs, children: seq<Node>)

  // fields are the marker's named string properties and its additional string data.
  datatype Content =
    | Str(value: string)
    | Marker(kind: string, marker: Option<string>, fields: Attrs, content: Contents)

  // A marker without content has none at all; the root keeps an empty list.
  datatype Contents = NoContents | Items(items: seq<Content>)

  // ----- names and attributes

  const TABLE: string := "table:"

  function KindOf(name: string): string {
    if name == "row" || name == "cell" then TABLE + name else name
  }

  /** The kind without any "table:" in it. */
  function NameOf(kind: string): string {
    if kind == "" then ""
    else if |kind| >= 6 && kind[..6] == TABLE then NameOf(kind[6..])
    else [kind[0]] + NameOf(kind[1..])
  }

  predicate HasTable(s: string) {
    s != "" && ((|s| >= 6 && s[..6] == TABLE) || HasTable(s[1..]))
  }

  lemma {:induction false} NoTableKept(s: string)
    requires !HasTable(s)
    ensures NameOf(s) == s
  {
    if s != "" {
      NoTableKept(s[1..]);
    }
  }

  lemma NameOfKind(name: string)
    requires !HasTable(name)
    ensures NameOf(KindOf(name)) == name
  {
    NoTableKept(name);
    assert (TABLE + name)[..6] == TABLE && (TABLE + name)[6..] == name;
  }

  const DROPPED: set<string> := {"vid", "status"}
  const MARKERS: set<string> := {"style", "marker"}

  function MarkerOf(attrs: Attrs): Option<string> {
    if "marker" in attrs then Some(attrs["marker"])
    else if "style" in attrs then Some(attrs["style"])
    else None
  }

  function FieldsOf(attrs: Attrs): Attrs {
    attrs - DROPPED - MARKERS
  }

  function MarkerKey(kind: string): string {
    if kind == "unmatched" then "marker" else "style"
  }

  const NOT_WRITTEN: set<string> := {"type", "marker", "content"}

  function AttrsOf(kind: string, marker: Option<string>, fields: Attrs): Attrs {
    (if marker.Some? then map[MarkerKey(kind) := marker.value] else map[]) + (fields - NOT_WRITTEN)
  }

  /**
   * What the converters rely on: no attribute is called type or content, the marker attribute is that of an
   * unmatched element and style that of the others, and the name does not hold "table:".
   */
  predicate AttrsOk(name: string, attrs: Attrs) {
    && "type" !in attrs && "content" !in attrs && !HasTable(name)
    && ("marker" in attrs ==> name == "unmatched") && ("style" in attrs ==> name != "unmatched")
  }

  lemma AttrsBack(name: string, attrs: Attrs)
    requires AttrsOk(name, attrs)
    ensures AttrsOf(KindOf(name), MarkerOf(attrs), FieldsOf(attrs)) == attrs - DROPPED
  {
    var back := AttrsOf(KindOf(name), MarkerOf(attrs), FieldsOf(attrs));
    assert MarkerKey(KindOf(name)) == MarkerKey(name) by {
      assert (TABLE + name)[0] == 't' && "unmatched"[0] == 'u';
    }
    forall k ensures k in back <==> k in attrs - DROPPED {
    }
    forall k | k in back ensures back[k] == attrs[k] {
    }
  }

  // ----- the converters

  predicate IsXmlWhitespace(s: string) {
    s == "" || (s != " " && forall i :: 0 <= i < |s| ==> s[i] == '\t' || s[i] == '\n' || s[i] == '\r' || s[i] == ' ')
  }

  predicate IsTextual(n: Node) {
    n.TextNode? || n.Whitespace?
  }

  // Text that comes right after an element: any text, or white space that is a single space.
  predicate Follows(n: Node) {
    n.TextNode? || n == Whitespace(" ")
  }

  /** Milestones that end a verse or a chapter are left out. */
  predicate IsOmitted(name: string, attrs: Attrs) {
    "eid" in attrs && (name == "verse" || name == "chapter")
  }

  function Lead(children: seq<Node>): seq<Content> {
    if children != [] && IsTextual(children[0]) && !IsXmlWhitespace(children[0].value) then [Str(children[0].value)] else []
  }

  /** The elements among the children, each with the text right after it. */
  function Elements(children: seq<Node>): seq<Content>
    decreases children, 0
  {
    if children == [] then []
    else
      var rest := Elements(children[1..]);
      if children[0].Element? then
        (if IsOmitted(children[0].name, children[0].attrs) then [] else [ToUsj(children[0])])
        + (if |children| > 1 && Follows(children[1]) then [Str(children[1].value)] else [])
        + rest
      else rest
  }

  function ContentOf(kind: string, children: seq<Node>): Contents
    decreases children, 1
  {
    var content := Lead(children) + Elements(children);
    if content == [] && kind != "usx" then NoContents else Items(content)
  }

  function ToUsj(n: Node): Content
    requires n.Element?
    decreases n, 2
  {
    Marker(KindOf(n.name), MarkerOf(n.attrs), FieldsOf(n.attrs), ContentOf(KindOf(n.name), n.children))
  }

  function ToUsx(c: Content): Node
    decreases c, 1
  {
    match c
    case Str(value) => TextNode(value)
    case Marker(kind, marker, fields, content) =>
      Element(NameOf(kind), AttrsOf(kind, marker, fields), if content.NoContents? then [] else AllToUsx(content.items))
  }

  function AllToUsx(contents: seq<Content>): (r: seq<Node>)
    ensures |r| == |contents|
    decreases contents, 0
  {
    if contents == [] then [] else [ToUsx(contents[0])] + AllToUsx(contents[1..])
  }

  // ----- trees that survive

  // The attributes of every element are as the converters expect.
  predicate AllOk(children: seq<Node>)
    decreases children, 0
  {
    children == [] || (NodeOk(children[0]) && AllOk(children[1..]))
  }

  predicate NodeOk(n: Node)
    decreases n, 1
  {
    n.Element? ==> AttrsOk(n.name, n.attrs) && AllOk(n.children)
  }

  /** An element without dropped attributes whose children are kept elements and single texts between them. */
  predicate Canonical(n: Node)
    decreases n, 1
  {
    && n.Element? && n.attrs.Keys !! DROPPED
    && (n.children != [] && n.children[0].TextNode? ==> !IsXmlWhitespace(n.children[0].value))
    && AllCanonical(n.children)
  }

  predicate AllCanonical(children: seq<Node>)
    decreases children, 0
  {
    children == [] ||
    ((if children[0].TextNode? then |children| > 1 ==> children[1].Element?
      else Canonical(children[0]) && !IsOmitted(children[0].name, children[0].attrs))
     && AllCanonical(children[1..]))
  }

  lemma {:induction false} AllToUsxAppend(a: seq<Content>, b: seq<Content>)
    ensures AllToUsx(a + b) == AllToUsx(a) + AllToUsx(b)
  {
    if a == [] {
      assert a + b == b;
    } else {
      assert (a + b)[1..] == a[1..] + b;
      AllToUsxAppend(a[1..], b);
    }
  }

  lemma OneToUsx(c: Content)
    ensures AllToUsx([c]) == [ToUsx(c)]
  {
    assert [c][1..] == [];
  }

  // What the nodes after an element come back as: a text that follows it, and the rest.
  function Tail(children: seq<Node>): seq<Node> {
    (if children != [] && Follows(children[0]) then [TextNode(children[0].value)] else []) + AllToUsx(Elements(children))
  }

  lemma ElementBack(children: seq<Node>)
    requires children != [] && children[0].Element?
    ensures AllToUsx(Elements(children))
         == (if IsOmitted(children[0].name, children[0].attrs) then [] else [ToUsx(ToUsj(children[0]))]) + Tail(children[1..])
  {
    var own := if IsOmitted(children[0].name, children[0].attrs) then [] else [ToUsj(children[0])];
    var text := if |children| > 1 && Follows(children[1]) then [Str(children[1].value)] else [];
    var rest := Elements(children[1..]);
    AllToUsxAppend(own + text, rest);
    AllToUsxAppend(own, text);
    assert own != [] ==> AllToUsx(own) == [ToUsx(ToUsj(children[0]))] by {
      OneToUsx(ToUsj(children[0]));
    }
    assert text != [] ==> AllToUsx(text) == [TextNode(children[1].value)] by {
      if text != [] {
        OneToUsx(text[0]);
      }
    }
    PlusAssoc(AllToUsx(own), AllToUsx(text), AllToUsx(rest));
  }

  lemma {:induction false} TailNoLonger(children: seq<Node>)
    ensures |Tail(children)| <= |children| && |Elements(children)| <= |children|
    ensures children != [] && !children[0].Element? ==> |Elements(children)| < |children|
  {
    if children != [] {
      TailNoLonger(children[1..]);
      if children[0].Element? {
        ElementBack(children);
      }
    }
  }

  lemma SamePrefix<T>(a: seq<T>, b: seq<T>, c: seq<T>, d: seq<T>)
    requires |a| == |c|
    ensures a + b == c + d <==> a == c && b == d
  {
    if a + b == c + d {
      assert (a + b)[..|a|] == a && (c + d)[..|c|] == c;
      assert (a + b)[|a|..] == b && (c + d)[|c|..] == d;
    }
  }

  predicate StartsWithElement(children: seq<Node>) {
    children != [] ==> children[0].Element?
  }

  lemma {:induction false} ElementsBackIff(children: seq<Node>)
    requires AllOk(children)
    ensures AllToUsx(Elements(children)) == children <==> (AllCanonical(children) && StartsWithElement(children))
    decreases children, 0
  {
    if children != [] {
      var n, rest := children[0], children[1..];
      TailNoLonger(children);
      TailNoLonger(rest);
      if n.Element? {
        ElementBack(children);
        NodeBackIff(n);
        TailBackIff(rest);
        assert children == [n] + rest;
        if !IsOmitted(n.name, n.attrs) {
          SamePrefix([ToUsx(ToUsj(n))], Tail(rest), [n], rest);
        } else {
          assert AllToUsx(Elements(children)) == [] + Tail(rest);
        }
      }
    }
  }

  lemma {:induction false} TailBackIff(children: seq<Node>)
    requires AllOk(children)
    ensures Tail(children) == children <==> AllCanonical(children)
    decreases children, 1
  {
    if children != [] {
      var n, rest := children[0], children[1..];
      TailNoLonger(rest);
      assert children == [n] + rest;
      if n.Element? {
        ElementsBackIff(children);
        assert Tail(children) == [] + AllToUsx(Elements(children));
      } else if Follows(n) {
        ElementsBackIff(rest);
        SamePrefix([TextNode(n.value)], AllToUsx(Elements(rest)), [n], rest);
      }
    }
  }

  lemma {:induction false} ChildrenBackIff(children: seq<Node>)
    requires AllOk(children)
    ensures AllToUsx(Lead(children) + Elements(children)) == children <==>
              (AllCanonical(children) && (children != [] && children[0].TextNode? ==> !IsXmlWhitespace(children[0].value)))
    decreases children, 2
  {
    ElementsBackIff(children);
    TailNoLonger(children);
    if Lead(children) != [] {
      var n, rest := children[0], children[1..];
      AllToUsxAppend(Lead(children), Elements(children));
      OneToUsx(Str(n.value));
      ElementsBackIff(rest);
      assert children == [n] + rest;
      SamePrefix([TextNode(n.value)], AllToUsx(Elements(rest)), [n], rest);
    } else {
      assert Lead(children) + Elements(children) == Elements(children);
    }
  }

  /** An element survives the trip to USJ and back exactly when it is canonical. */
  lemma {:induction false} NodeBackIff(n: Node)
    requires n.Element? && NodeOk(n)
    ensures ToUsx(ToUsj(n)) == n <==> Canonical(n)
    decreases n, 1
  {
    AttrsBack(n.name, n.attrs);
    NameOfKind(n.name);
    assert (n.attrs - DROPPED).Keys == n.attrs.Keys - DROPPED;
    assert n.attrs.Keys !! DROPPED ==> n.attrs - DROPPED == n.attrs;
    ChildrenBackIff(n.children);
  }

  // ----- USJ that survives

  // Rows and cells are of the kinds the converter gives them, and other kinds do not hold "table:".
  predicate KindOk(kind: string) {
    kind == TABLE + "row" || kind == TABLE + "cell" || (!HasTable(kind) && kind != "row" && kind != "cell")
  }

  /** No field is called like something else in the marker or like an attribute left out, nor ends a milestone. */
  predicate MarkerOk(kind: string, fields: Attrs) {
    && KindOk(kind) && fields.Keys !! NOT_WRITTEN + DROPPED + MARKERS
    && ("eid" in fields ==> kind != "verse" && kind != "chapter")
  }

  lemma {:induction false} NameNoLonger(kind: string)
    ensures |NameOf(kind)| <= |kind| && (HasTable(kind) ==> |NameOf(kind)| < |kind|)
  {
    if kind != "" {
      if |kind| >= 6 && kind[..6] == TABLE {
        NameNoLonger(kind[6..]);
      } else {
        NameNoLonger(kind[1..]);
      }
    }
  }

  /** A kind is written and read back exactly if it is one of those. */
  lemma KindBackIff(kind: string)
    ensures KindOf(NameOf(kind)) == kind <==> KindOk(kind)
    ensures KindOk(kind) ==> (NameOf(kind) == "verse" <==> kind == "verse") && (NameOf(kind) == "chapter" <==> kind == "chapter")
  {
    NameNoLonger(kind);
    if HasTable(kind) {
      TableNames();
    } else {
      NoTableKept(kind);
      assert TABLE[0] == 't';
    }
  }

  lemma TableNames()
    ensures NameOf(TABLE + "row") == "row" && NameOf(TABLE + "cell") == "cell"
  {
    assert (TABLE + "row")[6..] == "row" && (TABLE + "cell")[6..] == "cell";
    NoTableKept("row");
    NoTableKept("cell");
  }

  /** The attributes are written and read back exactly if no field has one of the names used otherwise. */
  lemma FieldsBackIff(kind: string, marker: Option<string>, fields: Attrs)
    ensures var attrs := AttrsOf(kind, marker, fields);
            MarkerOf(attrs) == marker && FieldsOf(attrs) == fields <==> fields.Keys !! NOT_WRITTEN + DROPPED + MARKERS
    ensures "eid" in AttrsOf(kind, marker, fields) <==> "eid" in fields
  {
    var attrs := AttrsOf(kind, marker, fields);
    if FieldsOf(attrs) == fields {
      forall k | k in fields ensures k !in NOT_WRITTEN + DROPPED + MARKERS {
        assert k in FieldsOf(attrs);
      }
    }
    if fields.Keys !! NOT_WRITTEN + DROPPED + MARKERS {
      assert fields - NOT_WRITTEN == fields;
      assert FieldsOf(attrs) == fields;
    }
  }

  /** The marker's kind and attributes are written and read back, and it is no omitted milestone. */
  lemma MarkerBackIff(kind: string, marker: Option<string>, fields: Attrs)
    ensures var name, attrs := NameOf(kind), AttrsOf(kind, marker, fields);
            MarkerOk(kind, fields) <==>
              KindOf(name) == kind && MarkerOf(attrs) == marker && FieldsOf(attrs) == fields && !IsOmitted(name, attrs)
  {
    KindBackIff(kind);
    FieldsBackIff(kind, marker, fields);
  }

  predicate ContentOk(c: Content)
    decreases c, 1
  {
    match c
    case Str(_) => true
    case Marker(kind, marker, fields, content) =>
      && MarkerOk(kind, fields)
      && (content.Items? ==> (content.items == [] ==> kind == "usx") && AllContentOk(content.items))
      && (content.NoContents? ==> kind != "usx")
  }

  predicate AllContentOk(items: seq<Content>)
    decreases items, 0
  {
    items == [] || (ContentOk(items[0]) && AllContentOk(items[1..]))
  }

  /** No two texts stand together, and a first text is more than white space; afterText and first say what came before. */
  predicate Apart(items: seq<Content>, afterText: bool, first: bool)
    decreases items, 0
  {
    items == [] ||
    (if items[0].Str? then !afterText && (first ==> !IsXmlWhitespace(items[0].value)) && Apart(items[1..], true, false)
     else MarkerApart(items[0]) && Apart(items[1..], false, false))
  }

  predicate MarkerApart(c: Content)
    decreases c, 1
  {
    c.Marker? && c.content.Items? ==> Apart(c.content.items, false, true)
  }

  lemma AllToUsxStep(items: seq<Content>)
    requires items != []
    ensures var u := AllToUsx(items); u[0] == ToUsx(items[0]) && u[1..] == AllToUsx(items[1..])
  {
  }

  // What items come back as after a marker.
  function TailAgain(items: seq<Content>): seq<Content> {
    (if items != [] && items[0].Str? then [items[0]] else []) + Elements(AllToUsx(items))
  }

  lemma KeptElement(children: seq<Node>)
    requires children != [] && children[0].Element? && !IsOmitted(children[0].name, children[0].attrs)
    ensures var rest := children[1..];
            Elements(children) == [ToUsj(children[0])]
              + ((if rest != [] && Follows(rest[0]) then [Str(rest[0].value)] else []) + Elements(rest))
  {
    var text := if |children| > 1 && Follows(children[1]) then [Str(children[1].value)] else [];
    PlusAssoc([ToUsj(children[0])], text, Elements(children[1..]));
  }

  // A text follows, a marker does not.
  lemma FollowsAgain(c: Content)
    ensures Follows(ToUsx(c)) <==> c.Str?
    ensures c.Str? ==> Str(ToUsx(c).value) == c
  {
  }

  lemma MarkerAgain(items: seq<Content>)
    requires items != [] && items[0].Marker? && ContentOk(items[0])
    ensures Elements(AllToUsx(items)) == [ToUsj(ToUsx(items[0]))] + TailAgain(items[1..])
  {
    var u := AllToUsx(items);
    AllToUsxStep(items);
    MarkerBackIff(items[0].kind, items[0].marker, items[0].fields);
    assert u[0].Element? && !IsOmitted(u[0].name, u[0].attrs);
    KeptElement(u);
    if |items| > 1 {
      AllToUsxStep(items[1..]);
      FollowsAgain(items[1]);
    }
  }

  lemma {:induction false} ElementsAgainIff(items: seq<Content>)
    requires AllContentOk(items)
    ensures Elements(AllToUsx(items)) == items <==> Apart(items, true, false)
    decreases items, 0
  {
    if items != [] {
      var c, rest := items[0], items[1..];
      assert items == [c] + rest;
      AllToUsxStep(items);
      TailNoLonger(AllToUsx(items));
      if c.Marker? {
        MarkerAgain(items);
        MarkerAgainIff(c);
        TailAgainIff(rest);
        SamePrefix([ToUsj(ToUsx(c))], TailAgain(rest), [c], rest);
      }
    }
  }

  lemma {:induction false} TailAgainIff(items: seq<Content>)
    requires AllContentOk(items)
    ensures TailAgain(items) == items <==> Apart(items, false, false)
    decreases items, 1
  {
    if items != [] {
      var c, rest := items[0], items[1..];
      assert items == [c] + rest;
      AllToUsxStep(items);
      if c.Str? {
        ElementsAgainIff(rest);
        SamePrefix([c], Elements(AllToUsx(rest)), [c], rest);
      } else {
        ElementsAgainIff(items);
        assert TailAgain(items) == [] + Elements(AllToUsx(items));
      }
    }
  }

  lemma {:induction false} ItemsAgainIff(items: seq<Content>)
    requires AllContentOk(items)
    ensures Lead(AllToUsx(items)) + Elements(AllToUsx(items)) == items <==> Apart(items, false, true)
    decreases items, 2
  {
    if items != [] {
      var c, rest := items[0], items[1..];
      assert items == [c] + rest;
      AllToUsxStep(items);
      TailNoLonger(AllToUsx(items));
      ElementsAgainIff(items);
      if c.Str? {
        ElementsAgainIff(rest);
        SamePrefix([c], Elements(AllToUsx(rest)), [c], rest);
      }
      if Lead(AllToUsx(items)) == [] {
        assert [] + Elements(AllToUsx(items)) == Elements(AllToUsx(items));
      }
    }
  }

  /** A USJ marker survives the trip to USX and back exactly when its texts stand apart. */
  lemma {:induction false} MarkerAgainIff(c: Content)
    requires c.Marker? && ContentOk(c)
    ensures ToUsj(ToUsx(c)) == c <==> MarkerApart(c)
    decreases c, 1
  {
    var items := if c.content.Items? then c.content.items else [];
    var again := Lead(AllToUsx(items)) + Elements(AllToUsx(items));
    if c.content.Items? {
      ItemsAgainIff(c.content.items);
    }
    MarkerBackIff(c.kind, c.marker, c.fields);
    assert ToUsj(ToUsx(c)) == c.(content := ContentOf(c.kind, AllToUsx(items)));
    assert again == items ==> ContentOf(c.kind, AllToUsx(items)) == c.content;
  }

  // ----- USX that settles after one trip

  /**
   * No text right after an omitted milestone comes to stand next to another text, or to start the content
   * as white space. afterText and first say what the converted content has so far.
   */
  predicate Smooth(children: seq<Node>, afterText: bool, first: bool)
    decreases children, 0
  {
    children == [] ||
    var n, rest := children[0], children[1..];
    if !n.Element? then Smooth(rest, afterText, first)
    else
      var followed := rest != [] && Follows(rest[0]);
      if IsOmitted(n.name, n.attrs) then
        if followed then !afterText && (first ==> !IsXmlWhitespace(rest[0].value)) && Smooth(rest, true, false)
        else Smooth(rest, afterText, first)
      else NodeSmooth(n) && Smooth(rest, followed, false)
  }

  predicate NodeSmooth(n: Node)
    decreases n, 1
  {
    n.Element? ==> var led := Lead(n.children) != []; Smooth(n.children, led, !led)
  }

  lemma {:induction false} SmoothIffApart(children: seq<Node>, afterText: bool, first: bool)
    ensures Smooth(children, afterText, first) <==> Apart(Elements(children), afterText, first)
    decreases children, 0
  {
    if children != [] {
      var n, rest := children[0], children[1..];
      if !n.Element? {
        SmoothIffApart(rest, afterText, first);
      } else {
        var followed := rest != [] && Follows(rest[0]);
        var own := if IsOmitted(n.name, n.attrs) then [] else [ToUsj(n)];
        var text := if followed then [Str(rest[0].value)] else [];
        assert Elements(children) == own + text + Elements(rest);
        if own != [] {
          NodeSmoothIffApart(n);
          assert Elements(children)[1..] == text + Elements(rest);
        } else {
          assert Elements(children) == text + Elements(rest);
        }
        if followed {
          assert (text + Elements(rest))[1..] == Elements(rest);
        } else {
          assert text + Elements(rest) == Elements(rest);
        }
        SmoothIffApart(rest, if own != [] || followed then followed else afterText, first && own == [] && !followed);
      }
    }
  }

  lemma {:induction false} NodeSmoothIffApart(n: Node)
    requires n.Element?
    ensures NodeSmooth(n) <==> MarkerApart(ToUsj(n))
    decreases n, 1
  {
    var led := Lead(n.children);
    SmoothIffApart(n.children, led != [], led == []);
    if led != [] {
      assert (led + Elements(n.children))[1..] == Elements(n.children);
    } else {
      assert led + Elements(n.children) == Elements(n.children);
    }
  }

  lemma {:induction false} ConvertedOk(n: Node)
    requires n.Element? && NodeOk(n) && !IsOmitted(n.name, n.attrs)
    ensures ContentOk(ToUsj(n))
    decreases n, 1
  {
    AttrsBack(n.name, n.attrs);
    NameOfKind(n.name);
    var attrs := n.attrs - DROPPED;
    assert FieldsOf(attrs) == FieldsOf(n.attrs);
    MarkerBackIff(KindOf(n.name), MarkerOf(n.attrs), FieldsOf(n.attrs));
    AllConvertedOk(n.children);
    LeadOk(n.children);
  }

  lemma {:induction false} AllConvertedOk(children: seq<Node>)
    requires AllOk(children)
    ensures AllContentOk(Elements(children))
    decreases children, 0
  {
    if children != [] {
      AllConvertedOk(children[1..]);
      if children[0].Element? {
        var own := if IsOmitted(children[0].name, children[0].attrs) then [] else [ToUsj(children[0])];
        var text := if |children| > 1 && Follows(children[1]) then [Str(children[1].value)] else [];
        if own != [] {
          ConvertedOk(children[0]);
          assert own[1..] == [];
        }
        if text != [] {
          assert text[1..] == [];
        }
        AllContentOkAppend(own, text);
        AllContentOkAppend(own + text, Elements(children[1..]));
      }
    }
  }

  lemma LeadOk(children: seq<Node>)
    requires AllContentOk(Elements(children))
    ensures AllContentOk(Lead(children) + Elements(children))
  {
    if Lead(children) != [] {
      assert Lead(children)[1..] == [] && ContentOk(Lead(children)[0]) && AllContentOk([]);
    }
    AllContentOkAppend(Lead(children), Elements(children));
  }

  lemma {:induction false} AllContentOkAppend(a: seq<Content>, b: seq<Content>)
    requires AllContentOk(a) && AllContentOk(b)
    ensures AllContentOk(a + b)
  {
    if a == [] {
      assert a + b == b;
    } else {
      assert (a + b)[1..] == a[1..] + b;
      AllContentOkAppend(a[1..], b);
    }
  }

  /**
   * Converting back and forth once more changes nothing exactly when no text after an omitted milestone
   * runs into another text or starts the content as white space.
   */
  lemma SecondTripIff(n: Node)
    requires n.Element? && NodeOk(n) && !IsOmitted(n.name, n.attrs)
    ensures ToUsj(ToUsx(ToUsj(n))) == ToUsj(n) <==> NodeSmooth(n)
  {
    ConvertedOk(n);
    MarkerAgainIff(ToUsj(n));
    NodeSmoothIffApart(n);
  }

  // ----- the converters in place

  method ConvertAttributes(attrs: Attrs) returns (marker: Option<string>, fields: Attrs)
    ensures marker == MarkerOf(attrs) && fields == FieldsOf(attrs)
  {
    var attributes := attrs;
    marker := None;
    if "style" in attributes {
      marker := Some(attributes["style"]);
      attributes := attributes - {"style"};
    }
    if "vid" in attributes {
      attributes := attributes - {"vid"};
    }
    if "status" in attributes {
      attributes := attributes - {"status"};
    }
    fields := map[];
    var keys := attributes.Keys;
    while keys != {}
      invariant keys <= attributes.Keys
      invariant fields == map k | k in attributes && k !in keys && k != "marker" :: attributes[k]
      invariant marker == if "marker" in attributes && "marker" !in keys then Some(attributes["marker"]) else Get(attrs, "style")
      decreases keys
    {
      var key :| key in keys;
      if key == "marker" {
        marker := Some(attributes[key]);
      } else {
        fields := fields[key := attributes[key]];
      }
      keys := keys - {key};
    }
  }

  function Get(attrs: Attrs, key: string): Option<string> {
    if key in attrs then Some(attrs[key]) else None
  }

  method UsxDomToUsjRecurse(usxElement: Node) returns (outObj: Content, append: bool)
    requires usxElement.Element? && AttrsOk(usxElement.name, usxElement.attrs) && AllOk(usxElement.children)
    ensures outObj == ToUsj(usxElement) && append == !IsOmitted(usxElement.name, usxElement.attrs)
    decreases usxElement, 1
  {
    var kind := usxElement.name;
    if kind == "row" || kind == "cell" {
      kind := TABLE + kind;
    }
    var marker, fields := ConvertAttributes(usxElement.attrs);
    var content := ConvertChildren(usxElement.children);
    outObj := Marker(kind, marker, fields, if |content| == 0 && kind != "usx" then NoContents else Items(content));
    append := !("eid" in usxElement.attrs && (kind == "verse" || kind == "chapter"));
    assert (TABLE + "row")[0] == (TABLE + "cell")[0] == 't' && "verse"[0] == 'v' && "chapter"[0] == 'c';
  }

  method ConvertChildren(children: seq<Node>) returns (content: seq<Content>)
    requires AllOk(children)
    ensures content == Lead(children) + Elements(children)
    decreases children, 0
  {
    content := [];
    if |children| > 0 && IsTextual(children[0]) && !IsXmlWhitespace(children[0].value) {
      content := [Str(children[0].value)];
    }
    var i := 0;
    while i < |children|
      invariant 0 <= i <= |children| && AllOk(children[i..])
      invariant content + Elements(children[i..]) == Lead(children) + Elements(children)
    {
      var child := children[i];
      ghost var rest := children[i..];
      assert rest[1..] == children[i + 1..];
      if child.Element? {
        ElementsStep(content, rest);
        var childDict, appendChild := UsxDomToUsjRecurse(child);
        content := content + if appendChild then [childDict] else [];
        content := content + if i + 1 < |children| && Follows(children[i + 1]) then [Str(children[i + 1].value)] else [];
      }
      i := i + 1;
    }
    assert children[i..] == [] && content + [] == content;
  }

  // What a child element contributes itself, and the text right after it.
  function Own(n: Node): seq<Content>
    requires n.Element?
  {
    if IsOmitted(n.name, n.attrs) then [] else [ToUsj(n)]
  }

  function TextAfter(children: seq<Node>): seq<Content> {
    if |children| > 1 && Follows(children[1]) then [Str(children[1].value)] else []
  }

  lemma ElementsStep(before: seq<Content>, children: seq<Node>)
    requires children != [] && children[0].Element?
    ensures before + Elements(children) == ((before + Own(children[0])) + TextAfter(children)) + Elements(children[1..])
  {
    var own, text := Own(children[0]), TextAfter(children);
    assert Elements(children) == own + text + Elements(children[1..]);
    PlusAssoc(before, own + text, Elements(children[1..]));
    PlusAssoc(before, own, text);
  }

  method SetAttributes(kind: string, marker: Option<string>, fields: Attrs) returns (attrs: Attrs)
    ensures attrs == AttrsOf(kind, marker, fields)
  {
    attrs := map[];
    if marker.Some? {
      attrs := attrs[MarkerKey(kind) := marker.value];
    }
    var keys := fields.Keys;
    while keys != {}
      invariant keys <= fields.Keys
      invariant attrs == (if marker.Some? then map[MarkerKey(kind) := marker.value] else map[]) + (fields - keys - NOT_WRITTEN)
      decreases keys
    {
      var key :| key in keys;
      if key != "type" && key != "marker" && key != "content" {
        attrs := attrs[key := fields[key]];
      }
      keys := keys - {key};
    }
    assert fields - {} - NOT_WRITTEN == fields - NOT_WRITTEN;
  }

  method ConvertAll(content: seq<Content>) returns (children: seq<Node>)
    ensures children == AllToUsx(content)
    decreases content, 0
  {
    children := [];
    var i := 0;
    while i < |content|
      invariant 0 <= i <= |content| && children + AllToUsx(content[i..]) == AllToUsx(content)
    {
      assert content[i..][1..] == content[i + 1..];
      var node := ConvertUsjRecurse(content[i]);
      PlusAssoc(children, [node], AllToUsx(content[i + 1..]));
      children := children + [node];
      i := i + 1;
    }
    assert content[i..] == [] && children + [] == children;
  }

  method ConvertUsjRecurse(markerContent: Content) returns (node: Node)
    ensures node == ToUsx(markerContent)
    decreases markerContent, 1
  {
    match markerContent
    case Str(value) =>
      node := TextNode(value);
    case Marker(kind, marker, fields, content) =>
      var attrs := SetAttributes(kind, marker, fields);
      var children: seq<Node> := [];
      if content.Items? {
        children := ConvertAll(content.items);
      }
      node := Element(NameOf(kind), attrs, children);
  }
}
