/** XML notes: comment threads are formatted to an XML tree and parsed back. What the trip keeps, and exactly which contents. */
module NotesXml {
  import opened Text
  import opened XmlText

  // ----- comments

  datatype Selection = Selection(verseRef: string, startPos: int, selectedText: string, before: string, after: string)

  // The nodes of a comment, or the markup of one whose nodes are read from a text.
  datatype Contents = Nodes(nodes: seq<Xml>) | Markup(text: string)

  // threadId and selection are those of the whole thread; no tags at all differs from an empty list.
  datatype Comment = Comment(
    threadId: string,
    selection: Selection,
    user: Option<string>,
    date: string,
    externalUser: Option<string>,
    deleted: bool,
    tags: Option<seq<string>>,
    contents: Option<Contents>)

  // comments are the active ones.
  datatype Thread = Thread(id: string, isConflict: bool, selection: Selection, comments: seq<Comment>)

  // ----- formatting

  function Attr(name: string, value: string): Attrs {
    map[name := value]
  }

  // A language span must have a name.
  predicate Named(n: Xml) {
    n.Element? && n.name == "language" ==> "name" in n.attrs
  }

  predicate AllNamed(nodes: seq<Xml>) {
    forall n :: n in nodes ==> Named(n)
  }

  /** A text or a span of a paragraph; anything else is left out. */
  function FormatSpan(n: Xml): (r: seq<Xml>)
    requires Named(n)
    ensures |r| <= 1
  {
    match n
    case Text(_) => [n]
    case Element(name, attrs, nodes) =>
      if name == "bold" || name == "italic" then [Element("span", Attr("style", name), TextOf(InnerText(nodes)))]
      else if name == "language" then [Element("lang", Attr("name", attrs["name"]), TextOf(InnerText(nodes)))]
      else []
  }

  function FormatSpans(nodes: seq<Xml>): seq<Xml>
    requires AllNamed(nodes)
  {
    if nodes == [] then [] else FormatSpan(nodes[0]) + FormatSpans(nodes[1..])
  }

  function FormatParagraph(nodes: seq<Xml>): Xml
    requires AllNamed(nodes)
  {
    Element("p", map[], if |nodes| == 1 && nodes[0].Text? then TextOf(nodes[0].value) else FormatSpans(nodes))
  }

  predicate IsParagraph(n: Xml) {
    n.Element? && n.name == "p"
  }

  predicate ContentsNamed(nodes: seq<Xml>) {
    forall n :: n in nodes && IsParagraph(n) ==> AllNamed(n.nodes)
  }

  /** Paragraphs and texts; other nodes are left out. */
  function FormatNodes(nodes: seq<Xml>): seq<Xml>
    requires ContentsNamed(nodes)
  {
    if nodes == [] then []
    else
      assert nodes[0] in nodes;
      if nodes[0].Text? then [nodes[0]] + FormatNodes(nodes[1..])
      else if IsParagraph(nodes[0]) then [FormatParagraph(nodes[0].nodes)] + FormatNodes(nodes[1..])
      else FormatNodes(nodes[1..])
  }

  // A comment needs a user and, if it has contents, nodes; a start position is a 32-bit number.
  predicate Writable(c: Comment) {
    c.user.Some? && (c.contents.Some? ==> c.contents.value.Nodes? && ContentsNamed(c.contents.value.nodes))
  }

  function FormatContent(c: Comment): Xml
    requires Writable(c)
  {
    Element("content", map[],
      if c.contents.None? then [Element("p", map[], [])] else FormatNodes(c.contents.value.nodes))
  }

  function TagElement(text: string): Xml {
    Element("tagAdded", map[], TextOf(text))
  }

  function TagElements(tags: seq<string>): (r: seq<Xml>)
    ensures |r| == |tags|
  {
    if tags == [] then [] else [TagElement(tags[0])] + TagElements(tags[1..])
  }

  function CommentAttrs(c: Comment): Attrs
    requires c.user.Some?
  {
    map["user" := c.user.value, "date" := c.date]
    + (if c.externalUser.Some? then Attr("extUser", c.externalUser.value) else map[])
    + (if c.deleted then Attr("deleted", "true") else map[])
  }

  function FormatComment(c: Comment): Xml
    requires Writable(c)
  {
    Element("comment", CommentAttrs(c), TagElements(c.tags.GetOr([])) + [FormatContent(c)])
  }

  function IntText(n: int): string {
    if n < 0 then "-" + Decimal(-n) else Decimal(n)
  }

  function FormatSelection(s: Selection): Xml {
    Element("selection",
      map["verseRef" := s.verseRef, "startPos" := IntText(s.startPos), "selectedText" := s.selectedText]
      + (if s.before != "" then Attr("beforeContext", s.before) else map[])
      + (if s.after != "" then Attr("afterContext", s.after) else map[]), [])
  }

  function FormatComments(comments: seq<Comment>): seq<Xml>
    requires forall c :: c in comments ==> Writable(c)
  {
    if comments == [] then [] else [FormatComment(comments[0])] + FormatComments(comments[1..])
  }

  predicate ThreadWritable(t: Thread) {
    && -0x8000_0000 <= t.selection.startPos < 0x8000_0000
    && forall c :: c in t.comments ==> Writable(c)
  }

  function FormatThread(t: Thread): Xml
    requires ThreadWritable(t)
  {
    Element("thread", Attr("id", t.id) + (if t.isConflict then Attr("type", "conflict") else map[]),
            [FormatSelection(t.selection)] + FormatComments(t.comments))
  }

  /** The threads that have active comments. */
  function FormatThreads(threads: seq<Thread>): seq<Xml>
    requires forall t :: t in threads ==> ThreadWritable(t)
  {
    if threads == [] then []
    else if threads[0].comments == [] then FormatThreads(threads[1..])
    else [FormatThread(threads[0])] + FormatThreads(threads[1..])
  }

  // ----- parsing

  function Get(a: Attrs, key: string): Option<string> {
    if key in a then Some(a[key]) else None
  }

  function ElementsNamed(nodes: seq<Xml>, name: string): (r: seq<Xml>)
    ensures forall n :: n in r ==> n in nodes && n.Element? && n.name == name
  {
    if nodes == [] then []
    else (if nodes[0].Element? && nodes[0].name == name then [nodes[0]] else []) + ElementsNamed(nodes[1..], name)
  }

  lemma NamedFirst(n: Xml, rest: seq<Xml>, name: string)
    requires n.Element?
    ensures ElementsNamed([n] + rest, name) == (if n.name == name then [n] else []) + ElementsNamed(rest, name)
  {
    assert ([n] + rest)[1..] == rest;
  }

  function ParseSpan(n: Xml): (r: seq<Xml>)
    ensures |r| <= 1
  {
    match n
    case Text(_) => [n]
    case Element(name, attrs, nodes) =>
      if name == "span" then
        var style := Get(attrs, "style").GetOr("");
        [Element(if style == "bold" || style == "italic" then style else "span", map[], TextOf(InnerText(nodes)))]
      else if name == "lang" then [Element("language", Attr("name", Get(attrs, "name").GetOr("en")), TextOf(InnerText(nodes)))]
      else []
  }

  function ParseSpans(nodes: seq<Xml>): seq<Xml> {
    if nodes == [] then [] else ParseSpan(nodes[0]) + ParseSpans(nodes[1..])
  }

  /** The contents of a comment; a text at the front is read as markup, and nothing else is. */
  function ParseContent(nodes: seq<Xml>): Contents {
    if nodes != [] && nodes[0].Text? then Markup(nodes[0].value) else Nodes(ParseParagraphs(nodes))
  }

  function ParseParagraphs(nodes: seq<Xml>): seq<Xml> {
    if nodes == [] then []
    else if IsParagraph(nodes[0]) then
      [Element("p", map[], Reread(ParseSpans(nodes[0].nodes)))] + ParseParagraphs(nodes[1..])
    else ParseParagraphs(nodes[1..])
  }

  function TagTexts(elements: seq<Xml>): seq<string> {
    if elements == [] then [] else [NodeText(elements[0])] + TagTexts(elements[1..])
  }

  /** Reads a comment over the copy c of the comment before it; without tags it keeps that comment's. */
  function ParseComment(n: Xml, c: Comment): Comment
    requires n.Element?
  {
    var tags, content := ElementsNamed(n.nodes, "tagAdded"), ElementsNamed(n.nodes, "content");
    c.(user := Get(n.attrs, "user"),
       date := Get(n.attrs, "date").GetOr(c.date),
       externalUser := Get(n.attrs, "extUser"),
       deleted := Get(n.attrs, "deleted") == Some("true"),
       tags := if tags == [] then c.tags else Some(TagTexts(tags)),
       contents := Some(if content == [] then Nodes([]) else ParseContent(content[0].nodes)))
  }

  // The start position of a selection element is a number.
  predicate SelectionOk(n: Xml) {
    n.Element? && ParseInt(Get(n.attrs, "startPos").GetOr("0")).Some?
  }

  function ParseSelection(n: Xml): Selection
    requires SelectionOk(n)
  {
    Selection(Get(n.attrs, "verseRef").GetOr(""), ParseInt(Get(n.attrs, "startPos").GetOr("0")).value,
              Get(n.attrs, "selectedText").GetOr(""), Get(n.attrs, "beforeContext").GetOr(""),
              Get(n.attrs, "afterContext").GetOr(""))
  }

  function ParseComments(elements: seq<Xml>, c: Comment): (r: seq<Comment>)
    requires forall n :: n in elements ==> n.Element?
    ensures |r| == |elements|
  {
    if elements == [] then []
    else
      var c1 := ParseComment(elements[0], c);
      [c1] + ParseComments(elements[1..], c1)
  }

  /** Each comment is read over the one before it. */
  lemma {:induction false} CommentAt(elements: seq<Xml>, c: Comment, k: nat)
    requires (forall n :: n in elements ==> n.Element?) && k < |elements|
    ensures var all := ParseComments(elements, c);
            all[k] == ParseComment(elements[k], if k == 0 then c else all[k - 1])
  {
    if k > 0 {
      CommentAt(elements[1..], ParseComment(elements[0], c), k - 1);
    }
  }

  predicate ThreadOk(n: Xml) {
    n.Element? && forall s :: s in ElementsNamed(n.nodes, "selection") ==> SelectionOk(s)
  }

  // The comment that the first comment of a thread is read into.
  function Begun(n: Xml, blank: Comment): Comment
    requires ThreadOk(n)
  {
    var selections := ElementsNamed(n.nodes, "selection");
    var c := blank.(threadId := Get(n.attrs, "id").GetOr(blank.threadId));
    if selections == [] then c else c.(selection := ParseSelection(selections[0]))
  }

  function ParseThread(n: Xml, blank: Comment): seq<Comment>
    requires ThreadOk(n)
  {
    ParseComments(ElementsNamed(n.nodes, "comment"), Begun(n, blank))
  }

  predicate NotesOk(nodes: seq<Xml>) {
    forall n :: n in nodes && n.Element? && n.name == "thread" ==> ThreadOk(n)
  }

  function ParseNotes(nodes: seq<Xml>, blank: Comment): seq<seq<Comment>>
    requires NotesOk(nodes)
  {
    if nodes == [] then []
    else
      (if nodes[0].Element? && nodes[0].name == "thread" then [ParseThread(nodes[0], blank)] else [])
      + ParseNotes(nodes[1..], blank)
  }

  // ----- paragraphs that survive

  predicate SpanCanonical(n: Xml) {
    match n
    case Text(v) => v != ""
    case Element(name, attrs, nodes) =>
      Flat(nodes) && (if name == "language" then attrs.Keys == {"name"} else name in {"bold", "italic"} && attrs == map[])
  }

  /** Texts that stand apart, bold and italic text without attributes, and named language spans. */
  predicate SpansCanonical(nodes: seq<Xml>) {
    nodes == [] ||
    (SpanCanonical(nodes[0]) && SpansCanonical(nodes[1..]) && (|nodes| > 1 && nodes[0].Text? ==> !nodes[1].Text?))
  }

  // What formatting makes of spans.
  predicate Written(n: Xml) {
    match n
    case Text(_) => true
    case Element(name, attrs, nodes) =>
      && Flat(nodes)
      && (if name == "lang" then attrs.Keys == {"name"}
          else name == "span" && attrs.Keys == {"style"} && attrs["style"] in {"bold", "italic"})
  }

  predicate AllWritten(nodes: seq<Xml>) {
    forall n :: n in nodes ==> Written(n)
  }

  lemma {:induction false} FormattedIsWritten(nodes: seq<Xml>)
    requires AllNamed(nodes)
    ensures AllWritten(FormatSpans(nodes))
  {
    if nodes != [] {
      FormattedIsWritten(nodes[1..]);
      if nodes[0].Element? {
        TextOfFlat(InnerText(nodes[0].nodes));
      }
    }
  }

  lemma FlatReread(n: Xml)
    requires n.Element? && Flat(n.nodes)
    ensures NodeReread(n) == n
  {
    TextOfFlat(InnerText(n.nodes));
  }

  lemma {:induction false} RereadWritten(nodes: seq<Xml>)
    requires AllWritten(nodes)
    ensures AllWritten(Reread(nodes)) && forall n :: n in Reread(nodes) && n.Text? ==> n.value != ""
  {
    if nodes != [] {
      RereadWritten(nodes[1..]);
      assert Written(nodes[0]);
      if nodes[0].Element? {
        FlatReread(nodes[0]);
      }
    }
  }

  /** What is parsed from written spans is canonical once texts have joined. */
  lemma {:induction false} ParsedIsCanonical(nodes: seq<Xml>)
    requires AllWritten(nodes)
    ensures SpansCanonical(Reread(ParseSpans(nodes)))
  {
    if nodes != [] {
      ParsedIsCanonical(nodes[1..]);
      var rest := ParseSpans(nodes[1..]);
      assert Written(nodes[0]) && |ParseSpan(nodes[0])| == 1;
      var n := ParseSpan(nodes[0])[0];
      assert ParseSpans(nodes) == [n] + rest && ([n] + rest)[1..] == rest;
      assert Reread(ParseSpans(nodes)) == Cons(n, Reread(rest));
      if n.Element? {
        TextOfFlat(InnerText(nodes[0].nodes));
        FlatReread(n);
      }
      JoinedCanonical(n, Reread(rest));
    }
  }

  lemma JoinedCanonical(n: Xml, rest: seq<Xml>)
    requires SpansCanonical(rest) && (n.Element? ==> SpanCanonical(n) && NodeReread(n) == n)
    ensures SpansCanonical(Cons(n, rest))
  {
    if n.Text? && n.value != "" && rest != [] && rest[0].Text? {
      var joined := [Text(n.value + rest[0].value)] + rest[1..];
      assert joined[1..] == rest[1..];
    } else if n.Element? || n.value != "" {
      assert ([n] + rest)[1..] == rest;
    }
  }

  /** Formatting and parsing canonical spans changes nothing. */
  lemma {:induction false} CanonicalSpansBack(nodes: seq<Xml>)
    requires SpansCanonical(nodes) && AllNamed(nodes)
    ensures ParseSpans(Reread(FormatSpans(nodes))) == nodes && Reread(nodes) == nodes
    ensures Reread(FormatSpans(nodes)) == FormatSpans(nodes) && |FormatSpans(nodes)| == |nodes|
    ensures forall i :: 0 <= i < |nodes| ==> FormatSpans(nodes)[i].Text? == nodes[i].Text?
  {
    if nodes != [] {
      var n, rest := nodes[0], nodes[1..];
      CanonicalSpansBack(rest);
      SpanBack(n);
      var f := FormatSpan(n)[0];
      assert FormatSpans(nodes) == [f] + FormatSpans(rest);
      Tail(f, FormatSpans(rest));
      assert Reread(FormatSpans(nodes)) == Cons(f, FormatSpans(rest)) == [f] + FormatSpans(rest);
      assert ParseSpans([f] + FormatSpans(rest)) == ParseSpan(f) + ParseSpans(FormatSpans(rest));
      assert [n] + rest == nodes;
    }
  }

  lemma SpanBack(n: Xml)
    requires SpanCanonical(n) && Named(n)
    ensures |FormatSpan(n)| == 1 && ParseSpan(FormatSpan(n)[0]) == [n] && FormatSpan(n)[0].Text? == n.Text?
    ensures n.Element? ==> NodeReread(n) == n && NodeReread(FormatSpan(n)[0]) == FormatSpan(n)[0]
  {
    if n.Element? {
      TextOfFlat(InnerText(n.nodes));
      FlatReread(n);
      FlatReread(FormatSpan(n)[0]);
      if n.name == "language" {
        assert n.attrs == Attr("name", n.attrs["name"]);
      }
    }
  }

  // ----- contents that survive

  predicate ParasCanonical(nodes: seq<Xml>) {
    nodes == [] ||
    (IsParagraph(nodes[0]) && nodes[0].attrs == map[] && SpansCanonical(nodes[0].nodes) && ParasCanonical(nodes[1..]))
  }

  // A lone text is written as the element's value, which is the same to a reader.
  lemma ParagraphReread(nodes: seq<Xml>)
    requires AllNamed(nodes)
    ensures Reread(FormatParagraph(nodes).nodes) == Reread(FormatSpans(nodes))
  {
    if |nodes| == 1 && nodes[0].Text? {
      assert nodes[1..] == [] && FormatSpans(nodes) == [nodes[0]] + [];
      TextOfFlat(nodes[0].value);
      assert Reread([nodes[0]]) == Cons(nodes[0], Reread([]));
    }
  }

  // What formatting makes of contents: texts, and paragraphs of written spans.
  predicate ContentWritten(nodes: seq<Xml>) {
    forall n :: n in nodes ==> n.Text? || (IsParagraph(n) && AllWritten(n.nodes) && Separate(n.nodes))
  }

  // And what a reader finds in it.
  predicate ContentRead(nodes: seq<Xml>) {
    ContentWritten(nodes) && Steady(nodes)
  }

  lemma {:induction false} RereadContent(nodes: seq<Xml>)
    requires ContentsNamed(nodes)
    ensures ContentWritten(Reread(FormatNodes(nodes)))
  {
    if nodes != [] {
      RereadContent(nodes[1..]);
      assert nodes[0] in nodes;
      var rest := Reread(FormatNodes(nodes[1..]));
      if nodes[0].Text? {
        assert FormatNodes(nodes)[1..] == FormatNodes(nodes[1..]);
        assert Reread(FormatNodes(nodes)) == Cons(nodes[0], rest);
      } else if IsParagraph(nodes[0]) {
        var p := FormatParagraph(nodes[0].nodes);
        assert FormatNodes(nodes) == [p] + FormatNodes(nodes[1..]);
        assert FormatNodes(nodes)[1..] == FormatNodes(nodes[1..]);
        assert Reread(FormatNodes(nodes)) == [NodeReread(p)] + rest;
        ParagraphReread(nodes[0].nodes);
        FormattedIsWritten(nodes[0].nodes);
        RereadWritten(FormatSpans(nodes[0].nodes));
        RereadSeparate(FormatSpans(nodes[0].nodes));
      }
    }
  }

  lemma WrittenStripped(n: Xml)
    requires Written(n)
    ensures forall k :: k in NodeStripped(n) ==> Written(k)
  {
    if n.Element? {
      var text := InnerText(n.nodes);
      TextRead(text);
      TextOfFlat(Strip(text));
    }
  }

  lemma {:induction false} AllWrittenStripped(nodes: seq<Xml>)
    requires AllWritten(nodes)
    ensures AllWritten(Stripped(nodes))
  {
    if nodes != [] {
      assert nodes[0] in nodes;
      WrittenStripped(nodes[0]);
      AllWrittenStripped(nodes[1..]);
    }
  }

  lemma {:induction false} ContentStripped(nodes: seq<Xml>)
    requires ContentWritten(nodes)
    ensures ContentRead(Stripped(nodes))
  {
    StrippedSteady(nodes);
    if nodes != [] {
      ContentStripped(nodes[1..]);
      assert nodes[0] in nodes;
      if nodes[0].Element? {
        AllWrittenStripped(nodes[0].nodes);
        StrippedSeparate(nodes[0].nodes);
      }
    }
  }

  lemma {:induction false} ParsedParasCanonical(nodes: seq<Xml>)
    requires ContentRead(nodes)
    ensures ParasCanonical(ParseParagraphs(nodes)) && Steady(ParseParagraphs(nodes))
  {
    if nodes != [] {
      ParsedParasCanonical(nodes[1..]);
      if nodes[0].Element? {
        assert nodes[0] in nodes;
        ParsedIsCanonical(nodes[0].nodes);
        assert NodeSteady(nodes[0]);
        ParsedSteady(nodes[0].nodes);
        var p := Element("p", map[], Reread(ParseSpans(nodes[0].nodes)));
        Tail(p, ParseParagraphs(nodes[1..]));
        SteadyFirst(p, ParseParagraphs(nodes[1..]));
      }
    }
  }

  lemma {:induction false} ParsedSteady(nodes: seq<Xml>)
    requires AllWritten(nodes) && Steady(nodes) && Separate(nodes)
    ensures Steady(Reread(ParseSpans(nodes)))
    ensures nodes != [] && nodes[0].Element? ==> Reread(ParseSpans(nodes)) != [] && Reread(ParseSpans(nodes))[0].Element?
  {
    if nodes != [] {
      ParsedSteady(nodes[1..]);
      var rest := ParseSpans(nodes[1..]);
      assert Written(nodes[0]) && |ParseSpan(nodes[0])| == 1;
      var n := ParseSpan(nodes[0])[0];
      Tail(n, rest);
      assert Reread(ParseSpans(nodes)) == Cons(n, Reread(rest));
      if n.Element? {
        TextOfFlat(InnerText(nodes[0].nodes));
        FlatReread(n);
        assert n.nodes == nodes[0].nodes;
      }
      SteadyFirst(n, Reread(rest));
    }
  }

  lemma {:induction false} SteadySpans(nodes: seq<Xml>)
    requires SpansCanonical(nodes) && AllNamed(nodes) && Steady(nodes)
    ensures Stripped(FormatSpans(nodes)) == FormatSpans(nodes)
  {
    if nodes != [] {
      SteadySpans(nodes[1..]);
      SpanBack(nodes[0]);
      var f := FormatSpan(nodes[0])[0];
      assert FormatSpans(nodes) == [f] + FormatSpans(nodes[1..]);
      StrippedFirst(f, FormatSpans(nodes[1..]));
      SteadySpan(nodes[0]);
    }
  }

  lemma SteadySpan(n: Xml)
    requires SpanCanonical(n) && Named(n) && NodeSteady(n) && |FormatSpan(n)| == 1
    ensures NodeStripped(FormatSpan(n)[0]) == FormatSpan(n)
  {
    if n.Element? {
      var text := InnerText(n.nodes);
      TextRead(text);
      if text != "" {
        SteadyFirst(Text(text), []);
        PlusNothing([Text(text)]);
      }
    }
  }

  lemma {:induction false} CanonicalParasBack(nodes: seq<Xml>)
    requires ParasCanonical(nodes) && ContentsNamed(nodes) && Steady(nodes)
    ensures ParseParagraphs(ReadBack(FormatNodes(nodes))) == nodes
    ensures ReadBack(FormatNodes(nodes)) != [] ==> ReadBack(FormatNodes(nodes))[0].Element?
  {
    if nodes != [] {
      CanonicalParasBack(nodes[1..]);
      var n, p := nodes[0], FormatParagraph(nodes[0].nodes);
      assert n in nodes;
      ParagraphReread(n.nodes);
      CanonicalSpansBack(n.nodes);
      SteadySpans(n.nodes);
      assert FormatNodes(nodes) == [p] + FormatNodes(nodes[1..]);
      ReadFirst(p, FormatNodes(nodes[1..]));
      Tail(NodeRead(p), ReadBack(FormatNodes(nodes[1..])));
      HeadTail(nodes);
    }
  }

  // The contents that are read from written ones.
  function ContentsBack(c: Comment): Contents
    requires Writable(c)
  {
    ParseContent(ReadBack(FormatContent(c).nodes))
  }

  /**
   * Contents are restored exactly when they are canonical paragraphs in which no text has a line break
   * before a tag; a comment without contents comes back with one empty paragraph.
   */
  lemma ContentsRestoredIff(c: Comment)
    requires Writable(c)
    ensures c.contents.Some? ==>
              (ContentsBack(c) == c.contents.value <==> ParasCanonical(c.contents.value.nodes) && Steady(c.contents.value.nodes))
    ensures c.contents.None? ==> ContentsBack(c) == Nodes([Element("p", map[], [])])
  {
    if c.contents.Some? {
      var nodes := c.contents.value.nodes;
      RereadContent(nodes);
      ContentStripped(Reread(FormatNodes(nodes)));
      ParsedParasCanonical(ReadBack(FormatNodes(nodes)));
      if ParasCanonical(nodes) && Steady(nodes) {
        CanonicalParasBack(nodes);
      }
    } else {
      var p := Element("p", map[], []);
      ReadFirst(p, []);
      PlusNothing([p]);
      assert ReadBack([p]) == [p] && [p][1..] == [];
      assert ParseParagraphs([p]) == [p] + ParseParagraphs([]);
    }
  }

  // ----- whole threads

  // Without tags of its own, a comment gets those of the comment before it.
  function TagsAfter(before: Option<seq<string>>, tags: Option<seq<string>>): Option<seq<string>> {
    if tags.GetOr([]) == [] then before else tags
  }

  // Tags as they are read.
  function Strips(tags: seq<string>): (r: seq<string>)
    ensures |r| == |tags|
  {
    if tags == [] then [] else [Strip(tags[0])] + Strips(tags[1..])
  }

  function TagsRead(tags: Option<seq<string>>): Option<seq<string>> {
    if tags.None? then None else Some(Strips(tags.value))
  }

  /** The comments of a thread as they come back, when before is what the comment before them was read as. */
  function Restored(t: Thread, comments: seq<Comment>, before: Comment): seq<Comment>
    requires forall c :: c in comments ==> Writable(c)
  {
    if comments == [] then []
    else
      var c := comments[0];
      var back := c.(threadId := t.id, selection := t.selection, tags := TagsAfter(before.tags, TagsRead(c.tags)),
                     contents := Some(ContentsBack(c)));
      [back] + Restored(t, comments[1..], back)
  }

  lemma {:induction false} ReadsBack(n: nat)
    requires n < 0x8000_0000
    ensures ParseInt(Decimal(n)) == Some(n)
  {
    DecimalReadsBack(n);
    assert forall i :: 0 <= i < |Decimal(n)| ==> IsDigit(Decimal(n)[i]);
    assert TrimEnd(TrimStart(Decimal(n))) == Decimal(n);
  }

  lemma IntReadsBack(n: int)
    requires -0x8000_0000 <= n < 0x8000_0000
    ensures ParseInt(IntText(n)) == Some(n)
  {
    if n < 0 {
      DecimalReadsBack(-n);
      var s := "-" + Decimal(-n);
      assert Last(s) == Last(Decimal(-n));
      assert TrimEnd(TrimStart(s)) == s && s[1..] == Decimal(-n);
    } else {
      ReadsBack(n);
    }
  }

  lemma SelectionBack(s: Selection)
    requires -0x8000_0000 <= s.startPos < 0x8000_0000
    ensures SelectionOk(FormatSelection(s)) && ParseSelection(FormatSelection(s)) == s
  {
    IntReadsBack(s.startPos);
    SelectionAttrs(s);
  }

  lemma SelectionAttrs(s: Selection)
    ensures var a := FormatSelection(s).attrs;
            && Get(a, "verseRef") == Some(s.verseRef) && Get(a, "startPos") == Some(IntText(s.startPos))
            && Get(a, "selectedText") == Some(s.selectedText)
            && Get(a, "beforeContext").GetOr("") == s.before && Get(a, "afterContext").GetOr("") == s.after
  {
  }

  lemma OnlyContent(content: Xml)
    requires content.Element? && content.name == "content"
    ensures ElementsNamed(ReadBack([content]), "tagAdded") == [] && ElementsNamed(ReadBack([content]), "content") == [NodeRead(content)]
  {
    var read := NodeRead(content);
    ReadFirst(content, []);
    NamedFirst(read, [], "tagAdded");
    NamedFirst(read, [], "content");
    PlusNothing([content]);
    PlusNothing([read]);
  }

  lemma TagFirst(text: string, rest: seq<Xml>)
    ensures var read := ReadBack([TagElement(text)] + rest);
            && ElementsNamed(read, "tagAdded") == [TagElement(Strip(text))] + ElementsNamed(ReadBack(rest), "tagAdded")
            && ElementsNamed(read, "content") == ElementsNamed(ReadBack(rest), "content")
  {
    var tag := TagElement(Strip(text));
    TextRead(text);
    ReadFirst(TagElement(text), rest);
    NamedFirst(tag, ReadBack(rest), "tagAdded");
    NamedFirst(tag, ReadBack(rest), "content");
  }

  lemma {:induction false} TagsReread(tags: seq<string>, content: Xml)
    requires content.Element? && content.name == "content"
    ensures var nodes := ReadBack(TagElements(tags) + [content]);
            && ElementsNamed(nodes, "tagAdded") == TagElements(Strips(tags))
            && ElementsNamed(nodes, "content") == [NodeRead(content)]
  {
    if tags == [] {
      OnlyContent(content);
      PlusNothing([content]);
    } else {
      TagsReread(tags[1..], content);
      TagFirst(tags[0], TagElements(tags[1..]) + [content]);
      PlusAssoc([TagElement(tags[0])], TagElements(tags[1..]), [content]);
      Tail(Strip(tags[0]), Strips(tags[1..]));
    }
  }

  lemma {:induction false} TagTextsBack(tags: seq<string>)
    ensures TagTexts(TagElements(tags)) == tags
  {
    if tags != [] {
      TextOfFlat(tags[0]);
      TagTextsBack(tags[1..]);
      assert TagElements(tags)[1..] == TagElements(tags[1..]);
    }
  }

  lemma CommentBack(c: Comment, before: Comment)
    requires Writable(c)
    ensures ParseComment(NodeRead(FormatComment(c)), before)
         == c.(threadId := before.threadId, selection := before.selection, tags := TagsAfter(before.tags, TagsRead(c.tags)),
               contents := Some(ContentsBack(c)))
  {
    var n, tags, content := NodeRead(FormatComment(c)), c.tags.GetOr([]), FormatContent(c);
    CommentAttrsBack(c);
    TagsReread(tags, content);
    TagTextsBack(Strips(tags));
    CommentFields(n, before, TagElements(Strips(tags)), NodeRead(content));
    assert tags != [] ==> TagsAfter(before.tags, TagsRead(c.tags)) == Some(Strips(tags));
  }

  lemma CommentFields(n: Xml, before: Comment, tags: seq<Xml>, content: Xml)
    requires n.Element? && content.Element?
    requires ElementsNamed(n.nodes, "tagAdded") == tags && ElementsNamed(n.nodes, "content") == [content]
    ensures ParseComment(n, before)
         == Comment(before.threadId, before.selection, Get(n.attrs, "user"), Get(n.attrs, "date").GetOr(before.date),
                    Get(n.attrs, "extUser"), Get(n.attrs, "deleted") == Some("true"),
                    if tags == [] then before.tags else Some(TagTexts(tags)), Some(ParseContent(content.nodes)))
  {
  }

  lemma CommentAttrsBack(c: Comment)
    requires c.user.Some?
    ensures var a := CommentAttrs(c);
            && Get(a, "user") == c.user && Get(a, "date") == Some(c.date)
            && Get(a, "extUser") == c.externalUser && (Get(a, "deleted") == Some("true") <==> c.deleted)
  {
  }

  lemma {:induction false} CommentsBack(t: Thread, comments: seq<Comment>, before: Comment)
    requires (forall c :: c in comments ==> Writable(c)) && before.threadId == t.id && before.selection == t.selection
    ensures var read := ReadBack(FormatComments(comments));
            && ElementsNamed(read, "comment") == read && ElementsNamed(read, "selection") == []
            && ParseComments(read, before) == Restored(t, comments, before)
  {
    if comments != [] {
      var c, rest := comments[0], FormatComments(comments[1..]);
      CommentBack(c, before);
      var back := c.(threadId := t.id, selection := t.selection, tags := TagsAfter(before.tags, TagsRead(c.tags)),
                     contents := Some(ContentsBack(c)));
      CommentsBack(t, comments[1..], back);
      ReadFirst(FormatComment(c), rest);
      Tail(NodeRead(FormatComment(c)), ReadBack(rest));
    }
  }

  lemma ThreadElements(sel: Xml, comments: seq<Xml>)
    requires sel.Element? && sel.name == "selection" && sel.nodes == []
    requires ElementsNamed(ReadBack(comments), "comment") == ReadBack(comments) && ElementsNamed(ReadBack(comments), "selection") == []
    ensures var nodes := ReadBack([sel] + comments);
            ElementsNamed(nodes, "comment") == ReadBack(comments) && ElementsNamed(nodes, "selection") == [sel]
  {
    ReadFirst(sel, comments);
    assert NodeRead(sel) == sel;
    Tail(sel, ReadBack(comments));
  }

  /** A thread comes back with its id and selection, and every comment with its own data. */
  lemma ThreadBack(t: Thread, blank: Comment)
    requires ThreadWritable(t)
    ensures var n := NodeRead(FormatThread(t));
            ThreadOk(n) && ParseThread(n, blank) == Restored(t, t.comments, blank.(threadId := t.id, selection := t.selection))
  {
    var n, sel, comments := NodeRead(FormatThread(t)), FormatSelection(t.selection), FormatComments(t.comments);
    var begun := blank.(threadId := t.id, selection := t.selection);
    SelectionBack(t.selection);
    CommentsBack(t, t.comments, begun);
    ThreadElements(sel, comments);
    assert n.nodes == ReadBack([sel] + comments) && Get(n.attrs, "id") == Some(t.id);
    assert Begun(n, blank) == begun;
  }

  function AllRestored(threads: seq<Thread>, blank: Comment): seq<seq<Comment>>
    requires forall t :: t in threads ==> ThreadWritable(t)
  {
    if threads == [] then []
    else
      var t := threads[0];
      assert t in threads && ThreadWritable(t);
      (if t.comments == [] then [] else [Restored(t, t.comments, blank.(threadId := t.id, selection := t.selection))])
      + AllRestored(threads[1..], blank)
  }

  lemma FirstThreadBack(n: Xml, rest: seq<Xml>, blank: Comment)
    requires n.Element? && n.name == "thread" && ThreadOk(NodeRead(n)) && NotesOk(ReadBack(rest))
    ensures NotesOk(ReadBack([n] + rest))
    ensures ParseNotes(ReadBack([n] + rest), blank) == [ParseThread(NodeRead(n), blank)] + ParseNotes(ReadBack(rest), blank)
  {
    ReadFirst(n, rest);
    Tail(NodeRead(n), ReadBack(rest));
  }

  lemma {:induction false} ThreadsBack(threads: seq<Thread>, blank: Comment)
    requires forall t :: t in threads ==> ThreadWritable(t)
    ensures NotesOk(ReadBack(FormatThreads(threads)))
    ensures ParseNotes(ReadBack(FormatThreads(threads)), blank) == AllRestored(threads, blank)
  {
    if threads != [] {
      var t, rest := threads[0], FormatThreads(threads[1..]);
      assert t in threads;
      ThreadsBack(threads[1..], blank);
      if t.comments != [] {
        ThreadBack(t, blank);
        FirstThreadBack(FormatThread(t), rest, blank);
      } else {
        PlusNothing(AllRestored(threads[1..], blank));
      }
    }
  }

  /**
   * The round trip of notes, however the written form is indented: one list of comments for every thread that
   * has any, in order.
   */
  lemma NotesBack(threads: seq<Thread>, written: seq<Xml>, blank: Comment)
    requires forall t :: t in threads ==> ThreadWritable(t)
    requires Indents(FormatThreads(threads), written)
    ensures NotesOk(ReadBack(written))
    ensures ParseNotes(ReadBack(written), blank) == AllRestored(threads, blank)
  {
    IndentNotRead(FormatThreads(threads), written);
    ThreadsBack(threads, blank);
  }

  // A comment that carries its thread's id and selection, canonical contents, and tags that are its own
  // or those of the comment before it; and no text of its has a line break before a tag.
  predicate Kept(t: Thread, c: Comment, before: Option<seq<string>>) {
    && c.threadId == t.id && c.selection == t.selection
    && (c.tags.GetOr([]) == [] ==> c.tags == before) && TagsRead(c.tags) == c.tags
    && c.contents.Some? && c.contents.value.Nodes?
    && ParasCanonical(c.contents.value.nodes) && Steady(c.contents.value.nodes)
  }

  predicate AllKept(t: Thread, comments: seq<Comment>, before: Option<seq<string>>) {
    comments == [] || (Kept(t, comments[0], before) && AllKept(t, comments[1..], comments[0].tags))
  }

  /** The parser inverts the formatter on exactly the threads whose comments all meet that. */
  lemma {:induction false} RestoredIff(t: Thread, comments: seq<Comment>, before: Comment)
    requires forall c :: c in comments ==> Writable(c)
    ensures |Restored(t, comments, before)| == |comments|
    ensures Restored(t, comments, before) == comments <==> AllKept(t, comments, before.tags)
  {
    if comments != [] {
      var c, back := comments[0], Restored(t, comments, before)[0];
      assert c in comments;
      ContentsRestoredIff(c);
      RestoredIff(t, comments[1..], back);
      assert Restored(t, comments, before)[1..] == Restored(t, comments[1..], back);
      assert comments == [c] + comments[1..];
    }
  }
}
