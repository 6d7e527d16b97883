/** FormatNotes and ParseNotes: elements are built by adding to them in loops, and comments are filled in place. */
module NotesFormatter {
  import opened Text
  import opened XmlText
  import opened NotesXml

  // ----- formatting

  method BuildParagraph(nodes: seq<Xml>) returns (paraElem: Xml)
    requires AllNamed(nodes)
    ensures paraElem == FormatParagraph(nodes)
  {
    var added: seq<Xml> := [];
    if |nodes| == 1 && nodes[0].Text? {
      added := TextOf(nodes[0].value);
    } else {
      for i := 0 to |nodes|
        invariant added + FormatSpans(nodes[i..]) == FormatSpans(nodes)
      {
        var node := nodes[i];
        assert node in nodes && nodes[i..][1..] == nodes[i + 1..];
        PlusAssoc(added, FormatSpan(node), FormatSpans(nodes[i + 1..]));
        if node.Text? {
          added := added + [node];
        } else if node.name == "bold" || node.name == "italic" {
          added := added + [Element("span", map["style" := node.name], TextOf(InnerText(node.nodes)))];
        } else if node.name == "language" {
          added := added + [Element("lang", map["name" := node.attrs["name"]], TextOf(InnerText(node.nodes)))];
        } else {
          assert added + [] == added;
        }
      }
      assert nodes[|nodes|..] == [] && added + [] == added;
    }
    paraElem := Element("p", map[], added);
  }

  method BuildContent(c: Comment) returns (contentElem: Xml)
    requires Writable(c)
    ensures contentElem == FormatContent(c)
  {
    var added: seq<Xml> := [];
    if c.contents.None? {
      added := [Element("p", map[], [])];
    } else {
      var nodes := c.contents.value.nodes;
      for i := 0 to |nodes|
        invariant added + FormatNodes(nodes[i..]) == FormatNodes(nodes)
      {
        var node := nodes[i];
        assert node in nodes && nodes[i..][1..] == nodes[i + 1..];
        if IsParagraph(node) {
          var paraElem := BuildParagraph(node.nodes);
          PlusAssoc(added, [paraElem], FormatNodes(nodes[i + 1..]));
          added := added + [paraElem];
        } else if node.Text? {
          PlusAssoc(added, [node], FormatNodes(nodes[i + 1..]));
          added := added + [node];
        }
      }
      assert nodes[|nodes|..] == [] && added + [] == added;
    }
    contentElem := Element("content", map[], added);
  }

  method BuildComment(c: Comment) returns (commentElem: Xml)
    requires Writable(c)
    ensures commentElem == FormatComment(c)
  {
    var attrs := map["user" := c.user.value, "date" := c.date];
    if c.externalUser.Some? {
      attrs := attrs["extUser" := c.externalUser.value];
    }
    if c.deleted {
      attrs := attrs["deleted" := "true"];
    }
    assert attrs == CommentAttrs(c);
    var added: seq<Xml> := [];
    if c.tags.Some? {
      var tags := c.tags.value;
      for i := 0 to |tags|
        invariant added + TagElements(tags[i..]) == TagElements(tags)
      {
        assert tags[i..][1..] == tags[i + 1..];
        PlusAssoc(added, [Element("tagAdded", map[], TextOf(tags[i]))], TagElements(tags[i + 1..]));
        added := added + [Element("tagAdded", map[], TextOf(tags[i]))];
      }
      assert tags[|tags|..] == [] && added + [] == added;
    }
    var contentElem := BuildContent(c);
    commentElem := Element("comment", attrs, added + [contentElem]);
  }

  method BuildSelection(s: Selection) returns (selElem: Xml)
    ensures selElem == FormatSelection(s)
  {
    var attrs := map["verseRef" := s.verseRef, "startPos" := IntText(s.startPos), "selectedText" := s.selectedText];
    if |s.before| > 0 {
      attrs := attrs["beforeContext" := s.before];
    }
    if |s.after| > 0 {
      attrs := attrs["afterContext" := s.after];
    }
    assert attrs == FormatSelection(s).attrs;
    selElem := Element("selection", attrs, []);
  }

  method BuildThread(t: Thread) returns (threadElem: Xml)
    requires ThreadWritable(t)
    ensures threadElem == FormatThread(t)
  {
    var attrs := map["id" := t.id];
    if t.isConflict {
      attrs := attrs["type" := "conflict"];
    }
    assert attrs == FormatThread(t).attrs;
    var selElem := BuildSelection(t.selection);
    var added: seq<Xml> := [];
    for i := 0 to |t.comments|
      invariant added + FormatComments(t.comments[i..]) == FormatComments(t.comments)
    {
      assert t.comments[i] in t.comments && t.comments[i..][1..] == t.comments[i + 1..];
      var commentElem := BuildComment(t.comments[i]);
      PlusAssoc(added, [commentElem], FormatComments(t.comments[i + 1..]));
      added := added + [commentElem];
    }
    assert t.comments[|t.comments|..] == [] && added + [] == added;
    threadElem := Element("thread", attrs, [selElem] + added);
  }

  /** The children of the notes element. */
  method BuildNotes(threads: seq<Thread>) returns (added: seq<Xml>)
    requires forall t :: t in threads ==> ThreadWritable(t)
    ensures added == FormatThreads(threads)
  {
    added := [];
    for i := 0 to |threads|
      invariant added + FormatThreads(threads[i..]) == FormatThreads(threads)
    {
      assert threads[i] in threads && threads[i..][1..] == threads[i + 1..];
      if |threads[i].comments| > 0 {
        var threadElem := BuildThread(threads[i]);
        PlusAssoc(added, [threadElem], FormatThreads(threads[i + 1..]));
        added := added + [threadElem];
      }
    }
    assert threads[|threads|..] == [] && added + [] == added;
  }

  // ----- parsing

  method ReadParagraph(paraElem: Xml) returns (p: Xml)
    requires paraElem.Element?
    ensures p == Element("p", map[], Reread(ParseSpans(paraElem.nodes)))
  {
    var nodes := paraElem.nodes;
    var added: seq<Xml> := [];
    for i := 0 to |nodes|
      invariant added + ParseSpans(nodes[i..]) == ParseSpans(nodes)
    {
      var node := nodes[i];
      assert nodes[i..][1..] == nodes[i + 1..];
      PlusAssoc(added, ParseSpan(node), ParseSpans(nodes[i + 1..]));
      if node.Text? {
        added := added + [node];
      } else if node.name == "span" {
        var style := Get(node.attrs, "style").GetOr("");
        if style != "bold" && style != "italic" {
          style := "span";
        }
        added := added + [Element(style, map[], TextOf(InnerText(node.nodes)))];
      } else if node.name == "lang" {
        added := added + [Element("language", map["name" := Get(node.attrs, "name").GetOr("en")], TextOf(InnerText(node.nodes)))];
      } else {
        assert added + [] == added;
      }
    }
    assert nodes[|nodes|..] == [] && added + [] == added;
    p := Element("p", map[], Reread(added));
  }

  method ReadContent(contentElem: Xml) returns (contents: Contents)
    requires contentElem.Element?
    ensures contents == ParseContent(contentElem.nodes)
  {
    var nodes := contentElem.nodes;
    if |nodes| > 0 && nodes[0].Text? {
      return Markup(nodes[0].value);
    }
    var added: seq<Xml> := [];
    for i := 0 to |nodes|
      invariant added + ParseParagraphs(nodes[i..]) == ParseParagraphs(nodes)
    {
      assert nodes[i..][1..] == nodes[i + 1..];
      if IsParagraph(nodes[i]) {
        var p := ReadParagraph(nodes[i]);
        PlusAssoc(added, [p], ParseParagraphs(nodes[i + 1..]));
        added := added + [p];
      }
    }
    assert nodes[|nodes|..] == [] && added + [] == added;
    contents := Nodes(added);
  }

  class NoteComment {
    var threadId: string
    var selection: Selection
    var user: Option<string>
    var date: string
    var externalUser: Option<string>
    var deleted: bool
    var tagsAdded: Option<seq<string>>
    var contents: Option<Contents>

    ghost function Value(): Comment
      reads this
    {
      Comment(threadId, selection, user, date, externalUser, deleted, tagsAdded, contents)
    }

    /** A comment with the same data: what new comments start with, or a clone. */
    constructor (c: Comment)
      ensures Value() == c
    {
      threadId, selection, user, date := c.threadId, c.selection, c.user, c.date;
      externalUser, deleted, tagsAdded, contents := c.externalUser, c.deleted, c.tags, c.contents;
    }

    function Data(): Comment
      reads this
      ensures Data() == Value()
    {
      Comment(threadId, selection, user, date, externalUser, deleted, tagsAdded, contents)
    }

    method Begin(threadElem: Xml)
      requires ThreadOk(threadElem)
      modifies this
      ensures Value() == Begun(threadElem, old(Value()))
    {
      if "id" in threadElem.attrs {
        threadId := threadElem.attrs["id"];
      }
      var selections := ElementsNamed(threadElem.nodes, "selection");
      if |selections| > 0 {
        var selElem := selections[0];
        assert SelectionOk(selElem);
        selection := Selection(Get(selElem.attrs, "verseRef").GetOr(""),
                               ParseInt(Get(selElem.attrs, "startPos").GetOr("0")).value,
                               Get(selElem.attrs, "selectedText").GetOr(""),
                               Get(selElem.attrs, "beforeContext").GetOr(""), Get(selElem.attrs, "afterContext").GetOr(""));
      }
    }

    method Read(commentElem: Xml)
      requires commentElem.Element?
      modifies this
      ensures Value() == ParseComment(commentElem, old(Value()))
    {
      user := Get(commentElem.attrs, "user");
      if "date" in commentElem.attrs {
        date := commentElem.attrs["date"];
      }
      externalUser := Get(commentElem.attrs, "extUser");
      deleted := Get(commentElem.attrs, "deleted") == Some("true");
      var tags := ElementsNamed(commentElem.nodes, "tagAdded");
      if |tags| > 0 {
        tagsAdded := Some(TagTexts(tags));
      }
      var content := ElementsNamed(commentElem.nodes, "content");
      if |content| == 0 {
        contents := Some(Nodes([]));
      } else {
        var read := ReadContent(content[0]);
        contents := Some(read);
      }
    }
  }

  /** The comments of a thread; each but the first is a clone of the one before it that is filled again. */
  method ReadThread(threadElem: Xml, blank: Comment) returns (result: seq<NoteComment>)
    requires ThreadOk(threadElem)
    ensures fresh(result) && |result| == |ParseThread(threadElem, blank)| && AreValues(result, ParseThread(threadElem, blank))
  {
    var elements := ElementsNamed(threadElem.nodes, "comment");
    ghost var all := ParseThread(threadElem, blank);
    result := [];
    for k := 0 to |elements|
      invariant fresh(result) && |result| == k <= |all| && AreValues(result, all)
    {
      CommentAt(elements, Begun(threadElem, blank), k);
      var comment := AddComment(threadElem, elements[k], blank, result);
      OneMoreValue(result, comment, all);
      result := result + [comment];
    }
  }

  // The comments have the first of these values.
  ghost predicate AreValues(comments: seq<NoteComment>, values: seq<Comment>)
    reads comments
    requires |comments| <= |values|
  {
    forall i :: 0 <= i < |comments| ==> comments[i].Value() == values[i]
  }

  lemma OneMoreValue(comments: seq<NoteComment>, comment: NoteComment, values: seq<Comment>)
    requires |comments| < |values| && AreValues(comments, values) && comment.Value() == values[|comments|]
    ensures AreValues(comments + [comment], values)
  {
  }

  method AddComment(threadElem: Xml, commentElem: Xml, blank: Comment, result: seq<NoteComment>) returns (comment: NoteComment)
    requires ThreadOk(threadElem) && commentElem.Element?
    ensures fresh(comment)
    ensures comment.Value() == ParseComment(commentElem, if result == [] then Begun(threadElem, blank) else Last(result).Value())
  {
    if |result| == 0 {
      comment := FirstComment(threadElem, commentElem, blank);
    } else {
      comment := NextComment(result[|result| - 1], commentElem);
    }
  }

  method FirstComment(threadElem: Xml, commentElem: Xml, blank: Comment) returns (comment: NoteComment)
    requires ThreadOk(threadElem) && commentElem.Element?
    ensures fresh(comment) && comment.Value() == ParseComment(commentElem, Begun(threadElem, blank))
  {
    comment := new NoteComment(blank);
    comment.Begin(threadElem);
    comment.Read(commentElem);
  }

  method NextComment(previous: NoteComment, commentElem: Xml) returns (comment: NoteComment)
    requires commentElem.Element?
    ensures fresh(comment) && comment.Value() == ParseComment(commentElem, previous.Value())
  {
    comment := new NoteComment(previous.Data());
    comment.Read(commentElem);
  }
}
