# Scripture Forge: what its converters and protocols promise

Scripture Forge keeps Paratext projects in its own database and synchronizes them. This project models the
parts of it that convert documents and the parts that must survive failures and interleavings, and proves
what they promise. Every core file has its own modules; operations that change state in place are methods
on classes, proved against specification functions, and the properties are lemmas about those functions.

- **USX and Deltas** (`Usx`, `RichText`, `DeltaParser`, `DeltaBuilder`, `DeltaMerge` are the specification;
  `DeltaUsxMapper`, `DeltaRebuilder`, `UsxSplicer` the code in place; `NormalForm`, `CharMarks`,
  `InlineRoundTrip`, `BookDomain`, `TableRoundTrip`, `BookRoundTrip`, `WholeBook`, `BookText`, `DeltaIds`,
  `WalkIds`, `PutGet`, `StackDiscipline`, `ParserDiscipline`, `SegmentRefs` the proofs). A book in USX is parsed into one rich text Delta per
  chapter; edited Deltas are spliced back. The two laws are get-put (`WholeBook.GetPut`) and put-get
  (`PutGet.PutGet`).
- **USX and USJ** (`UsjConverters`): which trees survive the two tree converters, in both directions.
- **The job mutex** (`JobMutex`): a protocol over Hangfire's state changes.
- **Sharing with the send/receive server** (`SharedRepository`): Mercurial phases over a commit graph.
- **Notes for Paratext** (`NotesChangelist`, `XmlText`, `NotesXml`, `NotesFormatter`): the changelist, and the XML
  formatter and parser.
- **Schema migrations** (`SchemaMigration`), **complete comment threads** (`CompleteThreads`), **the user edit
  report** (`UserEditReport`), **polling for finished builds** (`BuildPolling`).

## How the laws are stated

*Normal form.* A trip through a Delta drops empty text, joins neighbouring texts and neighbouring equal refs,
keeps only the text of a ref, and drops formatting around nothing. `NormalForm.Norm` and `BookDomain.BookNorm` say
what comes back; a document is *canonical* when nothing of this applies to it. The round trip holds on canonical
documents and on no others, and that is stated as an equivalence.

*Domain.* `BookDomain.ItemsOk`: children of the usx element are book, para, chapter and table elements, and implied
paragraphs (inline content directly below usx) that do not come after a table and are followed by a paragraph or
the end of the chapter; chapter numbers are integers, in any order; attributes named `id` and `invalid`, and `cid` on chars,
do not occur; texts hold no newline; verses do not stand inside chars. Schema validity is an input, one verdict
for each child of the usx element, and may be anything: chapters whose Delta is invalid stay as they are.

*Generated names.* Ids come from one stream of distinct strings (`newGuid`). `DeltaIds.SameUpToIds` says that two
Deltas come from one by moving its char ids, table, row and cell names consistently.

## What the proofs found

Each of these was found false of the code: a lemma gives a concrete input or run, and another says exactly when the
code does meet it.

- Splicing succeeds: `DeltaMerge.MissingChapterFails`; by `MergeSucceedsIff` it runs past the end of the Deltas exactly
  when the last one is for a chapter that the old book lacks and that goes before one it has.
- A newline is always read: `StackDiscipline.FormattedNewlineFails`; by `FormattedNewlineIff` a formatted newline
  without table attributes is read exactly if no table is open.
- References are distinct: `SegmentRefs.SlashRepeatsReference`; by `ReferencesDistinct` two are equal exactly if one
  paragraph's own style is the base and style of the other and their numbers are equal.
- A trip keeps the text of a book: `BookText.SpaceLost`; by `TripKeepsText` exactly if the chapters with valid Deltas have
  none inside verses and chapter marks or between rows and cells. The schema allows only white space there (usx-sf.xsd,
  lines 355-383, 630 and 677), which the loader keeps within a line (ParatextSyncRunner.cs, lines 1117-1125).
- At most one job of a resource is in state Processing: `JobMutex.TwoProcessing`; by `MutualExclusion` and
  `OwnsIffNoWayOut` a job in that state owns the mutex exactly if no way out was applied since it entered, and by
  `SettledIff` only jobs on their way out are without it exactly if no change out of Processing fails.
- The mutex is given back: `JobMutex.AbandonedMutex` and `AbandonedForGood` (a job that got the mutex but never reached
  Processing, and is then deleted, keeps it); by `AbandonedIff` this happens exactly if a change to Processing fails.
- What is marked public is on the server: `SharedRepository.PullLosesCommit`. The code relies on a pull with a bundle
  leaving a server changeset at the tip, and marks the tip without looking
  (JwtInternetSharedRepositorySource.cs, lines 94-100); by `PhaseSafety` this is exactly what is needed.
- A document goes through a migration once: `SchemaMigration.FailureRepeatsFirstPage`; by `TimesThrough` and `RepeatedIff`,
  over every run, it is repeated exactly by the failed attempts that took the document through it.
- The cursor of a handled build is stored: `BuildPolling.FailedInsertRepeatsAll`; by `NeverLostIff` and `LostStep` exactly
  if no insertion of the site's document failed since the last restart.

## Assumptions

- Mutex: state changes of one job are serialized by Hangfire, and a job does not go from Processing to Processing.
- Phases: Mercurial and the server keep histories ancestor-closed and changesets new (`SharedRepository.Possible`).
- Report: the query selects operations with edits, so none has version 0 (report-user-edits.ts, line 455);
  `UserEditReport.RangesAreVersions` says what this is needed for.
- Notes: the keys of different notes differ, and those of different old comments of answers; user, external user and date hold no `|` that would make them equal.
- Polling: the build server lists finished builds in a fixed order; updating a document that does not exist does nothing.

## Model

| member | source | states |
|---|---|---|
| WholeBook.GetPut | tools/Roundtrip/Program.cs:192-220 | Splicing a book's own chapter Deltas back into it gives every chapter with a valid Delta in normal form and leaves the others alone, and the result is the old book if and only if every chapter with a valid Delta is canonical, or the only Delta has no operations. |
| PutGet.PutGet | src/SIL.XForge.Scripture/Services/DeltaUsxMapper.cs:577-697 | After Deltas of other books' chapters are spliced into a book, the result can be parsed; its chapters are exactly the expected ones, in order (a valid Delta's own chapter, otherwise the old one; all old ones for a single Delta without operations), and each has its own number and the Delta that was put in, or the old one, up to generated names. |
| WholeBook.DeltasDeliver | src/SIL.XForge.Scripture/Services/DeltaUsxMapper.cs:204-318 | The Deltas of any book are one per chapter, in order; each has the number in its chapter's mark (1 without a mark), rebuilds to its chapter in normal form if the chapter is in the domain, is the chapter's own Delta up to generated names, and has a book operation if the chapter has a book element. |
| WholeBook.RestDelivers | src/SIL.XForge.Scripture/Services/DeltaUsxMapper.cs:273-291 | The same as an invariant of the loop over the book: whatever has been walked of the current chapter, the walk over the rest adds the Deltas of that chapter and the later ones, and nothing else. |
| WholeBook.OwnMerge | src/SIL.XForge.Scripture/Services/DeltaUsxMapper.cs:611-678 | Merging a book's own Deltas, chapter by chapter, puts back the normal form of the valid chapters and the old nodes of the invalid ones. |
| WholeBook.BackNoLonger | tools/Roundtrip/Program.cs:293-294 | What comes back of a book has at most as many children of the usx element, and it is the same exactly when the chapters with valid Deltas are canonical. |
| BookText.BackKeepsText | tools/Roundtrip/Program.cs:293-294 | What comes back of a book has the text of the book, in reading order, exactly when no chapter with a valid Delta has text inside a verse or a chapter mark or between the rows or cells of a table; the schema allows white space there and nothing else. |
| BookText.TripKeepsText | tools/Roundtrip/Program.cs:192-220 | Splicing a book's own Deltas back into it keeps its text exactly under that condition (or if the only Delta has no operations). |
| BookText.SpaceLost | src/SIL.XForge.Scripture/Services/DeltaUsxMapper.cs:393-422 | For instance, parsing and splicing a book element and a table with text between its rows gives both back without that text if both are schema-valid, and unchanged if not; where the schema is enforced that text can only be white space. |
| BookText.BookNormKeepsText | src/SIL.XForge.Scripture/Services/DeltaUsxMapper.cs:204-318 | The same for the normal form of one chapter, which never has more text. |
| BookDomain.BookNormalIff | src/SIL.XForge.Scripture/Services/DeltaUsxMapper.cs:204-318 | A stretch of book is its own normal form if and only if every paragraph, table, implied paragraph and chapter mark in it is canonical. |
| BookDomain.RowsNormalIff | src/SIL.XForge.Scripture/Services/DeltaUsxMapper.cs:393-422 | The rows of a table are their own normal form if and only if they are all rows of style "tr", not empty, with canonical cells. |
| BookDomain.UngroupedGrouped | src/SIL.XForge.Scripture/Services/DeltaUsxMapper.cs:225-314 | Gathering neighbouring inline nodes below the usx element into implied paragraphs loses and reorders nothing. |
| NormalForm.NormalIffCanonical | src/SIL.XForge.Scripture/Services/DeltaUsxMapper.cs:335-442 | Content is its own normal form if and only if it is canonical: no empty or neighbouring texts, no neighbouring equal refs, refs of one text, empty verse markers, canonical content inside every other element. |
| NormalForm.NormIsCanonical | src/SIL.XForge.Scripture/Services/DeltaUsxMapper.cs:335-442 | Whatever the content, its normal form is canonical. |
| NormalForm.NormKeepsText | src/SIL.XForge.Scripture/Services/DeltaUsxMapper.cs:335-442 | Bringing inline content into normal form keeps its text, in reading order, exactly if there is none inside a verse. |
| CharMarks.WalkMarksChars | src/SIL.XForge.Scripture/Services/DeltaUsxMapper.cs:365-391 | Walking content generates one id for each char element, and apart from that is walking the content with these ids already in it. |
| CharMarks.MarkedWalkTakesNoIds | src/SIL.XForge.Scripture/Services/DeltaUsxMapper.cs:369-370 | Content whose char elements have ids uses up none, however many were generated before. |
| CharMarks.MarkedSeparated | src/SIL.XForge.Scripture/Services/DeltaUsxMapper.cs:369-370 | Generated ids keep any two char siblings apart, at every depth, even if they have the same style. |
| CharMarks.WalkOfNorm | src/SIL.XForge.Scripture/Services/DeltaUsxMapper.cs:335-442 | Content and its normal form produce the same Delta. |
| InlineRoundTrip.ForestRebuilt | src/SIL.XForge.Scripture/Services/DeltaUsxMapper.cs:733-760 | For every forest of texts, refs, embeds, verses and nested chars with distinct ids, at any nesting depth and after any operations it stays apart from: the walk only appends operations, and the machine that reads them by prefix match and stack appends exactly that forest to the list at that depth. |
| InlineRoundTrip.CharFilled | src/SIL.XForge.Scripture/Services/DeltaUsxMapper.cs:387-390 | What is inside a char element is collected one level deeper; an empty char only opens that level, by its empty marker. |
| InlineRoundTrip.CharClosed | src/SIL.XForge.Scripture/Services/DeltaUsxMapper.cs:972-984 | Content collected at a deeper level becomes a char element with its attributes, without the generated id, in the list around it. |
| InlineRoundTrip.SettledDeeper | src/SIL.XForge.Scripture/Services/DeltaUsxMapper.cs:757-759 | Formatting that is not open yet starts with an empty list on top of the lists of its parent. |
| InlineRoundTrip.SettledShallower | src/SIL.XForge.Scripture/Services/DeltaUsxMapper.cs:753-754 | Leaving formatting that is open wraps what was collected in a char element and adds it to the parent's list. |
| InlineRoundTrip.InlineRebuilt | src/SIL.XForge.Scripture/Services/DeltaUsxMapper.cs:323-442 | Inline content of any kind, walked and rebuilt after any blocks, adds its normal form to the open list and nothing else. |
| InlineRoundTrip.ContentsRoundTrip | src/SIL.XForge.Scripture/Services/DeltaUsxMapper.cs:466-487 | The nested document of a note or another embed rebuilds to the normal form of its content, and to the content itself if and only if it is canonical. |
| TableRoundTrip.TableRebuilt | src/SIL.XForge.Scripture/Services/DeltaUsxMapper.cs:393-422 | A table, walked and rebuilt after any blocks and other tables, adds itself to the output with its rows and cells in normal form (rows without cells and tables without rows vanish), and leaves nothing waiting. |
| TableRoundTrip.CellsRebuilt | src/SIL.XForge.Scripture/Services/DeltaUsxMapper.cs:402-418 | The cells of a row, in order, are all gathered in the row being built, whatever rows and tables were open before. |
| TableRoundTrip.SwitchedForCell | src/SIL.XForge.Scripture/Services/DeltaUsxMapper.cs:791-800 | Before a cell is added, the machine has ended the open row if the cell is of another row, and the open table if it is of another table, and has room for the cell. |
| TableRoundTrip.RowIdInjective | src/SIL.XForge.Scripture/Services/DeltaUsxMapper.cs:400-400 | Row names tell tables and rows apart: the numbers can be read back from the name. |
| BookRoundTrip.ParaBodyRebuilt | src/SIL.XForge.Scripture/Services/DeltaUsxMapper.cs:834-839 | A paragraph or book element, with its content in normal form and its attributes, follows the output so far; a table that was open is ended first. |
| BookRoundTrip.ImpliedEndRead | src/SIL.XForge.Scripture/Services/DeltaUsxMapper.cs:810-823 | The newline that ends an implied paragraph, alone or joined to its last text, moves what was collected to the output. |
| BookRoundTrip.ImpliedWalked | src/SIL.XForge.Scripture/Services/DeltaUsxMapper.cs:295-312 | A run of inline nodes below the usx element is walked like the content of a paragraph, and leaves an implied paragraph open if it has text, a verse or a note. |
| BookRoundTrip.ItemsRebuilt | src/SIL.XForge.Scripture/Services/DeltaUsxMapper.cs:731-907 | By induction over the blocks of a stretch of book with at most one chapter mark: what the parser leaves in the Delta rebuilds to the output so far followed by the stretch in normal form. |
| DeltaIds.MovedIsInjective | src/SIL.XForge.Scripture/Services/DeltaUsxMapper.cs:369-400 | Moving the names of a numbered family keeps different strings different. |
| DeltaIds.CellRefInjective | src/SIL.XForge.Scripture/Services/DeltaUsxMapper.cs:404-404 | The three numbers of a cell reference can be read back from it. |
| DeltaIds.RenamedInserted | src/SIL.XForge/Realtime/RichText/Delta.cs:270-305 | Inserting into a Delta commutes with moving its generated names: operations join exactly when the renamed ones do. |
| WalkIds.WalkAlike | src/SIL.XForge.Scripture/Services/DeltaUsxMapper.cs:323-442 | A walk with more ids and tables behind it produces the same Delta with the names moved. |
| WalkIds.RowsAlike | src/SIL.XForge.Scripture/Services/DeltaUsxMapper.cs:394-422 | The same for tables, whose numbers run on through the book. |
| WalkIds.ParagraphRefNotCell | src/SIL.XForge.Scripture/Services/DeltaUsxMapper.cs:246-265 | A paragraph's reference is never taken for that of a cell, if its style does not begin like one. |
| WalkIds.StretchIsChapter | src/SIL.XForge.Scripture/Services/DeltaUsxMapper.cs:273-291 | Wherever in a book a chapter stands and whatever the schema validator says, its Delta is the one it has on its own, up to generated names. |
| PutGet.SegmentsOfChapters | src/SIL.XForge.Scripture/Services/DeltaUsxMapper.cs:611-671 | Chapters that are put together are found again: one for each chapter mark but the first, which begins with the book. |
| PutGet.MergeIsExpected | src/SIL.XForge.Scripture/Services/DeltaUsxMapper.cs:611-678 | Whenever the merge succeeds, it gives the expected chapters: the Deltas' own, the old ones without a valid Delta, and those for missing numbers in their places. |
| PutGet.PartsWalk | src/SIL.XForge.Scripture/Services/DeltaUsxMapper.cs:239-271 | A book that consists of chapters each of which can be parsed alone can be parsed: no paragraph is left without something to build its reference from. |
| PutGet.PartsParsed | src/SIL.XForge.Scripture/Services/DeltaUsxMapper.cs:204-318 | Its Deltas are those of the chapters, up to generated names, with the chapters' numbers. |
| DeltaMerge.PassIsSplice | src/SIL.XForge.Scripture/Services/DeltaUsxMapper.cs:582-697 | The pass over the children, with its two cursors and its removals and insertions, computes the recursive chapter-wise merge, for every old book and every list of Deltas, including its failures. |
| DeltaMerge.PassedMerged | src/SIL.XForge.Scripture/Services/DeltaUsxMapper.cs:611-678 | The invariant of the pass: from any child on, it merges the rest of the current chapter and the later chapters with the Deltas that are left. |
| DeltaMerge.SegmentsOf | src/SIL.XForge.Scripture/Services/DeltaUsxMapper.cs:611-652 | The chapters of a book, put together, are the book. |
| DeltaMerge.MergeSucceedsIff | src/SIL.XForge.Scripture/Services/DeltaUsxMapper.cs:631-639 | With ascending numbers on both sides and Deltas that rebuild, the merge fails (past the end of the Deltas) if and only if the last Delta is for a chapter that is missing and goes before an old one. |
| DeltaMerge.MissingChapterFails | src/SIL.XForge.Scripture/Services/DeltaUsxMapper.cs:631-639 | For instance, Deltas for chapters 1 and 3 cannot be spliced into a book with chapters 1 and 5. |
| DeltaMerge.InvalidChangesNothing | src/SIL.XForge.Scripture/Services/DeltaUsxMapper.cs:620-637 | Deltas that are all invalid leave the book as it is, or fail for lack of a Delta. |
| RichText.Delta.Insert | src/SIL.XForge/Realtime/RichText/Delta.cs:40-59 | The new operations are the old ones with the insert appended; empty text is dropped and text with equal attributes joins the last operation. |
| RichText.InsertedSplit | src/SIL.XForge/Realtime/RichText/Delta.cs:295-305 | Inserting two texts with the same attributes one after the other is inserting them joined. |
| DeltaUsxMapper.Mapper.ToChapterDeltas | src/SIL.XForge.Scripture/Services/DeltaUsxMapper.cs:204-318 | The loop returns exactly the chapter Deltas of the specification that the laws are about; it fails where the code fails on a paragraph without a style. |
| DeltaUsxMapper.Mapper.ProcessChildNode | src/SIL.XForge.Scripture/Services/DeltaUsxMapper.cs:335-442 | The new Delta and parse state are those of the specified walk over the node. |
| DeltaUsxMapper.Mapper.ProcessTable | src/SIL.XForge.Scripture/Services/DeltaUsxMapper.cs:393-422 | The same for a table: numbering of rows, and the segment reference after it. |
| DeltaUsxMapper.Mapper.ProcessCell | src/SIL.XForge.Scripture/Services/DeltaUsxMapper.cs:404-417 | The same for one cell and the newline that ends it. |
| DeltaUsxMapper.Mapper.SegmentEnded | src/SIL.XForge.Scripture/Services/DeltaUsxMapper.cs:506-532 | A blank is appended exactly when there is a reference and the segment has no content of its own. |
| DeltaUsxMapper.Mapper.InsertVerse | src/SIL.XForge.Scripture/Services/DeltaUsxMapper.cs:458-464 | The segment before is ended, the verse embed follows without formatting, and the reference names chapter and verse. |
| DeltaUsxMapper.Mapper.InsertEmbed | src/SIL.XForge.Scripture/Services/DeltaUsxMapper.cs:466-487 | The embed carries the walk of its own content, from a new state. |
| DeltaUsxMapper.Mapper.InsertPara | src/SIL.XForge.Scripture/Services/DeltaUsxMapper.cs:489-504 | The newline carries element name and attributes; a heading that holds a verse is marked and makes the chapter invalid. |
| DeltaUsxMapper.Mapper.ProcessPara | src/SIL.XForge.Scripture/Services/DeltaUsxMapper.cs:239-271 | The new book state is the specified step over a paragraph or book element. |
| DeltaUsxMapper.Mapper.ProcessChapter | src/SIL.XForge.Scripture/Services/DeltaUsxMapper.cs:273-291 | The new book state is the specified step over a chapter mark. |
| DeltaUsxMapper.Mapper.ChapterEnded | src/SIL.XForge.Scripture/Services/DeltaUsxMapper.cs:444-456 | The chapter's Delta is added, after the end of an implied paragraph, if the chapter number is an integer. |
| DeltaUsxMapper.BookBuilder.GetParagraphRef | src/SIL.XForge.Scripture/Services/DeltaUsxMapper.cs:534-539 | The reference is the prefix with the key's next number, and the key's counter moves on by one. |
| DeltaRebuilder.ProcessDelta | src/SIL.XForge.Scripture/Services/DeltaUsxMapper.cs:719-908 | The loop over the operations, with its stack and its lists changed in place, returns exactly what the specified machine rebuilds, and fails where that fails. |
| DeltaRebuilder.ReadOp | src/SIL.XForge.Scripture/Services/DeltaUsxMapper.cs:731-898 | One operation takes the machine's state to the specified next state. |
| DeltaRebuilder.Rebuilder.SyncFormatting | src/SIL.XForge.Scripture/Services/DeltaUsxMapper.cs:740-760 | Ends and starts formatting until the open formatting is that of the operation. |
| DeltaRebuilder.Rebuilder.CellEnded | src/SIL.XForge.Scripture/Services/DeltaUsxMapper.cs:778-806 | The cell goes to its row in its table; the code throws where the specification fails. |
| DeltaRebuilder.Rebuilder.RowEnded | src/SIL.XForge.Scripture/Services/DeltaUsxMapper.cs:991-1004 | The open row joins the table's rows, what was started after it is given back, and other stack heights fail. |
| DeltaRebuilder.Rebuilder.CharEnded | src/SIL.XForge.Scripture/Services/DeltaUsxMapper.cs:972-984 | The innermost list becomes a char element in the list around it. |
| DeltaRebuilder.Rebuilder.AttributedTextAdded | src/SIL.XForge.Scripture/Services/DeltaUsxMapper.cs:826-857 | Block ends, refs, formatted text and plain segment text each go where the specification puts them. |
| DeltaRebuilder.CharAttributesMatch | src/SIL.XForge.Scripture/Services/DeltaUsxMapper.cs:913-924 | True exactly when the open formatting is a prefix of the new one. |
| UsxSplicer.ToUsx | src/SIL.XForge.Scripture/Services/DeltaUsxMapper.cs:582-697 | The document after the pass is the specified splice of the old children and the Deltas, and it fails as that fails. |
| UsxSplicer.PassMark | src/SIL.XForge.Scripture/Services/DeltaUsxMapper.cs:613-640 | At a later chapter mark the content of the chapter that ends and of missing chapters is put before it, and the cursors move on as specified. |
| UsxSplicer.FindBookOp | src/SIL.XForge.Scripture/Services/DeltaUsxMapper.cs:663-664 | True exactly when some operation ends a book element. |
| StackDiscipline.StepBalanced | src/SIL.XForge.Scripture/Services/DeltaUsxMapper.cs:731-898 | An operation whose newline, table or chapter carries no formatting keeps one list per level of formatting, plus two in a table; it never underflows, and fails if and only if its own content does not fit its place. |
| StackDiscipline.RunBalanced | src/SIL.XForge.Scripture/Services/DeltaUsxMapper.cs:731-898 | So the height of the stack is that after every operation of every such Delta. |
| StackDiscipline.WellMadeRebuilds | src/SIL.XForge.Scripture/Services/DeltaUsxMapper.cs:719-908 | A Delta of such operations whose cells have attributes always rebuilds, embeds included. |
| ParserDiscipline.ParserDisciplined | src/SIL.XForge.Scripture/Services/DeltaUsxMapper.cs:204-318 | Whatever the book, a Delta of the parser is of this kind if and only if no formatted text is exactly a newline and no chapter mark is formatted, at any depth, and every child element of a row is a cell. |
| ParserDiscipline.NodeParsed | src/SIL.XForge.Scripture/Services/DeltaUsxMapper.cs:335-442 | Only the ends of cells get table attributes from the walk, without formatting and with their row. |
| StackDiscipline.FormattedNewlineIff | src/SIL.XForge.Scripture/Services/DeltaUsxMapper.cs:993-994 | A formatted newline without table attributes, which is not of this kind, is read if and only if no table is open. |
| StackDiscipline.FormattedNewlineFails | src/SIL.XForge.Scripture/Services/DeltaUsxMapper.cs:993-994 | So a Delta with a table and a formatted newline right after it makes the code throw. |
| SegmentRefs.ReferencesDistinct | src/SIL.XForge.Scripture/Services/DeltaUsxMapper.cs:534-539 | Whatever the book, two paragraph references given out for one chapter Delta are equal if and only if one paragraph's own style is the base, a slash and the style of the other, and both got the same number; without slashes in styles, never. |
| SegmentRefs.SameTextIff | src/SIL.XForge.Scripture/Services/DeltaUsxMapper.cs:534-539 | Two references are equal if and only if their prefixes and their numbers are. |
| SegmentRefs.EqualRefs | src/SIL.XForge.Scripture/Services/DeltaUsxMapper.cs:246-265 | References under different keys are equal only in that one case. |
| SegmentRefs.SlashRepeatsReference | src/SIL.XForge.Scripture/Services/DeltaUsxMapper.cs:252-265 | The case happens: in the Delta of paragraphs with the styles p, p and p_1/p, the segments of the second and the third have the same reference, whatever the schema validator says of the paragraphs. |
| SegmentRefs.NoEmptySegment | src/SIL.XForge.Scripture/Services/DeltaUsxMapper.cs:506-532 | In every chapter Delta of a book in the domain, a verse is followed by something that is neither a verse nor a newline, and no two block-ending newlines stand together. |
| SegmentRefs.SegmentsFilled | src/SIL.XForge.Scripture/Services/DeltaUsxMapper.cs:225-316 | The same as an invariant of the loop over the book, with implied paragraphs. |
| SegmentRefs.WalkFills | src/SIL.XForge.Scripture/Services/DeltaUsxMapper.cs:335-442 | Inline content keeps segments filled. |
| UsjConverters.NodeBackIff | src/SIL.Converters.Usj/UsxToUsj.cs:87-203 | USX to USJ and back gives the same element if and only if it is canonical: no dropped attributes or milestones, single texts, no leading white space. |
| UsjConverters.ChildrenBackIff | src/SIL.Converters.Usj/UsxToUsj.cs:148-189 | The same for lists of children, with the text before the first element and after each. |
| UsjConverters.MarkerAgainIff | src/SIL.Converters.Usj/UsjToUsx.cs:147-177 | USJ to USX and back gives the same marker if and only if its texts stand apart and none that comes first is only white space. |
| UsjConverters.MarkerBackIff | src/SIL.Converters.Usj/UsjToUsx.cs:98-157 | A marker's kind and attributes come back, and it is not left out as a milestone, if and only if its kind is "table:row", "table:cell" or one without "table:" that is not row or cell, no field is named type, marker, content, style, vid or status, and no verse or chapter has an eid. |
| UsjConverters.KindBackIff | src/SIL.Converters.Usj/UsjToUsx.cs:157-157 | A kind is written and read back exactly if it is one of those. |
| UsjConverters.SecondTripIff | src/SIL.Converters.Usj/UsxToUsj.cs:196-200 | Converting to USJ, back and to USJ again changes nothing if and only if no text after an omitted milestone runs into another text or comes first as white space. |
| UsjConverters.AttrsBack | src/SIL.Converters.Usj/UsjToUsx.cs:98-138 | Attributes that are written from a marker are those it was read from, without the dropped ones. |
| UsjConverters.UsxDomToUsjRecurse | src/SIL.Converters.Usj/UsxToUsj.cs:87-203 | The loops over attributes and children return the specified marker, and whether it is kept. |
| UsjConverters.ConvertUsjRecurse | src/SIL.Converters.Usj/UsjToUsx.cs:147-177 | The parent gets the specified element or text as its last child. |
| UsjConverters.SetAttributes | src/SIL.Converters.Usj/UsjToUsx.cs:98-138 | The attributes written are those specified. |
| JobMutex.MutualExclusion | src/SIL.XForge.Scripture/Services/MutexAttribute.cs:37-134 | Over every interleaving of elections, commits or failures of the outer transaction, and releases: a job in state Processing is the only member of its resource set if and only if it has not given the mutex up, so of two jobs of a resource in that state at least one has given it up. |
| JobMutex.OwnsIffNoWayOut | src/SIL.XForge.Scripture/Services/MutexAttribute.cs:122-134 | A job in state Processing owns the mutex if and only if no way out of Processing was applied to it since it entered. |
| JobMutex.ReleasedMeans | src/SIL.XForge.Scripture/Services/MutexAttribute.cs:122-134 | What having given up the mutex means, in terms of the events of the run. |
| JobMutex.TwoProcessing | src/SIL.XForge.Scripture/Services/MutexAttribute.cs:122-134 | A run, with a failing transaction, after which two jobs of one resource are in state Processing: the filter gives the mutex up before the change that takes the job out of Processing is final. |
| JobMutex.SettledIff | src/SIL.XForge.Scripture/Services/MutexAttribute.cs:122-134 | Only jobs on their way out are ever in state Processing without the mutex if and only if no change out of Processing fails after its filters have run. |
| JobMutex.StepInvariant | src/SIL.XForge.Scripture/Services/MutexAttribute.cs:37-134 | Every step keeps this: each resource set has at most one member; a job in state Processing that has not given up the mutex, or on its way to that state, is that member; one that has given it up is not. |
| JobMutex.AttemptsBounded | src/SIL.XForge.Scripture/Services/MutexAttribute.cs:111-119 | With a bound on attempts, a job is put off for being blocked at most that often; a lock that times out uses up none of them. |
| JobMutex.LockGuardsSet | src/SIL.XForge.Scripture/Services/MutexAttribute.cs:153-163 | Jobs share a lock exactly when they share a resource set. |
| JobMutex.ReentryLosesMutex | src/SIL.XForge.Scripture/Services/MutexAttribute.cs:122-134 | If a job could go from Processing to Processing, the second entry would give up the mutex. |
| JobMutex.AbandonedMutex | src/SIL.XForge.Scripture/Services/MutexAttribute.cs:75-94 | A job whose outer transaction failed owns the mutex without being processed, and still owns it when it is then deleted. |
| JobMutex.AbandonedForGood | src/SIL.XForge.Scripture/Services/MutexAttribute.cs:69-94 | And it owns it for good: while nothing happens to that job, no other job of the resource is ever processed. |
| JobMutex.AbandonedIff | src/SIL.XForge.Scripture/Services/MutexAttribute.cs:75-94 | Over every run, no job ever owns a mutex that it neither uses nor is about to use if and only if no change to Processing fails. |
| JobMutex.MutexFilter.OnStateElection | src/SIL.XForge.Scripture/Services/MutexAttribute.cs:37-120 | The handler changes resource set, attempt count and candidate state exactly as specified. |
| JobMutex.MutexFilter.OnStateApplied | src/SIL.XForge.Scripture/Services/MutexAttribute.cs:122-134 | Leaving Processing takes the job, and nothing else, out of its resource set. |
| SharedRepository.PhaseSafety | src/SIL.XForge.Scripture/Services/JwtInternetSharedRepositorySource.cs:68-154 | Over every run of commits and merges, updates, pulls and pushes, with others sending to the server: every locally public changeset is always on the server if and only if, whenever the code marks the tip, the tip is on the server. |
| SharedRepository.NothingIsForgotten | src/SIL.XForge.Scripture/Services/JwtInternetSharedRepositorySource.cs:110-118 | In every such run, a changeset that the server lacks is still among those to be sent. |
| SharedRepository.StepShared | src/SIL.XForge.Scripture/Services/JwtInternetSharedRepositorySource.cs:68-154 | Each operation keeps that exactly if it is careful: it does not mark a tip that is not on the server. |
| SharedRepository.MarkingSafeIff | src/SIL.XForge.Scripture/Services/HgWrapper.cs:103-107 | Marking the tip and its ancestors public keeps it if and only if the tip is on the server. |
| SharedRepository.WithAncestorsLeast | src/SIL.XForge.Scripture/Services/HgWrapper.cs:107-107 | What the marking marks is the least ancestor-closed set with the tip. |
| SharedRepository.BundleCompletes | src/SIL.XForge.Scripture/Services/JwtInternetSharedRepositorySource.cs:110-118 | What is bundled from the last public revision completes the server's history: no changeset without its parents. |
| SharedRepository.FailedPushKeepsOutgoing | src/SIL.XForge.Scripture/Services/JwtInternetSharedRepositorySource.cs:143-151 | A push that the server drops or that cannot be verified changes no phase, so the same changesets stay outgoing. |
| SharedRepository.NewChangesetsMakePullCareful | src/SIL.XForge.Scripture/Services/JwtInternetSharedRepositorySource.cs:98-100 | Every pull that brings something new is careful. |
| SharedRepository.WorkingTipMakesPushCareful | src/SIL.XForge.Scripture/Services/JwtInternetSharedRepositorySource.cs:120-154 | So is every push made while the working revision is the tip. |
| SharedRepository.PullLosesCommit | src/SIL.XForge.Scripture/Services/JwtInternetSharedRepositorySource.cs:94-100 | A pull that is not empty but brings nothing new is not: after a push that arrived and could not be verified, a commit made since is marked public without being sent, and never sent. |
| SharedRepository.UnverifiedRun | src/SIL.XForge.Scripture/Services/JwtInternetSharedRepositorySource.cs:143-151 | The run that leads to that state. |
| SharedRepository.JwtSource.Pull | src/SIL.XForge.Scripture/Services/JwtInternetSharedRepositorySource.cs:68-102 | The repository after a pull is the specified one. |
| SharedRepository.JwtSource.Push | src/SIL.XForge.Scripture/Services/JwtInternetSharedRepositorySource.cs:108-154 | Repository and server after a push are the specified ones, and it throws exactly when the revision is not listed. |
| SharedRepository.HgRepository.GetLastPublicRevision | src/SIL.XForge.Scripture/Services/HgWrapper.cs:68-73 | The last of the public changesets in log order. |
| NotesChangelist.EveryOldCommentOnce | src/SIL.XForge.Scripture/Services/ParatextNotesMapper.cs:181-263 | If the keys of the old answer comments are distinct, and those of the notes, every undeleted comment of an answer's thread ends as exactly one of matched, deleted once, or untouched; nothing else is deleted or left over; nothing is both sent again and deleted. |
| NotesChangelist.AnswerCommentsHeldOnce | src/SIL.XForge.Scripture/Services/ParatextNotesMapper.cs:181-205 | The dictionary of old comments then holds every undeleted comment of every answer's thread once, under its key, and nothing else. |
| NotesChangelist.ThreadsHeldFiles | src/SIL.XForge.Scripture/Services/ParatextNotesMapper.cs:181-205 | In any case it holds those comments filed in document order, the last one of a key winning, with keys by the users as they are in the end. |
| NotesChangelist.ComparesWithStart | src/SIL.XForge.Scripture/Services/ParatextNotesMapper.cs:238-263 | Each note is compared with the old comments as they were at the start, whatever was removed for other notes meanwhile. |
| NotesChangelist.ChangelistContents | src/SIL.XForge.Scripture/Services/ParatextNotesMapper.cs:57-176 | For the old notes and the exported answers: under every thread id, the comments of the changelist are, as a multiset, the notes that are new or changed and the old comments to be deleted, marked so. |
| NotesChangelist.EmptyIffUpToDate | src/SIL.XForge.Scripture/Services/ParatextNotesMapper.cs:159-175 | The changelist for the old notes and the exported answers is empty if and only if every exported note is held with equal content (and a tag where one is expected) and no deleted one is held. |
| NotesChangelist.AnswersThreaded | src/SIL.XForge.Scripture/Services/ParatextNotesMapper.cs:87-160 | All notes made of an answer and its comments are under the answer's thread. |
| NotesChangelist.ThreadsHeldFiled | src/SIL.XForge.Scripture/Services/ParatextNotesMapper.cs:181-205 | Old comments are filed under their own keys, and the users stay in order. |
| NotesChangelist.NotesMapper.SingleOrDefault | src/SIL.XForge.Scripture/Services/ParatextNotesMapper.cs:345-346 | The look-up goes through all users and never meets a second one with the id, so it never throws. |
| NotesChangelist.AtMostOneWithId | src/SIL.XForge.Scripture/Services/ParatextNotesMapper.cs:373-391 | Users filed under their names with ids of their own never share an id. |
| NotesChangelist.NotesMapper.FindOrCreateParatextUser | src/SIL.XForge.Scripture/Services/ParatextNotesMapper.cs:373-391 | The user is found or added with a new id; every user stays filed under its name with an id of its own. |
| NotesChangelist.NotesMapper.GetNotesChangelist | src/SIL.XForge.Scripture/Services/ParatextNotesMapper.cs:57-176 | The nested loops over answers and comments return the specified changelist. |
| NotesChangelist.NotesMapper.UpdateThreadElem | src/SIL.XForge.Scripture/Services/ParatextNotesMapper.cs:207-236 | One note: users, comparison state and thread become the specified ones. |
| NotesChangelist.NotesMapper.GetSyncUser | src/SIL.XForge.Scripture/Services/ParatextNotesMapper.cs:328-356 | The user a comment is written under: the one it was synced with, the owner, or the current user. |
| NotesChangelist.NotesMapper.AddDeletedNote | src/SIL.XForge.Scripture/Services/ParatextNotesMapper.cs:305-322 | The deleted note goes to the first thread with its id, or to a new one at the end. |
| NotesXml.NotesBack | src/SIL.XForge.Scripture/Services/NotesFormatter.cs:39-72 | Formatting threads, writing the tree with any indentation, reading it without the line breaks before tags, and parsing it gives one list of comments for every thread that has active ones, in order, each comment with its own user, date, external user and deleted flag, and the thread's id and selection. |
| NotesXml.RestoredIff | src/SIL.XForge.Scripture/Services/NotesFormatter.cs:48-72 | The comments of a thread come back equal if and only if each carries its thread's id and selection, has canonical paragraphs as contents, has tags, or else those of the comment before it, and no text or tag of it ends in a line break and white space. |
| NotesXml.ContentsRestoredIff | src/SIL.XForge.Scripture/Services/NotesFormatter.cs:216-239 | Contents come back equal if and only if they are paragraphs without attributes of separate texts, bold, italic and named language spans, and no text ends in a line break and white space; missing contents come back as one empty paragraph. |
| XmlText.IndentNotRead | src/SIL.XForge.Scripture/Services/NotesFormatter.cs:67-72 | Line breaks and indentation in front of tags are not read, wherever they stand and whatever text is before them. |
| XmlText.StrippedSteady | src/SIL.XForge.Scripture/Services/NotesFormatter.cs:67-72 | What has been read has no line break before a tag, so it reads as itself. |
| NotesXml.CanonicalSpansBack | src/SIL.XForge.Scripture/Services/NotesFormatter.cs:128-159 | Formatting and parsing the spans of a canonical paragraph gives the same spans. |
| NotesXml.ParsedIsCanonical | src/SIL.XForge.Scripture/Services/NotesFormatter.cs:242-268 | Whatever was formatted, what is parsed is canonical. |
| NotesXml.ThreadBack | src/SIL.XForge.Scripture/Services/NotesFormatter.cs:178-201 | One thread: id and selection are on every comment, and tags carry forward from the comment that was cloned. |
| NotesXml.SelectionBack | src/SIL.XForge.Scripture/Services/NotesFormatter.cs:161-174 | Selections come back equal, for every 32-bit start position and with empty contexts left out. |
| NotesFormatter.BuildNotes | src/SIL.XForge.Scripture/Services/NotesFormatter.cs:39-46 | The elements added in the loop are those specified. |
| NotesFormatter.BuildComment | src/SIL.XForge.Scripture/Services/NotesFormatter.cs:90-109 | The comment element built is the one specified. |
| NotesFormatter.BuildParagraph | src/SIL.XForge.Scripture/Services/NotesFormatter.cs:128-159 | The paragraph element built is the one specified. |
| NotesFormatter.ReadThread | src/SIL.XForge.Scripture/Services/NotesFormatter.cs:178-201 | The comments, each but the first a clone that is filled in place, have the specified data. |
| NotesFormatter.NoteComment.Read | src/SIL.XForge.Scripture/Services/NotesFormatter.cs:203-214 | Filling a comment in place gives the specified comment; what is missing stays as it was cloned. |
| NotesFormatter.ReadContent | src/SIL.XForge.Scripture/Services/NotesFormatter.cs:216-240 | A text at the front is taken as markup and everything else is dropped; otherwise the paragraphs are parsed in order. |
| SchemaMigration.CollectionOutcome | src/RealtimeServer/common/realtime-server.ts:480-505 | When an attempt succeeds, every document went through exactly the missing migrations, each once and ascending, for any migrations; when it fails, the first page with a failing migration stopped at the first such migration, the documents before it went through all, and those after it through none. |
| SchemaMigration.PageOutcome | src/RealtimeServer/common/realtime-server.ts:488-498 | The same for one page. |
| SchemaMigration.SuccessAddsRange | src/RealtimeServer/common/realtime-server.ts:489-507 | A successful attempt adds to every document's history the versions from the stored one to the target, and moves the stored version there. |
| SchemaMigration.RunsUpToDate | src/RealtimeServer/common/realtime-server.ts:464-509 | Over every run of attempts, with failures anywhere and targets of any kind, no document has missed a migration up to the stored version. |
| SchemaMigration.TimesThrough | src/RealtimeServer/common/realtime-server.ts:464-509 | Over every run of attempts, with any failures and targets, a document goes through a migration as often as attempts took it through: those in which nothing failed on earlier pages, nor an earlier migration on its page, nor this migration of it. |
| SchemaMigration.PassesOf | src/RealtimeServer/common/realtime-server.ts:464-509 | If no target is below the stored version, that is once for every failed attempt that took it through, and once more when the stored version has got there. |
| SchemaMigration.RepeatedIff | src/RealtimeServer/common/realtime-server.ts:477-507 | So a document goes through a migration more than once if and only if a failed attempt took it through and the stored version has got there since, or two failed ones did. |
| SchemaMigration.FailureRepeats | src/RealtimeServer/common/realtime-server.ts:477-507 | After one failed attempt and a successful one, the history is the migrations up to where the failed attempt took the document, and then all of them. |
| SchemaMigration.FailureRepeatsFirstPage | src/RealtimeServer/common/realtime-server.ts:477-507 | For instance, after a failure on the second page, the next attempt takes the documents of the first page through the same migration again. |
| SchemaMigration.SucceedsIff | src/RealtimeServer/common/realtime-server.ts:480-505 | An attempt succeeds if and only if none of the missing migrations fails for any document. |
| SchemaMigration.RealtimeServer.MigrateIfNecessary | src/RealtimeServer/common/realtime-server.ts:464-509 | Collections are migrated one after another; at the first failure, those before it are done with their versions stored, and those after it are unchanged. |
| SchemaMigration.RealtimeServer.MigrateCollection | src/RealtimeServer/common/realtime-server.ts:472-507 | The paged loop has the specified outcome, the version is stored only after all pages, and no other collection changes. |
| SchemaMigration.RealtimeServer.MigratePage | src/RealtimeServer/common/realtime-server.ts:489-498 | The loop over versions has the specified outcome for the page. |
| CompleteThreads.FindCompleteThreads | src/SIL.XForge.Scripture/Services/CommentManagerExtensions.cs:25-56 | Before filtering, the threads have distinct ids, each holds every comment of its id as often as it occurs with the oldest first, they are ordered by the anchor of their oldest comment, and together they hold exactly the comments given; filters keep or drop whole threads. |
| CompleteThreads.PartitionOfComments | src/SIL.XForge.Scripture/Services/CommentManagerExtensions.cs:33-43 | Complete threads with distinct ids, one for every comment, are a partition of the comments. |
| CompleteThreads.Gather | src/SIL.XForge.Scripture/Services/CommentManagerExtensions.cs:33-43 | The dictionary has one thread for each id, with its comments in the order in which they came. |
| UserEditReport.RangesAreVersions | scripts/db_tools/report-user-edits.ts:163-188 | The ranges compared for a group are never empty, so their two versions differ, and together they are the group's versions in the order of arrival if and only if no version 0 comes before another version; the query selects edits only, and version 0 is the creation. |
| UserEditReport.CountedCovers | scripts/db_tools/report-user-edits.ts:163-188 | One more operation adds its version to what is covered, unless the group's baseline was taken for missing. |
| UserEditReport.ReportCoversStream | scripts/db_tools/report-user-edits.ts:120-221 | For every interleaved stream without version 0, each group's ranges cover exactly the versions of that group. |
| UserEditReport.Report.Run | scripts/db_tools/report-user-edits.ts:120-221 | There is one group for every key of the stream, left as its own operations leave it, and its last range is compared at the end. |
| BuildPolling.RunKeeps | src/SIL.XForge.Scripture/Services/MachineBackgroundService.cs:45-129 | Over every run of finished builds, turns whose calls fail anywhere, and restarts, from any builds finished and any cursor stored before: the stored cursor is not ahead of the one in memory, every build behind it was processed at some time, and what the process has handled are the builds right behind its cursor. |
| BuildPolling.HandledOnceInOrder | src/SIL.XForge.Scripture/Services/MachineBackgroundService.cs:57-76 | Within the life of a process every build is handled at most once, in the order in which the builds finished. |
| BuildPolling.RecordedIsStored | src/SIL.XForge.Scripture/Services/MachineBackgroundService.cs:71-79 | A turn that succeeds handles one build, and leaves the stored cursor where the one in memory is if and only if the site has a document or none was made in memory yet. |
| BuildPolling.RestartRepeats | src/SIL.XForge.Scripture/Services/MachineBackgroundService.cs:36-61 | After a restart, the build after the stored cursor is handled next, again if it had been handled before. |
| BuildPolling.LostUntilRestart | src/SIL.XForge.Scripture/Services/MachineBackgroundService.cs:51-76 | If the site's document could not be inserted, no cursor is stored until the next restart, however many builds are handled. |
| BuildPolling.LostStep | src/SIL.XForge.Scripture/Services/MachineBackgroundService.cs:51-61 | Only an insertion that fails brings this about, and only a restart ends it. |
| BuildPolling.NeverLostIff | src/SIL.XForge.Scripture/Services/MachineBackgroundService.cs:45-129 | Over every run it never comes about if and only if no insertion of a missing document fails. |
| BuildPolling.FailedInsertRepeatsAll | src/SIL.XForge.Scripture/Services/MachineBackgroundService.cs:36-79 | A run in which it does: a build is handled, nothing is stored, and the restarted process handles the build again. |
| BuildPolling.BackoffSteps | src/SIL.XForge.Scripture/Services/MachineBackgroundService.cs:108-109 | The delay is 10 k seconds exactly for the failures 10 (k - 1) + 1 to 10 k, and 60 from the 51st on. |
| BuildPolling.BackoffGrows | src/SIL.XForge.Scripture/Services/MachineBackgroundService.cs:78-109 | Delays do not get shorter until a build is handled and recorded. |
| BuildPolling.MachineBackgroundService.PollOnce | src/SIL.XForge.Scripture/Services/MachineBackgroundService.cs:45-129 | One turn of the loop has the specified outcome, and waits as long as the number of failures says. |

## Left out

- XSD validation, parsing and writing of XML and JSON text, and regular expressions: trees, maps and validity flags are given.
- Operations other than inserts (the code rejects them), and attributes of one operation that name both a book and a para.
- `LastVerse` and the marking of invalid inline nodes: validity is modelled as it reaches a chapter's Delta, not where it is shown.
- Embeds with an attribute named `contents`, and tables with an `id`: the code throws on them where it walks them, and they are excluded by a precondition (`DeltaParser.NoReserved`), wherever they stand.
- A Delta's `contents` property is a field of its own next to the embed's attributes.
- WholeBook.GetPut: does not cover books with a reserved attribute, on which the parser throws.
- PutGet.PutGet: takes the Deltas from canonical chapters in the domain whose paragraph styles do not begin with "cell", and asks for a Delta of the first chapter that brings a book operation if the old one has a book element; other canonical content is covered by `WholeBook.DeltasDeliver`.
- UsjConverters.NodeBackIff: leaves out attributes named `type` or `content`, `marker` on anything but `unmatched`, `style` on `unmatched`, and names that differ only in case, which meet in one property of the marker class.
- The `XDocument` variant of the USJ converter, which mirrors the `XmlDocument` one, and the attributes of the root element.
- JobMutex.MutualExclusion: does not promise that only one job of a resource is in state Processing, which `JobMutex.TwoProcessing` refutes, and excludes moves from Processing to Processing, for which `JobMutex.ReentryLosesMutex` shows it fails.
- Expiry of a distributed lock while its holder is still at work.
- SharedRepository.PhaseSafety: does not promise that pulls are careful, for the reason `SharedRepository.PullLosesCommit` gives.
- Texts of notes, their localization and dates, and roles: what a note contains is given, and which answers are exported.
- NotesXml.NotesBack: leaves out white-space-only text nodes of a comment's own contents; white space is that of ASCII, and carriage returns are not modelled; contents that begin with text are read as markup, which is kept as text here; the thread's type is not parsed by the code either.
- The SyncUserRef values written back to questions.
- SchemaMigration.CollectionOutcome: migrations keep the set of documents and their ids; documents that others add or delete during the run are not modelled.
- CompleteThreads.FindCompleteThreads: dates and anchors are numbers in their orders; which of several comments with equal dates comes first is left open, as in the code's sort.
- UserEditReport.Report.Run: groups are found by year, month, user and chapter at once instead of level by level; sums of inserts and deletes, the text comparison and the sorting of the report are not modelled.
- BuildPolling.MachineBackgroundService.PollOnce: cancellation is a restart; what processing a build does is outside.
- The submit-time schema walk of the realtime server, whose early continue leaves no clean specification, and code that only passes data on (controllers, hubs, models, startup).
