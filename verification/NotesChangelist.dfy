/**
 * The changelist of notes for Paratext: answers and comments are compared with the notes already there,
 * by key; what is new or changed is sent, and what was deleted is sent as deleted.
 */
module NotesChangelist {
  import opened Text

  // ----- users

  datatype Profile = Profile(opaqueUserId: string, username: string)
  type Users = map<string, Profile>

  /** Every profile is filed under its user name, and no two have the same id. */
  ghost predicate UsersOk(users: Users) {
    && (forall n :: n in users ==> users[n].username == n)
    && (forall m, n :: m in users && n in users && users[m].opaqueUserId == users[n].opaqueUserId ==> m == n)
  }

  // The ids still to be generated are not in use.
  ghost predicate Unused(newId: nat -> string, users: Users, guids: nat) {
    forall n, k :: n in users && k >= guids ==> users[n].opaqueUserId != newId(k)
  }

  datatype Directory = Directory(users: Users, guids: nat)

  ghost predicate DirectoryOk(newId: nat -> string, d: Directory) {
    Injective(newId) && UsersOk(d.users) && Unused(newId, d.users, d.guids)
  }

  function Found(newId: nat -> string, d: Directory, name: string): Directory {
    if name in d.users then d
    else Directory(d.users[name := Profile(newId(d.guids), name)], d.guids + 1)
  }

  lemma FoundOk(newId: nat -> string, d: Directory, name: string)
    requires DirectoryOk(newId, d)
    ensures DirectoryOk(newId, Found(newId, d, name)) && name in Found(newId, d, name).users
  {
  }

  /** The users with an id; a look-up that expects one fails if there are more. */
  function WithId(users: Users, id: string): set<string> {
    set n | n in users && users[n].opaqueUserId == id
  }

  lemma AtMostOneWithId(users: Users, id: string)
    requires UsersOk(users)
    ensures |WithId(users, id)| <= 1 && forall m, n :: m in WithId(users, id) && n in WithId(users, id) ==> m == n
  {
    var s := WithId(users, id);
    if n :| n in s {
      assert s == {n};
    }
  }

  // ----- notes

  // The content of a note is XML, compared as a whole.
  datatype CommentElem = CommentElem(
    user: string, extUser: Option<string>, date: string, content: string, tags: seq<string>, deleted: bool,
    versionNbr: Option<string>)

  datatype Thread = Thread(id: Option<string>, comments: seq<CommentElem>)

  function CommentKey(threadId: string, opaqueUserId: string, extUser: Option<string>, date: string): string {
    threadId + "|" + opaqueUserId + "|" + extUser.GetOr("") + "|" + date
  }

  // A comment that Paratext already has, and one that Scripture Forge wants it to have, each with its key.
  datatype Old = Old(key: string, threadId: string, elem: CommentElem)
  datatype Note = Note(key: string, threadId: string, elem: CommentElem, deleted: bool, expectTag: bool)

  // ----- comparing

  // What is left to compare with, what is to be deleted, and what was found new or changed.
  datatype Comparison = Comparison(held: map<string, Old>, toDelete: seq<Old>, changed: seq<Note>)

  predicate IsNewOrChanged(held: map<string, Old>, n: Note) {
    || n.key !in held
    || held[n.key].elem.content != n.elem.content
    || (n.expectTag && held[n.key].elem.tags == [])
  }

  function Compared(c: Comparison, n: Note): Comparison {
    if n.deleted then
      if n.key in c.held then Comparison(c.held - {n.key}, c.toDelete + [c.held[n.key]], c.changed) else c
    else
      Comparison(c.held - {n.key}, c.toDelete, c.changed + if IsNewOrChanged(c.held, n) then [n] else [])
  }

  function AllCompared(c: Comparison, notes: seq<Note>): Comparison
    decreases notes
  {
    if notes == [] then c else AllCompared(Compared(c, notes[0]), notes[1..])
  }

  predicate DistinctKeys(notes: seq<Note>) {
    forall i, j :: 0 <= i < j < |notes| ==> notes[i].key != notes[j].key
  }

  function KeysWhere(notes: seq<Note>, deleted: bool): set<string> {
    set i | 0 <= i < |notes| && notes[i].deleted == deleted :: notes[i].key
  }

  function OldKeys(olds: seq<Old>): (keys: seq<string>)
    ensures |keys| == |olds| && forall i :: 0 <= i < |olds| ==> keys[i] == olds[i].key
  {
    if olds == [] then [] else [olds[0].key] + OldKeys(olds[1..])
  }

  function NoteKeys(notes: seq<Note>): (keys: seq<string>)
    ensures |keys| == |notes| && forall i :: 0 <= i < |notes| ==> keys[i] == notes[i].key
  {
    if notes == [] then [] else [notes[0].key] + NoteKeys(notes[1..])
  }

  // Old comments are filed under their own keys.
  predicate Filed(held: map<string, Old>) {
    forall k :: k in held ==> held[k].key == k
  }

  // What the comparison will still delete and find changed, among notes not compared yet.
  function ToDelete(held: map<string, Old>, notes: seq<Note>): seq<Old> {
    if notes == [] then []
    else (if notes[0].deleted && notes[0].key in held then [held[notes[0].key]] else []) + ToDelete(held, notes[1..])
  }

  function Changed(held: map<string, Old>, notes: seq<Note>): seq<Note> {
    if notes == [] then []
    else (if !notes[0].deleted && IsNewOrChanged(held, notes[0]) then [notes[0]] else []) + Changed(held, notes[1..])
  }

  lemma {:induction false} OthersDoNotMatter(held: map<string, Old>, key: string, notes: seq<Note>)
    requires forall i :: 0 <= i < |notes| ==> notes[i].key != key
    ensures ToDelete(held - {key}, notes) == ToDelete(held, notes)
    ensures Changed(held - {key}, notes) == Changed(held, notes)
  {
    if notes != [] {
      OthersDoNotMatter(held, key, notes[1..]);
    }
  }

  /** With distinct keys, each note is compared with the old comments as they were at the start. */
  lemma {:induction false} ComparesWithStart(c: Comparison, notes: seq<Note>)
    requires DistinctKeys(notes)
    ensures AllCompared(c, notes) == Comparison(c.held - KeysWhere(notes, true) - KeysWhere(notes, false),
                                                c.toDelete + ToDelete(c.held, notes), c.changed + Changed(c.held, notes))
    decreases notes
  {
    if notes == [] {
      assert c.held - {} - {} == c.held;
      PlusNothing(c.toDelete);
      PlusNothing(c.changed);
    } else {
      var n, rest := notes[0], notes[1..];
      var c1 := Compared(c, n);
      assert forall i :: 0 <= i < |rest| ==> rest[i] == notes[i + 1];
      ComparesWithStart(c1, rest);
      OthersDoNotMatter(c.held, n.key, rest);
      assert c.held - {n.key} == c1.held by {
        if n.key !in c.held {
          assert c.held - {n.key} == c.held;
        }
      }
      KeysOfFirst(notes);
      assert c1.held - KeysWhere(rest, true) - KeysWhere(rest, false) == c.held - KeysWhere(notes, true) - KeysWhere(notes, false);
      PlusAssoc(c.toDelete, if n.deleted && n.key in c.held then [c.held[n.key]] else [], ToDelete(c.held, rest));
      PlusAssoc(c.changed, if !n.deleted && IsNewOrChanged(c.held, n) then [n] else [], Changed(c.held, rest));
      PlusNothing(c.toDelete);
      PlusNothing(c.changed);
    }
  }

  lemma KeysOfFirst(notes: seq<Note>)
    requires notes != []
    ensures KeysWhere(notes, true) == KeysWhere(notes[1..], true) + if notes[0].deleted then {notes[0].key} else {}
    ensures KeysWhere(notes, false) == KeysWhere(notes[1..], false) + if notes[0].deleted then {} else {notes[0].key}
  {
    var rest := notes[1..];
    assert forall i :: 0 <= i < |rest| ==> rest[i] == notes[i + 1];
    assert forall i :: 1 <= i < |notes| ==> notes[i] == rest[i - 1];
  }

  lemma {:induction false} DeletedKeys(held: map<string, Old>, notes: seq<Note>)
    requires DistinctKeys(notes) && Filed(held)
    ensures var keys := OldKeys(ToDelete(held, notes));
            && (forall k :: k in keys <==> k in held && k in KeysWhere(notes, true))
            && (forall i, j :: 0 <= i < j < |keys| ==> keys[i] != keys[j])
  {
    if notes != [] {
      var n, rest := notes[0], notes[1..];
      assert forall i :: 0 <= i < |rest| ==> rest[i] == notes[i + 1];
      DeletedKeys(held, rest);
      KeysOfFirst(notes);
      assert n.key !in KeysWhere(rest, true);
      if n.deleted && n.key in held {
        Tail(held[n.key], ToDelete(held, rest));
        assert OldKeys(ToDelete(held, notes)) == [n.key] + OldKeys(ToDelete(held, rest));
      } else {
        PlusNothing(ToDelete(held, rest));
      }
    }
  }

  lemma {:induction false} ChangedKeys(held: map<string, Old>, notes: seq<Note>)
    ensures forall k :: k in NoteKeys(Changed(held, notes)) ==> k in KeysWhere(notes, false)
    ensures forall i :: 0 <= i < |notes| && !notes[i].deleted && IsNewOrChanged(held, notes[i]) ==> notes[i] in Changed(held, notes)
  {
    if notes != [] {
      var n, rest := notes[0], notes[1..];
      ChangedKeys(held, rest);
      KeysOfFirst(notes);
      assert NoteKeys(Changed(held, notes)) == (if !n.deleted && IsNewOrChanged(held, n) then [n.key] else []) + NoteKeys(Changed(held, rest));
      assert forall i :: 1 <= i < |notes| ==> notes[i] == rest[i - 1];
    }
  }

  /** With distinct keys a held comment is matched by a note, or deleted, or untouched, and only one of these. */
  lemma HeldOnce(held: map<string, Old>, notes: seq<Note>)
    requires DistinctKeys(notes) && Filed(held)
    ensures var c, deleted, kept := AllCompared(Comparison(held, [], []), notes), KeysWhere(notes, true), KeysWhere(notes, false);
            var gone := OldKeys(c.toDelete);
            && deleted !! kept
            && (forall k :: k in held ==> (k in c.held <==> k !in deleted && k !in kept))
            && (forall k :: k in gone <==> k in held && k in deleted)
            && (forall o :: o in c.toDelete ==> o.key in held && o == held[o.key])
            && (forall i, j :: 0 <= i < j < |gone| ==> gone[i] != gone[j])
            && (forall k :: k in NoteKeys(c.changed) ==> k in kept)
            && (forall k :: k in c.held ==> k in held && c.held[k] == held[k])
  {
    ComparesWithStart(Comparison(held, [], []), notes);
    DeletedKeys(held, notes);
    DeletedAreHeld(held, notes);
    ChangedKeys(held, notes);
    assert [] + ToDelete(held, notes) == ToDelete(held, notes) && [] + Changed(held, notes) == Changed(held, notes);
    assert forall n, m :: n in KeysWhere(notes, true) && m in KeysWhere(notes, false) ==> n != m;
  }

  lemma {:induction false} DeletedAreHeld(held: map<string, Old>, notes: seq<Note>)
    requires Filed(held)
    ensures forall o :: o in ToDelete(held, notes) ==> o.key in held && o == held[o.key]
  {
    if notes != [] {
      DeletedAreHeld(held, notes[1..]);
    }
  }

  // ----- the changelist

  function MarkedDeleted(elem: CommentElem): CommentElem {
    elem.(deleted := true, versionNbr := None)
  }

  /** A deleted comment goes into the first thread with its thread's id, or a new one. */
  function WithDeleted(threads: seq<Thread>, o: Old): seq<Thread> {
    if threads == [] then [Thread(Some(o.threadId), [MarkedDeleted(o.elem)])]
    else if threads[0].id == Some(o.threadId) then
      [threads[0].(comments := threads[0].comments + [MarkedDeleted(o.elem)])] + threads[1..]
    else [threads[0]] + WithDeleted(threads[1..], o)
  }

  function WithAllDeleted(threads: seq<Thread>, olds: seq<Old>): seq<Thread>
    decreases olds
  {
    if olds == [] then threads else WithAllDeleted(WithDeleted(threads, olds[0]), olds[1..])
  }

  function Elems(notes: seq<Note>): (r: seq<CommentElem>)
    ensures |r| == |notes|
  {
    if notes == [] then [] else [notes[0].elem] + Elems(notes[1..])
  }

  // An answer's notes: its own, then those of its comments, all under its thread.
  datatype AnswerNotes = AnswerNotes(threadId: string, notes: seq<Note>)

  function AllNotes(answers: seq<AnswerNotes>): seq<Note> {
    if answers == [] then [] else answers[0].notes + AllNotes(answers[1..])
  }

  // The comparison of one answer's notes starts a new list of changes.
  function AnswerCompared(c: Comparison, a: AnswerNotes): Comparison {
    AllCompared(c.(changed := []), a.notes)
  }

  function ThreadsOf(a: AnswerNotes, changed: seq<Note>): seq<Thread> {
    if changed == [] then [] else [Thread(Some(a.threadId), Elems(changed))]
  }

  function AnswersRun(c: Comparison, answers: seq<AnswerNotes>): (Comparison, seq<Thread>)
    decreases answers
  {
    if answers == [] then (c, [])
    else
      var c1 := AnswerCompared(c, answers[0]);
      var rest := AnswersRun(c1.(changed := c.changed + c1.changed), answers[1..]);
      (rest.0, ThreadsOf(answers[0], c1.changed) + rest.1)
  }

  function Changelist(held: map<string, Old>, answers: seq<AnswerNotes>): seq<Thread> {
    var r := AnswersRun(Comparison(held, [], []), answers);
    WithAllDeleted(r.1, r.0.toDelete)
  }

  /** The comments of a thread id, wherever they are. */
  function CommentsUnder(threads: seq<Thread>, id: string): multiset<CommentElem> {
    if threads == [] then multiset{}
    else (if threads[0].id == Some(id) then multiset(threads[0].comments) else multiset{}) + CommentsUnder(threads[1..], id)
  }

  function DeletedUnder(olds: seq<Old>, id: string): multiset<CommentElem> {
    if olds == [] then multiset{}
    else (if olds[0].threadId == id then multiset{MarkedDeleted(olds[0].elem)} else multiset{}) + DeletedUnder(olds[1..], id)
  }

  function ChangedUnder(notes: seq<Note>, id: string): multiset<CommentElem> {
    if notes == [] then multiset{}
    else (if notes[0].threadId == id then multiset{notes[0].elem} else multiset{}) + ChangedUnder(notes[1..], id)
  }

  lemma FirstUnder(t: Thread, threads: seq<Thread>, id: string)
    ensures CommentsUnder([t] + threads, id)
         == (if t.id == Some(id) then multiset(t.comments) else multiset{}) + CommentsUnder(threads, id)
  {
    Tail(t, threads);
  }

  lemma OneDeleted(o: Old, id: string)
    ensures DeletedUnder([o], id) == if o.threadId == id then multiset{MarkedDeleted(o.elem)} else multiset{}
  {
    assert [o][1..] == [];
  }

  lemma {:induction false} DeletedAdded(threads: seq<Thread>, o: Old, id: string)
    ensures CommentsUnder(WithDeleted(threads, o), id) == CommentsUnder(threads, id) + DeletedUnder([o], id)
  {
    OneDeleted(o, id);
    if threads == [] {
      FirstUnder(Thread(Some(o.threadId), [MarkedDeleted(o.elem)]), [], id);
      PlusNothing([Thread(Some(o.threadId), [MarkedDeleted(o.elem)])]);
    } else {
      var t := threads[0];
      if t.id == Some(o.threadId) {
        FirstUnder(t.(comments := t.comments + [MarkedDeleted(o.elem)]), threads[1..], id);
      } else {
        FirstUnder(t, WithDeleted(threads[1..], o), id);
        DeletedAdded(threads[1..], o, id);
      }
    }
  }

  lemma {:induction false} AllDeletedAdded(threads: seq<Thread>, olds: seq<Old>, id: string)
    ensures CommentsUnder(WithAllDeleted(threads, olds), id) == CommentsUnder(threads, id) + DeletedUnder(olds, id)
    decreases olds
  {
    if olds != [] {
      assert [olds[0]][1..] == [];
      DeletedAdded(threads, olds[0], id);
      AllDeletedAdded(WithDeleted(threads, olds[0]), olds[1..], id);
    }
  }

  lemma {:induction false} AllComparedAppend(c: Comparison, a: seq<Note>, b: seq<Note>)
    ensures AllCompared(c, a + b) == AllCompared(AllCompared(c, a), b)
    decreases a
  {
    if a == [] {
      assert a + b == b;
    } else {
      assert (a + b)[0] == a[0] && (a + b)[1..] == a[1..] + b;
      AllComparedAppend(Compared(c, a[0]), a[1..], b);
    }
  }

  // Comparing only adds to what was found changed before.
  lemma {:induction false} ChangedGrows(c: Comparison, before: seq<Note>, notes: seq<Note>)
    ensures AllCompared(c.(changed := before + c.changed), notes)
         == AllCompared(c, notes).(changed := before + AllCompared(c, notes).changed)
    decreases notes
  {
    if notes != [] {
      var n := notes[0];
      ChangedGrows(Compared(c, n), before, notes[1..]);
      PlusAssoc(before, c.changed, if IsNewOrChanged(c.held, n) then [n] else []);
    }
  }

  // The notes of an answer carry its thread id.
  predicate Threaded(answers: seq<AnswerNotes>) {
    forall a, n :: a in answers && n in a.notes ==> n.threadId == a.threadId
  }

  lemma {:induction false} ChangedAmong(c: Comparison, notes: seq<Note>, id: string)
    requires forall n :: n in notes ==> n.threadId == id
    requires forall n :: n in c.changed ==> n.threadId == id
    ensures forall n :: n in AllCompared(c, notes).changed ==> n.threadId == id
    decreases notes
  {
    if notes != [] {
      assert notes[0] in notes;
      ChangedAmong(Compared(c, notes[0]), notes[1..], id);
    }
  }

  lemma {:induction false} OneThread(notes: seq<Note>, threadId: string, id: string)
    requires forall n :: n in notes ==> n.threadId == threadId
    ensures ChangedUnder(notes, id) == if threadId == id then multiset(Elems(notes)) else multiset{}
  {
    if notes != [] {
      assert notes[0] in notes;
      OneThread(notes[1..], threadId, id);
      assert Elems(notes) == [notes[0].elem] + Elems(notes[1..]);
    }
  }

  lemma {:induction false} ChangedUnderAppend(a: seq<Note>, b: seq<Note>, id: string)
    ensures ChangedUnder(a + b, id) == ChangedUnder(a, id) + ChangedUnder(b, id)
  {
    if a == [] {
      assert a + b == b;
    } else {
      assert (a + b)[1..] == a[1..] + b;
      ChangedUnderAppend(a[1..], b, id);
    }
  }

  lemma OneAnswer(c: Comparison, a: AnswerNotes)
    ensures var c1 := AnswerCompared(c, a); AllCompared(c, a.notes) == c1.(changed := c.changed + c1.changed)
  {
    assert c.changed + [] == c.changed;
    ChangedGrows(c.(changed := []), c.changed, a.notes);
  }

  /** Going through the answers is going through all their notes. */
  lemma {:induction false} AnswersRunCompares(c: Comparison, answers: seq<AnswerNotes>)
    ensures AnswersRun(c, answers).0 == AllCompared(c, AllNotes(answers))
    decreases answers
  {
    if answers != [] {
      OneAnswer(c, answers[0]);
      AllComparedAppend(c, answers[0].notes, AllNotes(answers[1..]));
      var c1 := AnswerCompared(c, answers[0]);
      AnswersRunCompares(c1.(changed := c.changed + c1.changed), answers[1..]);
    }
  }

  lemma AnswerFiled(c: Comparison, a: AnswerNotes, more: seq<Thread>, id: string)
    requires forall n :: n in a.notes ==> n.threadId == a.threadId
    ensures var changed := AnswerCompared(c, a).changed;
            CommentsUnder(ThreadsOf(a, changed) + more, id) == ChangedUnder(changed, id) + CommentsUnder(more, id)
  {
    var changed := AnswerCompared(c, a).changed;
    ChangedAmong(c.(changed := []), a.notes, a.threadId);
    OneThread(changed, a.threadId, id);
    if changed != [] {
      assert (ThreadsOf(a, changed) + more)[1..] == more;
    } else {
      assert [] + more == more;
    }
  }

  /** What changed is filed under its answer's thread, and there are threads only for what changed. */
  lemma {:induction false} AnswersRunFiles(c: Comparison, answers: seq<AnswerNotes>, id: string)
    requires Threaded(answers)
    ensures var r := AnswersRun(c, answers);
            && ChangedUnder(c.changed, id) + CommentsUnder(r.1, id) == ChangedUnder(r.0.changed, id)
            && (r.1 == [] <==> |r.0.changed| == |c.changed|) && |r.0.changed| >= |c.changed|
    decreases answers
  {
    if answers != [] {
      var a, rest := answers[0], answers[1..];
      assert a in answers;
      var c1 := AnswerCompared(c, a);
      var c2 := c1.(changed := c.changed + c1.changed);
      AnswersRunFiles(c2, rest, id);
      AnswerFiled(c, a, AnswersRun(c2, rest).1, id);
      ChangedUnderAppend(c.changed, c1.changed, id);
    }
  }

  /** What is new or changed and what is deleted are filed under their threads. */
  lemma ContentsFiled(held: map<string, Old>, answers: seq<AnswerNotes>, id: string)
    requires Threaded(answers) && DistinctKeys(AllNotes(answers))
    ensures CommentsUnder(Changelist(held, answers), id)
         == ChangedUnder(Changed(held, AllNotes(answers)), id) + DeletedUnder(ToDelete(held, AllNotes(answers)), id)
  {
    var c, notes := Comparison(held, [], []), AllNotes(answers);
    AnswersRunCompares(c, answers);
    AnswersRunFiles(c, answers, id);
    ComparesWithStart(c, notes);
    assert [] + ToDelete(held, notes) == ToDelete(held, notes) && [] + Changed(held, notes) == Changed(held, notes);
    var r := AnswersRun(c, answers);
    AllDeletedAdded(r.1, r.0.toDelete, id);
  }

  // Paratext already holds the note as it is, or does not hold the deleted one.
  predicate UpToDate(held: map<string, Old>, n: Note) {
    if n.deleted then n.key !in held else !IsNewOrChanged(held, n)
  }

  lemma {:induction false} NothingToDo(held: map<string, Old>, notes: seq<Note>)
    ensures Changed(held, notes) == [] && ToDelete(held, notes) == [] <==> forall i :: 0 <= i < |notes| ==> UpToDate(held, notes[i])
  {
    if notes != [] {
      NothingToDo(held, notes[1..]);
      assert forall i :: 1 <= i < |notes| ==> notes[i] == notes[1..][i - 1];
      assert forall i :: 0 <= i < |notes[1..]| ==> notes[1..][i] == notes[i + 1];
    }
  }

  lemma {:induction false} DeletingAdds(threads: seq<Thread>, olds: seq<Old>)
    ensures WithAllDeleted(threads, olds) == [] <==> threads == [] && olds == []
    decreases olds
  {
    if olds != [] {
      DeletingAdds(WithDeleted(threads, olds[0]), olds[1..]);
    }
  }

  /** Nothing is filed exactly when Paratext is up to date with every note. */
  lemma NothingFiledIff(held: map<string, Old>, answers: seq<AnswerNotes>)
    requires Threaded(answers) && DistinctKeys(AllNotes(answers))
    ensures (Changelist(held, answers) == []) <==>
              (forall i :: 0 <= i < |AllNotes(answers)| ==> UpToDate(held, AllNotes(answers)[i]))
  {
    var c, notes := Comparison(held, [], []), AllNotes(answers);
    AnswersRunCompares(c, answers);
    AnswersRunFiles(c, answers, "");
    ComparesWithStart(c, notes);
    assert [] + ToDelete(held, notes) == ToDelete(held, notes) && [] + Changed(held, notes) == Changed(held, notes);
    var r := AnswersRun(c, answers);
    DeletingAdds(r.1, r.0.toDelete);
    NothingToDo(held, notes);
  }

  // ----- keys and users

  // Who may write notes in Paratext, with their Paratext user names; and the user of the current session.
  datatype Session = Session(newId: nat -> string, writers: map<string, string>, currentUser: string)

  // An answer or a comment on one, with the content and tags it is to have in Paratext.
  datatype Comment = Comment(
    syncUserRef: Option<string>, ownerRef: string, date: string, content: string, tags: seq<string>, deleted: bool)

  ghost function Owner(users: Users, id: Option<string>): (r: Option<Profile>)
    ensures r.Some? ==> exists n :: n in users && users[n] == r.value
  {
    if id.Some? && exists n :: n in WithId(users, id.value) then
      var n :| n in WithId(users, id.value);
      Some(users[n])
    else None
  }

  function UserName(s: Session, c: Comment): string {
    if c.ownerRef in s.writers then s.writers[c.ownerRef] else s.currentUser
  }

  ghost function SyncDirectory(s: Session, d: Directory, c: Comment): Directory {
    if Owner(d.users, c.syncUserRef).Some? then d else Found(s.newId, d, UserName(s, c))
  }

  ghost function SyncProfile(s: Session, d: Directory, c: Comment): Profile {
    var owner := Owner(d.users, c.syncUserRef);
    if owner.Some? then owner.value else Found(s.newId, d, UserName(s, c)).users[UserName(s, c)]
  }

  ghost function NoteFor(s: Session, d: Directory, threadId: string, c: Comment, deleted: bool, expectTag: bool): Note {
    var p := SyncProfile(s, d, c);
    var extUser := if c.ownerRef in s.writers then None else Some(c.ownerRef);
    Note(CommentKey(threadId, p.opaqueUserId, extUser, c.date), threadId,
         CommentElem(p.username, extUser, c.date, c.content, c.tags, false, None), deleted, expectTag)
  }

  // The first comment is the answer itself: only it is expected to have a tag, and deleting it deletes all.
  datatype Answer = Answer(threadId: string, comments: seq<Comment>)

  ghost function NotesFor(s: Session, d: Directory, a: Answer, i: nat): (seq<Note>, Directory)
    requires i <= |a.comments|
    decreases |a.comments| - i
  {
    if i == |a.comments| then ([], d)
    else
      var c := a.comments[i];
      var rest := NotesFor(s, SyncDirectory(s, d, c), a, i + 1);
      ([NoteFor(s, d, a.threadId, c, a.comments[0].deleted || c.deleted, i == 0)] + rest.0, rest.1)
  }

  ghost function AnswersFor(s: Session, d: Directory, answers: seq<Answer>): (seq<AnswerNotes>, Directory)
    decreases answers
  {
    if answers == [] then ([], d)
    else
      var notes := NotesFor(s, d, answers[0], 0);
      var rest := AnswersFor(s, notes.1, answers[1..]);
      ([AnswerNotes(answers[0].threadId, notes.0)] + rest.0, rest.1)
  }

  lemma NotesStep(s: Session, d: Directory, a: Answer, i: nat, done: seq<Note>)
    requires i < |a.comments|
    ensures var c := a.comments[i];
            var n := NoteFor(s, d, a.threadId, c, a.comments[0].deleted || c.deleted, i == 0);
            var all, rest := NotesFor(s, d, a, i), NotesFor(s, SyncDirectory(s, d, c), a, i + 1);
            done + all.0 == (done + [n]) + rest.0 && all.1 == rest.1
  {
    var c := a.comments[i];
    PlusAssoc(done, [NoteFor(s, d, a.threadId, c, a.comments[0].deleted || c.deleted, i == 0)],
              NotesFor(s, SyncDirectory(s, d, c), a, i + 1).0);
  }

  lemma ComparedNext(c: Comparison, done: seq<Note>, n: Note)
    ensures AllCompared(c, done + [n]) == Compared(AllCompared(c, done), n)
  {
    AllComparedAppend(c, done, [n]);
    Tail(n, []);
    PlusNothing([n]);
  }

  lemma RunStep(c: Comparison, answers: seq<AnswerNotes>, before: seq<Thread>)
    requires answers != []
    ensures var c1 := AnswerCompared(c, answers[0]);
            var all, rest := AnswersRun(c, answers), AnswersRun(c1.(changed := c.changed + c1.changed), answers[1..]);
            all.0 == rest.0 && before + all.1 == (before + ThreadsOf(answers[0], c1.changed)) + rest.1
  {
    var c1 := AnswerCompared(c, answers[0]);
    PlusAssoc(before, ThreadsOf(answers[0], c1.changed), AnswersRun(c1.(changed := c.changed + c1.changed), answers[1..]).1);
  }

  predicate IsAnswerThread(t: Thread) {
    t.id.Some? && "ANSWER_" <= t.id.value
  }

  // The old comments that count: those of answers' threads that are not deleted, filed by key, the last one winning.
  function CommentsHeld(newId: nat -> string, d: Directory, held: map<string, Old>, threadId: string, comments: seq<CommentElem>)
      : (map<string, Old>, Directory)
    decreases comments
  {
    if comments == [] then (held, d)
    else if comments[0].deleted then CommentsHeld(newId, d, held, threadId, comments[1..])
    else
      var c, d1 := comments[0], Found(newId, d, comments[0].user);
      var key := CommentKey(threadId, d1.users[c.user].opaqueUserId, c.extUser, c.date);
      CommentsHeld(newId, d1, held[key := Old(key, threadId, c)], threadId, comments[1..])
  }

  function ThreadsHeld(newId: nat -> string, d: Directory, held: map<string, Old>, threads: seq<Thread>): (map<string, Old>, Directory)
    decreases threads
  {
    if threads == [] then (held, d)
    else if IsAnswerThread(threads[0]) then
      var r := CommentsHeld(newId, d, held, threads[0].id.value, threads[0].comments);
      ThreadsHeld(newId, r.1, r.0, threads[1..])
    else ThreadsHeld(newId, d, held, threads[1..])
  }

  lemma {:induction false} CommentsHeldFiled(newId: nat -> string, d: Directory, held: map<string, Old>, threadId: string, comments: seq<CommentElem>)
    requires Filed(held) && DirectoryOk(newId, d)
    ensures var r := CommentsHeld(newId, d, held, threadId, comments); Filed(r.0) && DirectoryOk(newId, r.1)
    decreases comments
  {
    if comments != [] {
      if comments[0].deleted {
        CommentsHeldFiled(newId, d, held, threadId, comments[1..]);
      } else {
        var c, d1 := comments[0], Found(newId, d, comments[0].user);
        FoundOk(newId, d, c.user);
        var key := CommentKey(threadId, d1.users[c.user].opaqueUserId, c.extUser, c.date);
        CommentsHeldFiled(newId, d1, held[key := Old(key, threadId, c)], threadId, comments[1..]);
      }
    }
  }

  /** The old comments are filed under their own keys, and the users stay in order. */
  lemma {:induction false} ThreadsHeldFiled(newId: nat -> string, d: Directory, held: map<string, Old>, threads: seq<Thread>)
    requires Filed(held) && DirectoryOk(newId, d)
    ensures var r := ThreadsHeld(newId, d, held, threads); Filed(r.0) && DirectoryOk(newId, r.1)
    decreases threads
  {
    if threads != [] {
      if IsAnswerThread(threads[0]) {
        CommentsHeldFiled(newId, d, held, threads[0].id.value, threads[0].comments);
        var r := CommentsHeld(newId, d, held, threads[0].id.value, threads[0].comments);
        ThreadsHeldFiled(newId, r.1, r.0, threads[1..]);
      } else {
        ThreadsHeldFiled(newId, d, held, threads[1..]);
      }
    }
  }

  // ----- what is held

  // The old comments that count, with their keys: all comments of answers' threads that are not deleted.
  function OldOf(users: Users, threadId: string, c: CommentElem): Old {
    Old(CommentKey(threadId, if c.user in users then users[c.user].opaqueUserId else "", c.extUser, c.date), threadId, c)
  }

  function CommentOlds(users: Users, threadId: string, comments: seq<CommentElem>): seq<Old> {
    if comments == [] then []
    else (if comments[0].deleted then [] else [OldOf(users, threadId, comments[0])]) + CommentOlds(users, threadId, comments[1..])
  }

  function AnswerOlds(users: Users, threads: seq<Thread>): seq<Old> {
    if threads == [] then []
    else (if IsAnswerThread(threads[0]) then CommentOlds(users, threads[0].id.value, threads[0].comments) else [])
         + AnswerOlds(users, threads[1..])
  }

  function AllFiled(held: map<string, Old>, olds: seq<Old>): map<string, Old>
    decreases olds
  {
    if olds == [] then held else AllFiled(held[olds[0].key := olds[0]], olds[1..])
  }

  lemma {:induction false} FiledAppend(held: map<string, Old>, a: seq<Old>, b: seq<Old>)
    ensures AllFiled(held, a + b) == AllFiled(AllFiled(held, a), b)
    decreases a
  {
    if a == [] {
      assert a + b == b;
    } else {
      assert (a + b)[1..] == a[1..] + b;
      FiledAppend(held[a[0].key := a[0]], a[1..], b);
    }
  }

  // Users are only ever added.
  ghost predicate Extends(users: Users, more: Users) {
    forall n :: n in users ==> n in more && more[n] == users[n]
  }

  ghost predicate AuthorsIn(users: Users, comments: seq<CommentElem>) {
    forall c :: c in comments && !c.deleted ==> c.user in users
  }

  lemma {:induction false} SameOlds(users: Users, more: Users, threadId: string, comments: seq<CommentElem>)
    requires Extends(users, more) && AuthorsIn(users, comments)
    ensures CommentOlds(users, threadId, comments) == CommentOlds(more, threadId, comments)
  {
    if comments != [] {
      assert comments[0] in comments;
      SameOlds(users, more, threadId, comments[1..]);
    }
  }

  lemma {:induction false} CommentsHeldFiles(newId: nat -> string, d: Directory, held: map<string, Old>, threadId: string, comments: seq<CommentElem>)
    ensures var (held1, d1) := CommentsHeld(newId, d, held, threadId, comments);
            && Extends(d.users, d1.users) && AuthorsIn(d1.users, comments)
            && held1 == AllFiled(held, CommentOlds(d1.users, threadId, comments))
    decreases comments
  {
    if comments != [] {
      var c := comments[0];
      if c.deleted {
        CommentsHeldFiles(newId, d, held, threadId, comments[1..]);
        var more := CommentOlds(CommentsHeld(newId, d, held, threadId, comments).1.users, threadId, comments[1..]);
        assert [] + more == more;
      } else {
        var d1 := Found(newId, d, c.user);
        var key := CommentKey(threadId, d1.users[c.user].opaqueUserId, c.extUser, c.date);
        CommentsHeldFiles(newId, d1, held[key := Old(key, threadId, c)], threadId, comments[1..]);
        var users := CommentsHeld(newId, d, held, threadId, comments).1.users;
        assert CommentOlds(users, threadId, comments) == [Old(key, threadId, c)] + CommentOlds(users, threadId, comments[1..]);
      }
    }
  }

  /** The comments held are the undeleted comments of the answers' threads, filed in order, and nothing else. */
  lemma {:induction false} ThreadsHeldFiles(newId: nat -> string, d: Directory, held: map<string, Old>, threads: seq<Thread>)
    ensures var (held1, d1) := ThreadsHeld(newId, d, held, threads);
            Extends(d.users, d1.users) && held1 == AllFiled(held, AnswerOlds(d1.users, threads))
    decreases threads
  {
    if threads != [] {
      var t := threads[0];
      if IsAnswerThread(t) {
        CommentsHeldFiles(newId, d, held, t.id.value, t.comments);
        var (held1, d1) := CommentsHeld(newId, d, held, t.id.value, t.comments);
        ThreadsHeldFiles(newId, d1, held1, threads[1..]);
        var users := ThreadsHeld(newId, d, held, threads).1.users;
        SameOlds(d1.users, users, t.id.value, t.comments);
        FiledAppend(held, CommentOlds(users, t.id.value, t.comments), AnswerOlds(users, threads[1..]));
      } else {
        ThreadsHeldFiles(newId, d, held, threads[1..]);
        var more := AnswerOlds(ThreadsHeld(newId, d, held, threads).1.users, threads[1..]);
        assert [] + more == more;
      }
    }
  }

  ghost predicate DistinctOlds(olds: seq<Old>) {
    forall i, j :: 0 <= i < j < |olds| ==> olds[i].key != olds[j].key
  }

  lemma {:induction false} FiledOnce(held: map<string, Old>, olds: seq<Old>)
    requires DistinctOlds(olds) && forall o :: o in olds ==> o.key !in held
    ensures var r := AllFiled(held, olds);
            && |r| == |held| + |olds|
            && (forall k :: k in r <==> k in held || k in OldKeys(olds))
            && (forall k :: k in held ==> r[k] == held[k]) && (forall o :: o in olds ==> r[o.key] == o)
    decreases olds
  {
    if olds != [] {
      assert olds[0] in olds;
      FiledOnce(held[olds[0].key := olds[0]], olds[1..]);
      assert OldKeys(olds) == [olds[0].key] + OldKeys(olds[1..]);
    }
  }

  /** If their keys are distinct, each of those comments is held once, under its key, and nothing else is. */
  lemma AnswerCommentsHeldOnce(newId: nat -> string, d: Directory, threads: seq<Thread>)
    requires DistinctOlds(AnswerOlds(ThreadsHeld(newId, d, map[], threads).1.users, threads))
    ensures var (held, d1) := ThreadsHeld(newId, d, map[], threads);
            var olds := AnswerOlds(d1.users, threads);
            && |held| == |olds| && (forall o :: o in olds ==> o.key in held && held[o.key] == o)
            && (forall k :: k in held ==> held[k] in olds && held[k].key == k)
  {
    ThreadsHeldFiles(newId, d, map[], threads);
    var olds := AnswerOlds(ThreadsHeld(newId, d, map[], threads).1.users, threads);
    FiledOnce(map[], olds);
    var held := ThreadsHeld(newId, d, map[], threads).0;
    forall k | k in held ensures held[k] in olds && held[k].key == k {
      var i :| 0 <= i < |olds| && OldKeys(olds)[i] == k;
      assert olds[i] in olds;
    }
  }

  /**
   * Conservation, from the old notes to the end of the comparison: every undeleted comment of an answer's
   * thread is matched by a note, or deleted once, or untouched, and only one of these; nothing else is
   * deleted or left; and nothing is both sent again and deleted.
   */
  lemma EveryOldCommentOnce(newId: nat -> string, d: Directory, threads: seq<Thread>, answers: seq<AnswerNotes>)
    requires DistinctOlds(AnswerOlds(ThreadsHeld(newId, d, map[], threads).1.users, threads))
    requires DistinctKeys(AllNotes(answers))
    ensures var (held, d1) := ThreadsHeld(newId, d, map[], threads);
            var olds, c := AnswerOlds(d1.users, threads), AnswersRun(Comparison(held, [], []), answers).0;
            var deleted, kept := KeysWhere(AllNotes(answers), true), KeysWhere(AllNotes(answers), false);
            && deleted !! kept
            && (forall o :: o in olds ==> (o in c.toDelete <==> o.key in deleted))
            && (forall o :: o in olds ==> (o in c.held.Values <==> o.key !in deleted && o.key !in kept))
            && (forall o :: o in c.toDelete ==> o in olds) && (forall o :: o in c.held.Values ==> o in olds)
            && DistinctOlds(c.toDelete)
            && (forall n :: n in c.changed ==> n.key in kept)
  {
    AnswerCommentsHeldOnce(newId, d, threads);
    var (held, d1) := ThreadsHeld(newId, d, map[], threads);
    AnswersRunCompares(Comparison(held, [], []), answers);
    HeldOnce(held, AllNotes(answers));
    var c := AnswersRun(Comparison(held, [], []), answers).0;
    var olds := AnswerOlds(d1.users, threads);
    forall o | o in olds ensures o in c.toDelete <==> o.key in KeysWhere(AllNotes(answers), true) {
      if o.key in OldKeys(c.toDelete) {
        var i :| 0 <= i < |c.toDelete| && OldKeys(c.toDelete)[i] == o.key;
        assert c.toDelete[i] in c.toDelete;
      }
      assert o in c.toDelete ==> o.key in OldKeys(c.toDelete) by {
        if i :| 0 <= i < |c.toDelete| && c.toDelete[i] == o {
          assert OldKeys(c.toDelete)[i] == o.key;
        }
      }
    }
    forall o | o in olds
      ensures o in c.held.Values <==> o.key !in KeysWhere(AllNotes(answers), true) && o.key !in KeysWhere(AllNotes(answers), false)
    {
      assert o.key in c.held ==> c.held[o.key] == o;
    }
    forall n | n in c.changed ensures n.key in KeysWhere(AllNotes(answers), false) {
      var i :| 0 <= i < |c.changed| && c.changed[i] == n;
      assert NoteKeys(c.changed)[i] == n.key;
    }
  }

  // ----- what is sent

  lemma {:induction false} NotesThreaded(s: Session, d: Directory, a: Answer, i: nat)
    requires i <= |a.comments|
    ensures forall n :: n in NotesFor(s, d, a, i).0 ==> n.threadId == a.threadId
    decreases |a.comments| - i
  {
    if i < |a.comments| {
      NotesThreaded(s, SyncDirectory(s, d, a.comments[i]), a, i + 1);
    }
  }

  /** The notes of an answer are all under its thread. */
  lemma {:induction false} AnswersThreaded(s: Session, d: Directory, answers: seq<Answer>)
    ensures Threaded(AnswersFor(s, d, answers).0)
    decreases answers
  {
    if answers != [] {
      NotesThreaded(s, d, answers[0], 0);
      AnswersThreaded(s, NotesFor(s, d, answers[0], 0).1, answers[1..]);
    }
  }

  ghost function NotesAfter(s: Session, d: Directory, oldThreads: seq<Thread>, answers: seq<Answer>): seq<AnswerNotes> {
    AnswersFor(s, ThreadsHeld(s.newId, d, map[], oldThreads).1, answers).0
  }

  /** The changelist for the old notes and the answers that are exported. */
  ghost function ChangelistFor(s: Session, d: Directory, oldThreads: seq<Thread>, answers: seq<Answer>): seq<Thread> {
    Changelist(ThreadsHeld(s.newId, d, map[], oldThreads).0, NotesAfter(s, d, oldThreads, answers))
  }

  /**
   * The changelist holds, under every thread id, exactly the notes of that thread that are new or changed
   * and the old comments of that thread that are deleted, marked so.
   */
  lemma ChangelistContents(s: Session, d: Directory, oldThreads: seq<Thread>, answers: seq<Answer>, id: string)
    requires DistinctKeys(AllNotes(NotesAfter(s, d, oldThreads, answers)))
    ensures var held, notes := ThreadsHeld(s.newId, d, map[], oldThreads).0, AllNotes(NotesAfter(s, d, oldThreads, answers));
            CommentsUnder(ChangelistFor(s, d, oldThreads, answers), id)
              == ChangedUnder(Changed(held, notes), id) + DeletedUnder(ToDelete(held, notes), id)
  {
    var (held, d1) := ThreadsHeld(s.newId, d, map[], oldThreads);
    AnswersThreaded(s, d1, answers);
    ContentsFiled(held, NotesAfter(s, d, oldThreads, answers), id);
  }

  /** The changelist is empty exactly when Paratext is up to date with every note. */
  lemma EmptyIffUpToDate(s: Session, d: Directory, oldThreads: seq<Thread>, answers: seq<Answer>)
    requires DistinctKeys(AllNotes(NotesAfter(s, d, oldThreads, answers)))
    ensures var held, notes := ThreadsHeld(s.newId, d, map[], oldThreads).0, AllNotes(NotesAfter(s, d, oldThreads, answers));
            ChangelistFor(s, d, oldThreads, answers) == [] <==> forall i :: 0 <= i < |notes| ==> UpToDate(held, notes[i])
  {
    var (held, d1) := ThreadsHeld(s.newId, d, map[], oldThreads);
    AnswersThreaded(s, d1, answers);
    NothingFiledIff(held, NotesAfter(s, d, oldThreads, answers));
  }

  // ----- the mapper in place

  class NotesMapper {
    const session: Session
    var users: Users
    var guids: nat
    var oldCommentElems: map<string, Old>
    var commentsToDelete: seq<Old>
    ghost var changed: seq<Note>   // of the current answer

    constructor (session: Session, users: Users)
      ensures this.session == session && this.users == users && guids == 0
      ensures oldCommentElems == map[] && commentsToDelete == [] && changed == []
    {
      this.session, this.users, guids := session, users, 0;
      oldCommentElems, commentsToDelete, changed := map[], [], [];
    }

    ghost function Dir(): Directory
      reads this
    {
      Directory(users, guids)
    }

    ghost predicate Valid()
      reads this
    {
      DirectoryOk(session.newId, Dir())
    }

    ghost function State(): Comparison
      reads this
    {
      Comparison(oldCommentElems, commentsToDelete, changed)
    }

    method FindOrCreateParatextUser(name: string) returns (p: Profile)
      requires Valid()
      modifies this`users, this`guids
      ensures Valid() && Dir() == Found(session.newId, old(Dir()), name) && name in users && p == users[name]
    {
      FoundOk(session.newId, Dir(), name);
      if name !in users {
        users := users[name := Profile(session.newId(guids), name)];
        guids := guids + 1;
      }
      p := users[name];
    }

    /** The look-up for one user with an id; the code throws at a second one, but there never is one. */
    method SingleOrDefault(id: string) returns (p: Option<Profile>)
      requires Valid()
      ensures p == Owner(users, Some(id))
    {
      p := None;
      var keys := users.Keys;
      while keys != {}
        invariant keys <= users.Keys
        invariant p.None? ==> forall n :: n in users && n !in keys ==> users[n].opaqueUserId != id
        invariant p.Some? ==> p.value.username in users && users[p.value.username] == p.value
                              && p.value.username !in keys && p.value.username in WithId(users, id)
        decreases keys
      {
        var n :| n in keys;
        if users[n].opaqueUserId == id {
          if p.Some? {
            AtMostOneWithId(users, id);
            assert false;
          }
          p := Some(users[n]);
        }
        keys := keys - {n};
      }
    }

    method GetSyncUser(c: Comment) returns (p: Profile, canWrite: bool)
      requires Valid()
      modifies this`users, this`guids
      ensures Valid() && Dir() == SyncDirectory(session, old(Dir()), c) && p == SyncProfile(session, old(Dir()), c)
      ensures canWrite == (c.ownerRef in session.writers) && p.username in users && users[p.username] == p
    {
      canWrite := c.ownerRef in session.writers;
      var owner := None;
      if c.syncUserRef.Some? {
        owner := SingleOrDefault(c.syncUserRef.value);
      }
      if owner.Some? {
        p := owner.value;
      } else {
        p := FindOrCreateParatextUser(if canWrite then session.writers[c.ownerRef] else session.currentUser);
      }
    }

    method GetCommentKey(threadId: string, elem: CommentElem) returns (key: string)
      requires Valid()
      modifies this`users, this`guids
      ensures Valid() && Dir() == Found(session.newId, old(Dir()), elem.user) && elem.user in users
      ensures key == CommentKey(threadId, users[elem.user].opaqueUserId, elem.extUser, elem.date)
    {
      var p := FindOrCreateParatextUser(elem.user);
      key := threadId + "|" + p.opaqueUserId + "|" + (if elem.extUser.Some? then elem.extUser.value else "") + "|" + elem.date;
    }

    method GetOldCommentElements(threads: seq<Thread>)
      requires Valid()
      modifies this`users, this`guids, this`oldCommentElems
      ensures Valid() && (oldCommentElems, Dir()) == ThreadsHeld(session.newId, old(Dir()), map[], threads)
    {
      oldCommentElems := map[];
      var i := 0;
      while i < |threads|
        invariant 0 <= i <= |threads| && Valid()
        invariant ThreadsHeld(session.newId, Dir(), oldCommentElems, threads[i..])
               == ThreadsHeld(session.newId, old(Dir()), map[], threads)
      {
        assert threads[i..][1..] == threads[i + 1..];
        if IsAnswerThread(threads[i]) {
          ReadComments(threads[i].id.value, threads[i].comments);
        }
        i := i + 1;
      }
    }

    method ReadComments(threadId: string, comments: seq<CommentElem>)
      requires Valid()
      modifies this`users, this`guids, this`oldCommentElems
      ensures Valid()
      ensures (oldCommentElems, Dir()) == CommentsHeld(session.newId, old(Dir()), old(oldCommentElems), threadId, comments)
    {
      var i := 0;
      while i < |comments|
        invariant 0 <= i <= |comments| && Valid()
        invariant CommentsHeld(session.newId, Dir(), oldCommentElems, threadId, comments[i..])
               == CommentsHeld(session.newId, old(Dir()), old(oldCommentElems), threadId, comments)
      {
        assert comments[i..][1..] == comments[i + 1..];
        if !comments[i].deleted {
          var key := GetCommentKey(threadId, comments[i]);
          oldCommentElems := oldCommentElems[key := Old(key, threadId, comments[i])];
        }
        i := i + 1;
      }
    }

    method AddCommentIfChanged(n: Note, thread: seq<CommentElem>) returns (thread1: seq<CommentElem>)
      requires !n.deleted
      modifies this`oldCommentElems, this`changed
      ensures State() == Compared(old(State()), n)
      ensures thread1 == thread + if IsNewOrChanged(old(oldCommentElems), n) then [n.elem] else []
      ensures changed == old(changed) + if IsNewOrChanged(old(oldCommentElems), n) then [n] else []
    {
      thread1 := thread;
      var isNewOrChanged := true;
      if n.key in oldCommentElems {
        var oldElem := oldCommentElems[n.key].elem;
        isNewOrChanged := oldElem.content != n.elem.content || (n.expectTag && |oldElem.tags| == 0);
      }
      if isNewOrChanged {
        thread1 := thread1 + [n.elem];
        changed := changed + [n];
      }
      oldCommentElems := oldCommentElems - {n.key};
      assert old(changed) + [] == old(changed) && thread + [] == thread;
    }

    method AddDeletedComment(n: Note)
      requires n.deleted
      modifies this`oldCommentElems, this`commentsToDelete
      ensures State() == Compared(old(State()), n)
    {
      if n.key in oldCommentElems {
        commentsToDelete := commentsToDelete + [oldCommentElems[n.key]];
        oldCommentElems := oldCommentElems - {n.key};
      }
    }

    method UpdateThreadElem(threadId: string, c: Comment, isDeleted: bool, setCheckingTag: bool, thread: seq<CommentElem>)
        returns (syncUserId: string, thread1: seq<CommentElem>)
      requires Valid() && thread == Elems(changed)
      modifies this
      ensures Valid() && Dir() == SyncDirectory(session, old(Dir()), c) && thread1 == Elems(changed)
      ensures State() == Compared(old(State()), NoteFor(session, old(Dir()), threadId, c, isDeleted, setCheckingTag))
      ensures syncUserId == SyncProfile(session, old(Dir()), c).opaqueUserId
    {
      var p, canWrite := GetSyncUser(c);
      var elem := CommentElem(p.username, if canWrite then None else Some(c.ownerRef), c.date, c.content, c.tags, false, None);
      var key := GetCommentKey(threadId, elem);
      var n := Note(key, threadId, elem, isDeleted, setCheckingTag);
      syncUserId, thread1 := p.opaqueUserId, thread;
      if isDeleted {
        AddDeletedComment(n);
      } else {
        ghost var before := changed;
        thread1 := AddCommentIfChanged(n, thread);
        ElemsAppend(before, changed[|before|..]);
        assert before + changed[|before|..] == changed;
        assert Elems([n]) == [elem] by {
          assert [n][1..] == [];
        }
      }
    }

    /** One answer: its thread holds what is new or changed among its notes. */
    method ProcessAnswer(a: Answer) returns (thread: Thread)
      requires Valid()
      modifies this
      ensures var notes := NotesFor(session, old(Dir()), a, 0);
              && Valid() && Dir() == notes.1
              && State() == AnswerCompared(old(State()), AnswerNotes(a.threadId, notes.0))
              && thread == Thread(Some(a.threadId), Elems(changed))
    {
      changed := [];
      var comments: seq<CommentElem> := [];
      ghost var c0, d0 := State(), Dir();
      ghost var done: seq<Note> := [];
      PlusNothing(NotesFor(session, d0, a, 0).0);
      var i := 0;
      while i < |a.comments|
        invariant 0 <= i <= |a.comments| && Valid() && comments == Elems(changed)
        invariant var rest := NotesFor(session, Dir(), a, i);
                  (done + rest.0, rest.1) == NotesFor(session, d0, a, 0)
        invariant State() == AllCompared(c0, done)
      {
        ghost var n := NoteFor(session, Dir(), a.threadId, a.comments[i], a.comments[0].deleted || a.comments[i].deleted, i == 0);
        NotesStep(session, Dir(), a, i, done);
        ComparedNext(c0, done, n);
        var syncUserId;
        syncUserId, comments := UpdateThreadElem(a.threadId, a.comments[i], a.comments[0].deleted || a.comments[i].deleted,
                                                 i == 0, comments);
        done := done + [n];
        i := i + 1;
      }
      PlusNothing(done);
      thread := Thread(Some(a.threadId), comments);
    }

    /** exports says whether answers are exported at all; answers are those the export method lets through. */
    method GetNotesChangelist(oldThreads: seq<Thread>, exports: bool, answers: seq<Answer>) returns (notes: seq<Thread>)
      requires Valid() && commentsToDelete == [] && changed == []
      modifies this
      ensures Valid()
      ensures notes == ChangelistFor(session, old(Dir()), oldThreads, if exports then answers else [])
    {
      GetOldCommentElements(oldThreads);
      ghost var held, d0 := oldCommentElems, Dir();
      ghost var all := if exports then answers else [];
      ghost var run := AnswersRun(Comparison(held, [], []), AnswersFor(session, d0, all).0);
      ghost var found: seq<Note> := [];
      notes := [];
      if exports {
        var i := 0;
        assert answers[0..] == answers;
        PlusNothing(run.1);
        while i < |answers|
          invariant 0 <= i <= |answers| && Valid()
          invariant var rest := AnswersRun(Comparison(oldCommentElems, commentsToDelete, found),
                                           AnswersFor(session, Dir(), answers[i..]).0);
                    rest.0 == run.0 && notes + rest.1 == run.1
        {
          ghost var ahead := answers[i..];
          assert ahead[1..] == answers[i + 1..];
          ghost var c := Comparison(oldCommentElems, commentsToDelete, found);
          ghost var later := AnswersFor(session, Dir(), ahead).0;
          ghost var before := notes;
          RunStep(c, later, before);
          assert later[1..] == AnswersFor(session, NotesFor(session, Dir(), answers[i], 0).1, ahead[1..]).0;
          var thread := ProcessAnswer(answers[i]);
          assert State() == AnswerCompared(c, later[0]);
          if |thread.comments| > 0 {
            notes := notes + [thread];
          }
          assert notes == before + ThreadsOf(later[0], changed) by {
            PlusNothing(before);
          }
          found := found + changed;
          i := i + 1;
        }
        PlusNothing(notes);
      }
      notes := AddDeletedNotes(notes);
    }

    method AddDeletedNotes(notes: seq<Thread>) returns (all: seq<Thread>)
      ensures all == WithAllDeleted(notes, commentsToDelete)
    {
      all := notes;
      var i := 0;
      while i < |commentsToDelete|
        invariant 0 <= i <= |commentsToDelete|
        invariant WithAllDeleted(all, commentsToDelete[i..]) == WithAllDeleted(notes, commentsToDelete)
      {
        assert commentsToDelete[i..][1..] == commentsToDelete[i + 1..];
        all := AddDeletedNote(all, commentsToDelete[i]);
        i := i + 1;
      }
    }

    /** The note goes to the first thread with its id, or to a new thread. */
    method AddDeletedNote(notes: seq<Thread>, o: Old) returns (all: seq<Thread>)
      ensures all == WithDeleted(notes, o)
    {
      var i := 0;
      while i < |notes| && notes[i].id != Some(o.threadId)
        invariant 0 <= i <= |notes| && forall k :: 0 <= k < i ==> notes[k].id != Some(o.threadId)
      {
        i := i + 1;
      }
      DeletedAt(notes, o, i);
      all := if i < |notes| then notes[i := notes[i].(comments := notes[i].comments + [MarkedDeleted(o.elem)])]
             else notes + [Thread(Some(o.threadId), [MarkedDeleted(o.elem)])];
    }
  }

  lemma {:induction false} DeletedAt(notes: seq<Thread>, o: Old, i: nat)
    requires i <= |notes| && (forall k :: 0 <= k < i ==> notes[k].id != Some(o.threadId))
    requires i < |notes| ==> notes[i].id == Some(o.threadId)
    ensures WithDeleted(notes, o) ==
              if i < |notes| then notes[i := notes[i].(comments := notes[i].comments + [MarkedDeleted(o.elem)])]
              else notes + [Thread(Some(o.threadId), [MarkedDeleted(o.elem)])]
  {
    if i > 0 {
      DeletedAt(notes[1..], o, i - 1);
    }
  }

  lemma {:induction false} ElemsAppend(a: seq<Note>, b: seq<Note>)
    ensures Elems(a + b) == Elems(a) + Elems(b)
  {
    if a == [] {
      assert a + b == b;
    } else {
      assert (a + b)[1..] == a[1..] + b;
      ElemsAppend(a[1..], b);
    }
  }
}
