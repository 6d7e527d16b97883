/**
 * Sending and receiving changesets: which local changesets are public is how the code remembers what the
 * server has. A local repository, the server's history, and the pushes, pulls and commits between them.
 */
module SharedRepository {
  import opened Text

  type Rev = string
  type Parents = map<Rev, set<Rev>>

  function ParentsOf(p: Parents, r: Rev): set<Rev> {
    if r in p then p[r] else {}
  }

  ghost predicate AncestorClosed(p: Parents, revs: set<Rev>) {
    forall r, q :: r in revs && q in ParentsOf(p, r) ==> q in revs
  }

  function Elements(s: seq<Rev>): set<Rev> {
    set r | r in s
  }

  /** In revision number order: every changeset once, and after its parents. */
  ghost predicate Ordered(p: Parents, log: seq<Rev>) {
    && (forall i, j :: 0 <= i < j < |log| ==> log[i] != log[j])
    && (forall i, q :: 0 <= i < |log| && q in ParentsOf(p, log[i]) ==> q in log[..i])
  }

  // ----- the commands

  /** Going down the log, each marked changeset marks its parents. */
  function WithAncestors(p: Parents, log: seq<Rev>, marked: set<Rev>): set<Rev> {
    if log == [] then marked
    else WithAncestors(p, DropLast(log), if Last(log) in marked then marked + ParentsOf(p, Last(log)) else marked)
  }

  /** log --rev "public()": the last public changeset in log order. */
  function LastPublic(log: seq<Rev>, public: set<Rev>): Option<Rev> {
    if log == [] then None
    else if Last(log) in public then Some(Last(log))
    else LastPublic(DropLast(log), public)
  }

  /** bundle --base: the changesets that are not ancestors of the base. */
  function Bundle(p: Parents, log: seq<Rev>, base: Option<Rev>): set<Rev> {
    Elements(log) - (if base.None? then {} else WithAncestors(p, log, {base.value}))
  }

  /** phase -p -r tip. */
  function TipMarked(p: Parents, log: seq<Rev>, public: set<Rev>): set<Rev> {
    if log == [] then public else public + WithAncestors(p, log, {Last(log)})
  }

  // ----- ancestors

  /** The marking finds the ancestors: the least ancestor-closed set. */
  lemma {:induction false} WithAncestorsLeast(p: Parents, log: seq<Rev>, marked: set<Rev>, closed: set<Rev>)
    requires AncestorClosed(p, closed) && marked <= closed
    ensures marked <= WithAncestors(p, log, marked) <= closed
  {
    if log != [] {
      WithAncestorsLeast(p, DropLast(log), if Last(log) in marked then marked + ParentsOf(p, Last(log)) else marked, closed);
    }
  }

  // Only changesets of the log so far may still lack their parents.
  ghost predicate ClosedAbove(p: Parents, log: seq<Rev>, marked: set<Rev>) {
    forall r, q :: r in marked && r !in log && q in ParentsOf(p, r) ==> q in marked
  }

  lemma {:induction false} WithAncestorsClosed(p: Parents, log: seq<Rev>, marked: set<Rev>)
    requires Ordered(p, log) && ClosedAbove(p, log, marked)
    ensures AncestorClosed(p, WithAncestors(p, log, marked))
  {
    if log != [] {
      var r, rest := Last(log), DropLast(log);
      var more := if r in marked then marked + ParentsOf(p, r) else marked;
      assert log == rest + [r];
      assert forall i :: 0 <= i < |rest| ==> rest[..i] == log[..i];
      assert r !in rest;
      assert forall q :: q in ParentsOf(p, r) ==> q in log[..|log| - 1];
      WithAncestorsClosed(p, rest, more);
    }
  }

  lemma LogClosed(p: Parents, log: seq<Rev>)
    requires Ordered(p, log)
    ensures AncestorClosed(p, Elements(log))
  {
    forall r, q | r in Elements(log) && q in ParentsOf(p, r) ensures q in Elements(log) {
      var i :| 0 <= i < |log| && log[i] == r;
      assert q in log[..i];
    }
  }

  // ----- the world

  datatype World = World(parents: Parents, log: seq<Rev>, public: set<Rev>, working: Option<Rev>, server: set<Rev>)

  ghost predicate Valid(w: World) {
    && Ordered(w.parents, w.log) && AncestorClosed(w.parents, w.server)
    && w.public <= Elements(w.log) && AncestorClosed(w.parents, w.public)
    && (forall r :: r in w.log || r in w.server ==> r in w.parents)
  }

  /** Everything the repository calls public is on the server. */
  predicate PublicShared(w: World) {
    w.public <= w.server
  }

  // The changesets the code will send: those in draft phase.
  function Outgoing(w: World): set<Rev> {
    Elements(w.log) - w.public
  }

  // ----- what the operations do

  /** A commit, with two parents when it merges. */
  function Committed(w: World, r: Rev, from: set<Rev>): World {
    w.(parents := w.parents[r := from], log := w.log + [r], working := Some(r))
  }

  function Updated(w: World, r: Rev): World {
    w.(working := Some(r))
  }

  // Somebody else sends changesets to the server.
  function Received(w: World, parents: Parents, revs: set<Rev>): World {
    w.(parents := parents, server := w.server + revs)
  }

  function Marked(w: World): World {
    w.(public := TipMarked(w.parents, w.log, w.public))
  }

  /** A pull whose bundle is not empty: the changesets that are new here are added, and the tip is marked. */
  function Pulled(w: World, added: seq<Rev>): World {
    Marked(w.(log := w.log + added))
  }

  // What a push sends: what is not known to be on the server.
  function Unsent(w: World): set<Rev> {
    Bundle(w.parents, w.log, LastPublic(w.log, w.public))
  }

  function Sent(w: World, accepted: bool): World {
    w.(server := w.server + if accepted then Unsent(w) else {})
  }

  // The push is made, and the working revision is found on the server afterwards.
  predicate Verifies(w: World, accepted: bool, listed: bool) {
    Unsent(w) != {} && w.working.Some? && listed && w.working.value in Sent(w, accepted).server
  }

  /** A push: the server may or may not take the bundle, and may or may not be seen to have the revision. */
  function Pushed(w: World, accepted: bool, listed: bool): World {
    if Unsent(w) == {} || w.working.None? then w
    else if Verifies(w, accepted, listed) then Marked(Sent(w, accepted))
    else Sent(w, accepted)
  }

  // ----- when marking is safe

  /** Marking the tip keeps what is public shared exactly when the tip is on the server. */
  lemma MarkingSafeIff(w: World)
    requires Valid(w) && PublicShared(w) && w.log != []
    ensures PublicShared(Marked(w)) <==> Last(w.log) in w.server
  {
    if Last(w.log) in w.server {
      WithAncestorsLeast(w.parents, w.log, {Last(w.log)}, w.server);
    } else {
      LogClosed(w.parents, w.log);
      WithAncestorsLeast(w.parents, w.log, {Last(w.log)}, Elements(w.log));
      assert Last(w.log) in Marked(w).public;
    }
  }

  lemma MarkedValid(w: World)
    requires Valid(w)
    ensures Valid(Marked(w))
  {
    if w.log != [] {
      var tip := {Last(w.log)};
      LogClosed(w.parents, w.log);
      WithAncestorsLeast(w.parents, w.log, tip, Elements(w.log));
      assert ClosedAbove(w.parents, w.log, tip);
      WithAncestorsClosed(w.parents, w.log, tip);
    }
  }

  /** The bundle, with what the server has, is a complete history. */
  lemma BundleCompletes(w: World)
    requires Valid(w) && PublicShared(w)
    ensures AncestorClosed(w.parents, w.server + Unsent(w))
  {
    var base := LastPublic(w.log, w.public);
    LogClosed(w.parents, w.log);
    if base.Some? {
      LastPublicIsPublic(w.log, w.public);
      WithAncestorsLeast(w.parents, w.log, {base.value}, w.public);
    }
  }

  lemma {:induction false} LastPublicIsPublic(log: seq<Rev>, public: set<Rev>)
    ensures LastPublic(log, public).Some? ==> LastPublic(log, public).value in public
    ensures LastPublic(log, public).None? ==> Elements(log) !! public
  {
    if log != [] {
      LastPublicIsPublic(DropLast(log), public);
      assert log == DropLast(log) + [Last(log)];
    }
  }

  // ----- runs

  datatype Event =
    | Commit(rev: Rev, from: set<Rev>)
    | Update(rev: Rev)
    | Receive(parents: Parents, revs: set<Rev>)
    | Pull(added: seq<Rev>)
    | Push(accepted: bool, listed: bool)

  // What Mercurial and the server see to: new changesets are new, and their parents are there before them.
  ghost predicate Possible(w: World, e: Event) {
    match e
    case Commit(r, from) => r !in w.parents && from <= Elements(w.log)
    case Update(r) => r in w.log
    case Receive(parents, revs) =>
      && (forall r :: r in w.parents ==> r in parents && parents[r] == w.parents[r])
      && revs <= parents.Keys && AncestorClosed(parents, w.server + revs)
    case Pull(added) => Ordered(w.parents, w.log + added) && (forall r :: r in added ==> r in w.server && r in w.parents)
    case Push(_, _) => true
  }

  /** What the code relies on without looking: when it marks the tip, the tip is on the server. */
  predicate Careful(w: World, e: Event) {
    match e
    case Commit(_, _) => true
    case Update(_) => true
    case Receive(_, _) => true
    case Pull(added) => w.log + added != [] ==> Last(w.log + added) in w.server
    case Push(accepted, listed) => w.log != [] && Verifies(w, accepted, listed) ==> Last(w.log) in Sent(w, accepted).server
  }

  function Next(w: World, e: Event): World {
    match e
    case Commit(r, from) => Committed(w, r, from)
    case Update(r) => Updated(w, r)
    case Receive(parents, revs) => Received(w, parents, revs)
    case Pull(added) => Pulled(w, added)
    case Push(accepted, listed) => Pushed(w, accepted, listed)
  }

  lemma OrderedGrows(p: Parents, q: Parents, log: seq<Rev>)
    requires Ordered(p, log) && forall r :: r in log ==> r in p && r in q && q[r] == p[r]
    ensures Ordered(q, log)
  {
  }

  lemma CommitValid(w: World, r: Rev, from: set<Rev>)
    requires Valid(w) && Possible(w, Commit(r, from))
    ensures Valid(Committed(w, r, from))
  {
    var w1 := Committed(w, r, from);
    OrderedGrows(w.parents, w1.parents, w.log);
    LogGrows(w1.parents, w.log, r);
    assert Elements(w1.log) == Elements(w.log) + {r};
  }

  lemma LogGrows(p: Parents, log: seq<Rev>, r: Rev)
    requires Ordered(p, log) && r !in log && ParentsOf(p, r) <= Elements(log)
    ensures Ordered(p, log + [r])
  {
    var log1 := log + [r];
    forall i, q | 0 <= i < |log1| && q in ParentsOf(p, log1[i]) ensures q in log1[..i] {
      assert log1[..i] == if i < |log| then log[..i] else log;
    }
  }

  lemma ReceiveValid(w: World, parents: Parents, revs: set<Rev>)
    requires Valid(w) && Possible(w, Receive(parents, revs))
    ensures Valid(Received(w, parents, revs))
  {
    OrderedGrows(w.parents, parents, w.log);
  }

  lemma PullValid(w: World, added: seq<Rev>)
    requires Valid(w) && Possible(w, Pull(added))
    ensures Valid(w.(log := w.log + added)) && Valid(Pulled(w, added))
  {
    assert Elements(w.log + added) == Elements(w.log) + Elements(added);
    MarkedValid(w.(log := w.log + added));
  }

  lemma PushValid(w: World, accepted: bool, listed: bool)
    requires Valid(w) && PublicShared(w)
    ensures Valid(Sent(w, accepted)) && PublicShared(Sent(w, accepted)) && Valid(Pushed(w, accepted, listed))
  {
    BundleCompletes(w);
    MarkedValid(Sent(w, accepted));
  }

  lemma StepValid(w: World, e: Event)
    requires Valid(w) && PublicShared(w) && Possible(w, e)
    ensures Valid(Next(w, e))
  {
    match e
    case Commit(r, from) =>
      CommitValid(w, r, from);
    case Update(_) =>
    case Receive(parents, revs) =>
      ReceiveValid(w, parents, revs);
    case Pull(added) =>
      PullValid(w, added);
    case Push(accepted, listed) =>
      PushValid(w, accepted, listed);
  }

  /** An operation keeps what is public shared exactly when it is careful. */
  lemma StepShared(w: World, e: Event)
    requires Valid(w) && PublicShared(w) && Possible(w, e)
    ensures PublicShared(Next(w, e)) <==> Careful(w, e)
  {
    match e
    case Commit(_, _) =>
    case Update(_) =>
    case Receive(_, _) =>
    case Pull(added) =>
      PullValid(w, added);
      if w.log + added != [] {
        MarkingSafeIff(w.(log := w.log + added));
      }
    case Push(accepted, listed) =>
      PushValid(w, accepted, listed);
      if w.log != [] {
        MarkingSafeIff(Sent(w, accepted));
      }
  }

  ghost predicate Runs(w: World, events: seq<Event>)
    decreases events
  {
    events == [] || (Possible(w, events[0]) && Runs(Next(w, events[0]), events[1..]))
  }

  predicate AllCareful(w: World, events: seq<Event>)
    decreases events
  {
    events == [] || (Careful(w, events[0]) && AllCareful(Next(w, events[0]), events[1..]))
  }

  predicate AlwaysShared(w: World, events: seq<Event>)
    decreases events
  {
    PublicShared(w) && (events == [] || AlwaysShared(Next(w, events[0]), events[1..]))
  }

  function After(w: World, events: seq<Event>): World
    decreases events
  {
    if events == [] then w else After(Next(w, events[0]), events[1..])
  }

  /**
   * Phase safety: over every run of commits and merges, updates, pulls and pushes, with others sending to
   * the server, what is public is always on the server exactly if every pull and push is careful.
   */
  lemma {:induction false} PhaseSafety(w: World, events: seq<Event>)
    requires Valid(w) && PublicShared(w) && Runs(w, events)
    ensures AlwaysShared(w, events) <==> AllCareful(w, events)
    decreases events
  {
    if events != [] {
      StepValid(w, events[0]);
      StepShared(w, events[0]);
      if Careful(w, events[0]) {
        PhaseSafety(Next(w, events[0]), events[1..]);
      }
    }
  }

  /** Then every local changeset the server lacks is still going to be sent, at the end of the run as well. */
  lemma {:induction false} NothingIsForgotten(w: World, events: seq<Event>)
    requires AlwaysShared(w, events)
    ensures var t := After(w, events); Elements(t.log) - t.server <= Outgoing(t)
    decreases events
  {
    if events != [] {
      NothingIsForgotten(Next(w, events[0]), events[1..]);
    }
  }

  /** A push is careful if the working revision is the tip. */
  lemma WorkingTipMakesPushCareful(w: World, accepted: bool, listed: bool)
    requires w.log != [] ==> w.working == Some(Last(w.log))
    ensures Careful(w, Push(accepted, listed))
  {
  }

  /** A push that the server drops, or that cannot be verified, changes no phase: the same is outgoing. */
  lemma FailedPushKeepsOutgoing(w: World, accepted: bool, listed: bool)
    requires !Verifies(w, accepted, listed)
    ensures Pushed(w, accepted, listed).public == w.public && Outgoing(Pushed(w, accepted, listed)) == Outgoing(w)
  {
  }

  /** A pull that brings something new is careful. */
  lemma NewChangesetsMakePullCareful(w: World, added: seq<Rev>)
    requires Possible(w, Pull(added)) && added != []
    ensures Careful(w, Pull(added))
  {
    assert Last(w.log + added) == Last(added);
  }

  // Changeset a has arrived on the server by a push that could not be verified; b was committed since.
  function Unverified(a: Rev, b: Rev): World {
    World(map[a := {}, b := {a}], [a, b], {}, Some(b), {a})
  }

  /** The run that leads there. */
  lemma UnverifiedRun(a: Rev, b: Rev)
    requires a != b
    ensures var empty, events := World(map[], [], {}, None, {}), [Commit(a, {}), Push(true, false), Commit(b, {a})];
            Valid(empty) && Runs(empty, events) && After(empty, events) == Unverified(a, b)
  {
    var empty := World(map[], [], {}, None, {});
    var first := Committed(empty, a, {});
    assert first == World(map[a := {}], [a], {}, Some(a), {});
    assert Elements([a]) == {a} && DropLast([a]) == [];
    assert LastPublic([a], {}) == LastPublic([], {}) == None && Unsent(first) == {a};
    var sent := Pushed(first, true, false);
    assert sent == first.(server := {a});
    assert Committed(sent, b, {a}) == Unverified(a, b);
    var e1, e2, e3 := Commit(a, {}), Push(true, false), Commit(b, {a});
    RunStep(sent, e3, []);
    RunStep(first, e2, [e3] + []);
    RunStep(empty, e1, [e2] + ([e3] + []));
    assert [e1] + ([e2] + ([e3] + [])) == [e1, e2, e3];
  }

  lemma RunStep(w: World, e: Event, rest: seq<Event>)
    requires Possible(w, e) && Runs(Next(w, e), rest)
    ensures Runs(w, [e] + rest) && After(w, [e] + rest) == After(Next(w, e), rest)
  {
    assert ([e] + rest)[1..] == rest;
  }

  /**
   * A pull that is not empty but brings nothing new is then not careful: it marks b public, which the
   * server does not have, so that b is never sent.
   */
  lemma PullLosesCommit(a: Rev, b: Rev)
    requires a != b
    ensures var w := Unverified(a, b);
            && Possible(w, Pull([])) && !Careful(w, Pull([]))
            && b !in w.server && b in Outgoing(w) && b !in Outgoing(Pulled(w, []))
  {
    var w := Unverified(a, b);
    assert w.log + [] == w.log && Last(w.log) == b;
    assert w.log[..0] == [] && w.log[..1] == [a];
    assert Ordered(w.parents, w.log);
    LogClosed(w.parents, w.log);
    WithAncestorsLeast(w.parents, w.log, {b}, Elements(w.log));
  }

  // ----- the operations in place

  class HgRepository {
    var parents: Parents
    var log: seq<Rev>
    var public: set<Rev>
    var working: Option<Rev>

    constructor ()
      ensures parents == map[] && log == [] && public == {} && working == None
    {
      parents, log, public, working := map[], [], {}, None;
    }

    /** The last line of the list of public changesets. */
    method GetLastPublicRevision() returns (rev: Option<Rev>)
      ensures rev == LastPublic(log, public)
    {
      var i := |log|;
      assert log[..i] == log;
      while i > 0
        invariant 0 <= i <= |log| && LastPublic(log[..i], public) == LastPublic(log, public)
      {
        assert DropLast(log[..i]) == log[..i - 1] && Last(log[..i]) == log[i - 1];
        if log[i - 1] in public {
          return Some(log[i - 1]);
        }
        i := i - 1;
      }
      return None;
    }

    method Add(added: seq<Rev>)
      modifies this`log
      ensures log == old(log) + added
    {
      log := log + added;
    }

    method MarkSharedChangeSetsPublic()
      modifies this`public
      ensures public == TipMarked(parents, log, old(public))
    {
      if |log| == 0 {
        return;
      }
      var marked := {log[|log| - 1]};
      var i := |log|;
      assert log[..i] == log;
      while i > 0
        invariant 0 <= i <= |log|
        invariant WithAncestors(parents, log[..i], marked) == WithAncestors(parents, log, {log[|log| - 1]})
      {
        assert DropLast(log[..i]) == log[..i - 1] && Last(log[..i]) == log[i - 1];
        i := i - 1;
        if log[i] in marked {
          marked := marked + ParentsOf(parents, log[i]);
        }
      }
      public := public + marked;
    }
  }

  class SendReceiveServer {
    var history: set<Rev>

    constructor ()
      ensures history == {}
    {
      history := {};
    }
  }

  datatype PushOutcome = NothingToPush | NoRevision | Verified | VerificationFailed

  ghost function WorldOf(repo: HgRepository, server: SendReceiveServer): World
    reads repo, server
  {
    World(repo.parents, repo.log, repo.public, repo.working, server.history)
  }

  class JwtSource {
    /** bundle is what the server sends; added, in order, are those of its changesets that are new here. */
    method Pull(repo: HgRepository, server: SendReceiveServer, bundle: set<Rev>, added: seq<Rev>) returns (changeSets: seq<Rev>)
      requires bundle == {} ==> added == []
      modifies repo`log, repo`public
      ensures bundle == {} ==> changeSets == [] && unchanged(repo)
      ensures bundle != {} ==> changeSets == added && WorldOf(repo, server) == Pulled(old(WorldOf(repo, server)), added)
    {
      if bundle == {} {
        return [];
      }
      repo.Add(added);
      repo.MarkSharedChangeSetsPublic();
      return added;
    }

    /** accepted: the server takes the bundle; listed: its answer to the check lists the revision if it has it. */
    method Push(repo: HgRepository, server: SendReceiveServer, accepted: bool, listed: bool) returns (outcome: PushOutcome)
      modifies repo`public, server
      ensures WorldOf(repo, server) == Pushed(old(WorldOf(repo, server)), accepted, listed)
      ensures outcome != Verified ==> repo.public == old(repo.public)
      ensures outcome == VerificationFailed <==>
                Bundle(repo.parents, repo.log, LastPublic(repo.log, old(repo.public))) != {}
                && repo.working.Some? && !(listed && repo.working.value in server.history)
    {
      var baseRev := repo.GetLastPublicRevision();
      var bundle := Bundle(repo.parents, repo.log, baseRev);
      if bundle == {} {
        return NothingToPush;
      }
      if repo.working.None? {
        return NoRevision;
      }
      var localTip := repo.working.value;
      if accepted {
        server.history := server.history + bundle;
      }
      if !(listed && localTip in server.history) {
        assert server.history == old(server.history) + if accepted then bundle else {};
        return VerificationFailed;
      }
      repo.MarkSharedChangeSetsPublic();
      return Verified;
    }
  }
}
