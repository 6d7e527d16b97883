/**
 * Polling for finished builds: a cursor in the site's stored document, its copy in memory, and a loop that
 * fetches the build after the cursor, processes it, and moves the cursor. Every call can fail, and the
 * service can be stopped and started at any time.
 */
module BuildPolling {
  import opened Text

  // The last build that was handled, if any.
  type Cursor = Option<string>

  datatype State = State(
    feed: seq<string>,          // the finished builds, in the order in which they finished
    stored: Option<Cursor>,     // the site's document, if it has one
    config: Option<Cursor>,     // the document in memory, if loaded or made
    failures: nat,
    processed: seq<string>,     // history: builds processed successfully since the service started
    ever: set<string>)          // history: builds ever processed successfully

  /** How many builds are behind a cursor. */
  function Position(feed: seq<string>, c: Cursor): (n: nat)
    ensures n <= |feed|
    ensures n > 0 ==> c == Some(feed[n - 1])
  {
    if c.None? || feed == [] then 0
    else if Last(feed) == c.value then |feed|
    else Position(DropLast(feed), c)
  }

  predicate Distinct(feed: seq<string>) {
    forall i, j :: 0 <= i < j < |feed| ==> feed[i] != feed[j]
  }

  lemma {:induction false} PositionAt(feed: seq<string>, i: nat)
    requires Distinct(feed) && i < |feed|
    ensures Position(feed, Some(feed[i])) == i + 1
  {
    if i < |feed| - 1 {
      assert Last(feed) != feed[i];
      PositionAt(DropLast(feed), i);
    }
  }

  /** The finished build after the cursor, if there is one yet. */
  function NextBuild(feed: seq<string>, c: Cursor): Option<string> {
    var n := Position(feed, c);
    if n < |feed| then Some(feed[n]) else None
  }

  // ----- one turn of the loop

  // A write that fails may have been made all the same.
  datatype Write = Made | Unconfirmed | NotMade
  datatype Answer = Answered | Expired | Broken

  // How the calls of one turn end, those that are made: loading the site's document, inserting it, asking
  // for the next build, processing it, and recording it.
  datatype Calls = Calls(loads: bool, insert: Write, poll: Answer, processes: bool, record: Write)

  const ALL_WELL := Calls(true, Made, Answered, true, Made)

  datatype Event = Finishes(build: string) | Turn(calls: Calls) | Restart

  function Failed(s: State): State {
    s.(failures := s.failures + 1)
  }

  /** The document of the site: loaded once, and made if the site has none. */
  function Loaded(s: State, insert: Write): State {
    if s.config.Some? then s
    else if s.stored.Some? then s.(config := s.stored)
    else s.(config := Some(None), stored := if insert == NotMade then None else Some(None))
  }

  // An update reaches the stored document only if there is one.
  function Updated(s: State, c: Cursor, record: Write): State {
    if record != NotMade && s.stored.Some? then s.(stored := Some(c)) else s
  }

  function Handled(s: State, build: string): State {
    s.(processed := s.processed + [build], ever := s.ever + {build}, config := Some(Some(build)))
  }

  // The next build is there: it is processed, and the cursor recorded.
  function Received(s: State, build: string, c: Calls): State {
    if !c.processes then Failed(s)
    else
      var s1 := Updated(Handled(s, build), Some(build), c.record);
      if c.record == Made then s1.(failures := 0) else Failed(s1)
  }

  function Asked(s: State, c: Calls): State
    requires s.config.Some?
  {
    var next := NextBuild(s.feed, s.config.value);
    if c.poll == Broken then Failed(s)
    else if c.poll == Expired || next.None? then s
    else Received(s, next.value, c)
  }

  function Turned(s: State, c: Calls): State {
    if s.config.None? && !c.loads then Failed(s)
    else if s.config.None? && s.stored.None? && c.insert != Made then Failed(Loaded(s, c.insert))
    else Asked(Loaded(s, c.insert), c)
  }

  function After(s: State, e: Event): State {
    match e
    case Finishes(build) => if build in s.feed then s else s.(feed := s.feed + [build])
    case Turn(calls) => Turned(s, calls)
    case Restart => s.(config := None, failures := 0, processed := [])
  }

  function Ran(s: State, events: seq<Event>): State
    decreases |events|
  {
    if events == [] then s else After(Ran(s, DropLast(events)), Last(events))
  }

  // ----- what every run keeps

  // The cursor names a build of the feed.
  predicate Known(feed: seq<string>, c: Cursor) {
    c.Some? ==> c.value in feed
  }

  // The first n builds were all processed at some time.
  predicate AllDone(feed: seq<string>, n: nat, ever: set<string>)
    requires n <= |feed|
  {
    forall i :: 0 <= i < n ==> feed[i] in ever
  }

  predicate Covered(feed: seq<string>, c: Cursor, ever: set<string>) {
    Known(feed, c) && AllDone(feed, Position(feed, c), ever)
  }

  // What was processed are the builds right behind the first n.
  predicate Latest(processed: seq<string>, feed: seq<string>, n: nat)
    requires n <= |feed|
  {
    |processed| <= n && forall i :: 0 <= i < |processed| ==> processed[i] == feed[n - |processed| + i]
  }

  predicate InMemory(feed: seq<string>, stored: Option<Cursor>, c: Cursor, processed: seq<string>, ever: set<string>) {
    && Covered(feed, c, ever) && Latest(processed, feed, Position(feed, c))
    && (stored.Some? ==> Position(feed, stored.value) <= Position(feed, c))
  }

  /**
   * The stored cursor is not ahead of the one in memory; no build behind either was skipped; and what this
   * process has handled are the builds right behind its cursor, once each, in order.
   */
  predicate Invariant(s: State) {
    && Distinct(s.feed)
    && (s.stored.Some? ==> Covered(s.feed, s.stored.value, s.ever))
    && (if s.config.None? then s.processed == [] else InMemory(s.feed, s.stored, s.config.value, s.processed, s.ever))
  }

  lemma {:induction false} PositionLater(feed: seq<string>, build: string, c: Cursor)
    requires Distinct(feed + [build]) && Known(feed, c)
    ensures Position(feed + [build], c) == Position(feed, c)
  {
    if c.Some? {
      var i :| 0 <= i < |feed| && feed[i] == c.value;
      assert (feed + [build])[i] == feed[i];
      PositionAt(feed + [build], i);
      PositionAt(feed, i);
    }
  }

  lemma DistinctLater(feed: seq<string>, build: string)
    requires Distinct(feed) && build !in feed
    ensures Distinct(feed + [build])
  {
  }

  lemma CoveredLater(feed: seq<string>, build: string, c: Cursor, ever: set<string>)
    requires Distinct(feed) && build !in feed && Covered(feed, c, ever)
    ensures Covered(feed + [build], c, ever) && Position(feed + [build], c) == Position(feed, c)
  {
    DistinctLater(feed, build);
    PositionLater(feed, build, c);
  }

  lemma LatestLater(processed: seq<string>, feed: seq<string>, build: string, n: nat)
    requires n <= |feed| && Latest(processed, feed, n)
    ensures Latest(processed, feed + [build], n)
  {
  }

  lemma FinishKeeps(s: State, build: string)
    requires Invariant(s) && build !in s.feed
    ensures Invariant(s.(feed := s.feed + [build]))
  {
    if s.stored.Some? {
      CoveredLater(s.feed, build, s.stored.value, s.ever);
    }
    if s.config.Some? {
      CoveredLater(s.feed, build, s.config.value, s.ever);
      LatestLater(s.processed, s.feed, build, Position(s.feed, s.config.value));
    }
    DistinctLater(s.feed, build);
  }

  lemma LoadKeeps(s: State, insert: Write)
    requires Invariant(s)
    ensures Invariant(Loaded(s, insert)) && Loaded(s, insert).config.Some?
  {
  }

  /** Handling the next build moves the cursor in memory by one, whether or not the stored one follows. */
  lemma HandleKeeps(s: State, record: Write)
    requires Invariant(s) && s.config.Some? && NextBuild(s.feed, s.config.value).Some?
    ensures var next := NextBuild(s.feed, s.config.value);
            Invariant(Updated(Handled(s, next.value), next, record))
  {
    var n := Position(s.feed, s.config.value);
    NextCovered(s.feed, s.config.value, s.ever, s.processed);
    assert s.stored.Some? ==> Covered(s.feed, s.stored.value, s.ever + {s.feed[n]});
  }

  // With the build after a cursor processed too, what was true of the cursor is true of the next one.
  lemma NextCovered(feed: seq<string>, c: Cursor, ever: set<string>, processed: seq<string>)
    requires Distinct(feed) && Covered(feed, c, ever) && Position(feed, c) < |feed| && Latest(processed, feed, Position(feed, c))
    ensures var n := Position(feed, c);
            && Position(feed, Some(feed[n])) == n + 1 && Covered(feed, Some(feed[n]), ever + {feed[n]})
            && Latest(processed + [feed[n]], feed, n + 1)
  {
    PositionAt(feed, Position(feed, c));
  }

  lemma AskKeeps(s: State, c: Calls)
    requires Invariant(s) && s.config.Some?
    ensures Invariant(Asked(s, c))
  {
    if NextBuild(s.feed, s.config.value).Some? {
      HandleKeeps(s, c.record);
    }
  }

  lemma TurnKeeps(s: State, c: Calls)
    requires Invariant(s)
    ensures Invariant(Turned(s, c))
  {
    LoadKeeps(s, c.insert);
    AskKeeps(Loaded(s, c.insert), c);
  }

  lemma EventKeeps(s: State, e: Event)
    requires Invariant(s)
    ensures Invariant(After(s, e))
  {
    match e
    case Finishes(build) =>
      if build !in s.feed {
        FinishKeeps(s, build);
      }
    case Turn(calls) =>
      TurnKeeps(s, calls);
    case Restart =>
  }

  // The service starts: some builds have finished, and those up to the stored cursor were processed before.
  function Begin(feed: seq<string>, stored: Option<Cursor>): State {
    State(feed, stored, None, 0, [], if stored.Some? then Elements(feed[..Position(feed, stored.value)]) else {})
  }

  function Elements(builds: seq<string>): (s: set<string>)
    ensures forall build :: build in s <==> build in builds
  {
    set build | build in builds
  }

  lemma BeginKeeps(feed: seq<string>, stored: Option<Cursor>)
    requires Distinct(feed) && (stored.Some? ==> Known(feed, stored.value))
    ensures Invariant(Begin(feed, stored))
  {
    if stored.Some? {
      var n := Position(feed, stored.value);
      assert forall i :: 0 <= i < n ==> feed[..n][i] == feed[i];
    }
  }

  /**
   * Over every run of finished builds, turns with any failures, and restarts, from any builds finished and
   * any cursor stored before.
   */
  lemma {:induction false} RunKeeps(feed: seq<string>, stored: Option<Cursor>, events: seq<Event>)
    requires Distinct(feed) && (stored.Some? ==> Known(feed, stored.value))
    ensures Invariant(Ran(Begin(feed, stored), events))
    decreases |events|
  {
    if events == [] {
      BeginKeeps(feed, stored);
    } else {
      RunKeeps(feed, stored, DropLast(events));
      EventKeeps(Ran(Begin(feed, stored), DropLast(events)), Last(events));
    }
  }

  /** Within the life of a process, builds are handled in the order in which they finished, each once. */
  lemma HandledOnceInOrder(s: State, i: nat, j: nat)
    requires Invariant(s) && i < j < |s.processed|
    ensures exists k, l :: 0 <= k < l < |s.feed| && s.feed[k] == s.processed[i] && s.feed[l] == s.processed[j]
    ensures s.processed[i] != s.processed[j]
  {
    var base := Position(s.feed, s.config.value) - |s.processed|;
    assert s.feed[base + i] == s.processed[i] && s.feed[base + j] == s.processed[j];
  }

  // There is a document in memory, but none that an update could reach.
  predicate Lost(s: State) {
    s.stored.None? && s.config.Some?
  }

  /**
   * A turn that succeeds handles one build, and leaves the stored cursor where the one in memory is exactly
   * if the document in memory is not the only one.
   */
  lemma RecordedIsStored(s: State)
    requires Invariant(s) && NextBuild(s.feed, Loaded(s, Made).config.value).Some?
    ensures var s1 := Turned(s, ALL_WELL);
            && |s1.processed| == |s.processed| + 1 && s1.failures == 0
            && (s1.stored == s1.config <==> !Lost(s))
  {
  }

  /** After a restart, what is handled next is the build after the stored cursor: those since then come again. */
  lemma RestartRepeats(s: State)
    requires Invariant(s) && s.stored.Some?
    ensures var s1 := Loaded(After(s, Restart), Made);
            && NextBuild(s1.feed, s1.config.value) == NextBuild(s.feed, s.stored.value)
            && (s.config.Some? && Position(s.feed, s.stored.value) < Position(s.feed, s.config.value) ==>
                  NextBuild(s1.feed, s1.config.value).value in s.ever)
  {
    if s.config.Some? {
      assert Covered(s.feed, s.config.value, s.ever);
    }
  }

  // ----- the document that was never made

  // The site has no document, and inserting one fails without being made.
  predicate InsertFails(s: State, e: Event) {
    e.Turn? && s.stored.None? && s.config.None? && e.calls.loads && e.calls.insert == NotMade
  }

  /** Only such an insertion loses the document, and only a restart ends that. */
  lemma LostStep(s: State, e: Event)
    ensures Lost(After(s, e)) <==> InsertFails(s, e) || (Lost(s) && e != Restart)
  {
  }

  /**
   * When the site's document could not be inserted, the code goes on with the copy in memory and never
   * inserts it again: until the next restart, no cursor is stored, however many builds are handled.
   */
  lemma {:induction false} LostUntilRestart(s: State, events: seq<Event>)
    requires Lost(s) && forall e :: e in events ==> e != Restart
    ensures Lost(Ran(s, events))
    decreases |events|
  {
    if events != [] {
      forall e | e in DropLast(events) ensures e != Restart {
        assert e in events;
      }
      LostUntilRestart(s, DropLast(events));
      LostStep(Ran(s, DropLast(events)), Last(events));
      assert Last(events) in events;
    }
  }

  predicate NeverLost(s: State, events: seq<Event>)
    decreases |events|
  {
    !Lost(Ran(s, events)) && (events == [] || NeverLost(s, DropLast(events)))
  }

  predicate NoInsertFails(s: State, events: seq<Event>)
    decreases |events|
  {
    events == [] ||
    (!InsertFails(Ran(s, DropLast(events)), Last(events)) && NoInsertFails(s, DropLast(events)))
  }

  /** Over every run, the document is never lost exactly if no insertion fails. */
  lemma {:induction false} NeverLostIff(s: State, events: seq<Event>)
    requires !Lost(s)
    ensures NeverLost(s, events) <==> NoInsertFails(s, events)
    decreases |events|
  {
    if events != [] {
      NeverLostIff(s, DropLast(events));
      LostStep(Ran(s, DropLast(events)), Last(events));
    }
  }

  /** Such a run: it handles a build, stores nothing, and after a restart handles the build again. */
  lemma FailedInsertRepeatsAll(a: string)
    ensures var s := After(Turned(Turned(Begin([a], None), ALL_WELL.(insert := NotMade)), ALL_WELL), Restart);
            a in s.ever && s.stored.None? && Turned(s, ALL_WELL).processed == [a]
  {
    var s := Turned(Begin([a], None), ALL_WELL.(insert := NotMade));
    assert s == State([a], None, Some(None), 1, [], {});
    assert Position([a], None) == 0 && NextBuild([a], None) == Some(a);
    assert Turned(s, ALL_WELL) == State([a], None, Some(Some(a)), 0, [a], {a});
  }

  // ----- the delay after a failure

  /** Seconds to wait after the n-th failure in a row. */
  function Backoff(n: nat): nat
    requires n > 0
  {
    var delay := ((n - 1) / 10 + 1) * 10;
    if delay < 60 then delay else 60
  }

  /** The delay is a number of tens from 10 to 60: ten failures at each step, and 60 from the 51st on. */
  lemma BackoffSteps(n: nat, k: nat)
    requires n > 0 && 1 <= k <= 6
    ensures Backoff(n) == 10 * k <==> 10 * (k - 1) < n && (k < 6 ==> n <= 10 * k)
  {
  }

  /** Delays do not get shorter until a build is handled. */
  lemma BackoffGrows(s: State, c: Calls)
    requires s.failures > 0
    ensures var s1 := Turned(s, c);
            if s1.failures == 0 then c.record == Made && |s1.processed| > |s.processed|
            else Backoff(s1.failures) >= Backoff(s.failures)
  {
  }

  // ----- the service

  class SiteConfigs {
    var document: Option<Cursor>
  }

  class MachineBackgroundService {
    const siteConfigs: SiteConfigs
    var siteConfig: Option<Cursor>
    var consecutiveFailures: nat
    ghost var processed: seq<string>
    ghost var ever: set<string>

    constructor (configs: SiteConfigs, ghost before: set<string>)
      ensures siteConfigs == configs
      ensures forall feed :: StateOn(feed) == State(feed, configs.document, None, 0, [], before)
    {
      siteConfigs, siteConfig, consecutiveFailures, processed, ever := configs, None, 0, [], before;
    }

    ghost function StateOn(feed: seq<string>): State
      reads this, siteConfigs
    {
      State(feed, siteConfigs.document, siteConfig, consecutiveFailures, processed, ever)
    }

    /** The catch-all handler: one more failure, and how long to wait. */
    method Failure() returns (delay: nat)
      modifies this
      ensures forall feed :: StateOn(feed) == Failed(old(StateOn(feed)))
      ensures delay == Backoff(consecutiveFailures)
    {
      consecutiveFailures := consecutiveFailures + 1;
      delay := if (((consecutiveFailures - 1) / 10) + 1) * 10 < 60 then (((consecutiveFailures - 1) / 10) + 1) * 10 else 60;
    }

    /** Loads or makes the site's document. */
    method Load(c: Calls) returns (ok: bool)
      modifies this, siteConfigs
      ensures ok == (old(siteConfig).Some? || (c.loads && (old(siteConfigs.document).Some? || c.insert == Made)))
      ensures ok ==> siteConfig.Some?
      ensures forall feed :: StateOn(feed) == var s := old(StateOn(feed));
                if s.config.None? && !c.loads then s else Loaded(s, c.insert)
    {
      if siteConfig.None? {
        if !c.loads {
          return false;
        }
        siteConfig := siteConfigs.document;
      }
      if siteConfig.None? {
        siteConfig := Some(None);
        if c.insert != NotMade {
          siteConfigs.document := Some(None);
        }
        return c.insert == Made;
      }
      ok := true;
    }

    /** One turn of the loop; feed is what the build server has. delay is how long to wait before the next. */
    method PollOnce(feed: seq<string>, c: Calls) returns (delay: Option<nat>)
      modifies this, siteConfigs
      ensures StateOn(feed) == Turned(old(StateOn(feed)), c)
      ensures delay == if consecutiveFailures > old(consecutiveFailures) then Some(Backoff(consecutiveFailures)) else None
    {
      delay := None;
      var ok := Load(c);
      if !ok || c.poll == Broken {
        var d := Failure();
        return Some(d);
      }
      var build := NextBuild(feed, siteConfig.value);
      if c.poll == Expired || build.None? {
        return;
      }
      if !c.processes {
        var d := Failure();
        return Some(d);
      }
      processed, ever := processed + [build.value], ever + {build.value};
      siteConfig := Some(build);
      if siteConfigs.document.Some? && c.record != NotMade {
        siteConfigs.document := Some(build);
      }
      if c.record != Made {
        var d := Failure();
        return Some(d);
      }
      consecutiveFailures := 0;
    }
  }
}
