/**
 * The job mutex: a filter on the state changes of background jobs that lets at most one job of each
 * resource be processed, and the protocol it takes part in.
 */
module JobMutex {
  import opened Text

  type Id = string
  type Key = string

  datatype Reason = LockTimeout | BlockedBy(id: Id, attempt: nat) | Exhausted(id: Id) | NoReason
  datatype State = Processing | Scheduled(reason: Reason) | Deleted(reason: Reason) | OtherState(name: string)

  // ----- keys

  predicate IsBlank(s: string) {
    forall i :: 0 <= i < |s| ==> IsSpace(s[i])
  }

  // A job's method, and its arguments; formatting a resource with arguments is the runtime's business.
  datatype Job = Job(methodName: string, args: seq<string>)

  function KeyFormat(job: Job, resource: Option<string>, format: (string, seq<string>) -> string): Key {
    if resource.None? || IsBlank(resource.value) then job.methodName else format(resource.value, job.args)
  }

  function LockKey(key: Key): string { "extension:job-mutex:lock:" + key }
  function ResourceKey(key: Key): string { "extension:job-mutex:set:" + key }

  /** Jobs that share a resource set share its lock, and no others do. */
  lemma LockGuardsSet(a: Key, b: Key)
    ensures ResourceKey(a) == ResourceKey(b) <==> LockKey(a) == LockKey(b)
    ensures ResourceKey(a) == ResourceKey(b) <==> a == b
  {
    assert ResourceKey(a)[24..] == a && ResourceKey(b)[24..] == b;
    assert LockKey(a)[25..] == a && LockKey(b)[25..] == b;
  }

  // ----- the filter

  // What the election of a state sees and leaves: the resource set, and the job's attempt counter.
  datatype Election = Election(members: set<Id>, attempts: nat, candidate: State)

  /** Choosing the next state of a job whose set shows blockedBy as its first member, if it has any. */
  function Elected(maxAttempts: nat, id: Id, e: Election, locked: bool, blockedBy: Option<Id>): Election {
    if e.candidate != Processing then e
    else if !locked then e.(candidate := Scheduled(LockTimeout))
    else if blockedBy.None? || blockedBy.value == id then e.(members := e.members + {id})
    else
      var attempt := e.attempts + 1;
      e.(attempts := attempt,
         candidate := if maxAttempts == 0 || attempt <= maxAttempts then Scheduled(BlockedBy(blockedBy.value, attempt))
                      else Deleted(Exhausted(blockedBy.value)))
  }

  // The member a range query of length one may return.
  predicate FirstOf(members: set<Id>, first: Option<Id>) {
    if first.None? then members == {} else first.value in members
  }

  /** The storage the filter works on: the resource sets, and the attempt counters of the jobs. */
  class JobStorage {
    var sets: map<Key, set<Id>>
    var attempts: map<Id, nat>

    constructor ()
      ensures sets == map[] && attempts == map[]
    {
      sets, attempts := map[], map[];
    }

    function Members(key: Key): set<Id>
      reads this
    {
      if key in sets then sets[key] else {}
    }

    function Attempts(id: Id): nat
      reads this
    {
      if id in attempts then attempts[id] else 0
    }

    method GetRangeFromSet(key: Key) returns (first: Option<Id>)
      ensures FirstOf(Members(key), first)
    {
      if Members(key) == {} {
        return None;
      }
      var id :| id in Members(key);
      return Some(id);
    }
  }

  class MutexFilter {
    const maxAttempts: nat
    const resource: Option<string>
    const format: (string, seq<string>) -> string

    constructor (maxAttempts: nat, resource: Option<string>, format: (string, seq<string>) -> string)
      ensures this.maxAttempts == maxAttempts && this.resource == resource && this.format == format
    {
      this.maxAttempts, this.resource, this.format := maxAttempts, resource, format;
    }

    function KeyOf(job: Job): Key {
      KeyFormat(job, resource, format)
    }

    /** job is None when its method cannot be loaded; locked says whether the distributed lock was acquired in time. */
    method OnStateElection(storage: JobStorage, id: Id, job: Option<Job>, candidate: State, locked: bool)
        returns (chosen: State, ghost blockedBy: Option<Id>)
      modifies storage
      ensures job.None? ==> chosen == candidate && unchanged(storage)
      ensures job.Some? ==>
                var key := KeyOf(job.value);
                var before := Election(old(storage.Members(key)), old(storage.Attempts(id)), candidate);
                var after := Election(storage.Members(key), storage.Attempts(id), chosen);
                FirstOf(before.members, blockedBy) && after == Elected(maxAttempts, id, before, locked, blockedBy)
      ensures forall k :: job.None? || k != KeyOf(job.value) ==> storage.Members(k) == old(storage.Members(k))
      ensures forall i :: i != id ==> storage.Attempts(i) == old(storage.Attempts(i))
    {
      chosen := candidate;
      blockedBy := None;
      if job.Some? {
        ghost var seen := storage.GetRangeFromSet(KeyOf(job.value));
        blockedBy := seen;
      }
      if candidate != Processing || job.None? {
        return;
      }
      if !locked {
        chosen := Scheduled(LockTimeout);
        return;
      }
      var key := KeyOf(job.value);
      var first := storage.GetRangeFromSet(key);
      blockedBy := first;
      if first.None? || first.value == id {
        storage.sets := storage.sets[key := storage.Members(key) + {id}];
        return;
      }
      var currentAttempt := storage.Attempts(id) + 1;
      storage.attempts := storage.attempts[id := currentAttempt];
      chosen := if maxAttempts == 0 || currentAttempt <= maxAttempts then Scheduled(BlockedBy(first.value, currentAttempt))
                else Deleted(Exhausted(first.value));
    }

    method OnStateApplied(storage: JobStorage, id: Id, job: Option<Job>, oldState: State)
      modifies storage`sets
      ensures forall k :: storage.Members(k)
                == old(storage.Members(k)) - (if job.Some? && k == KeyOf(job.value) && oldState == Processing then {id} else {})
    {
      if job.None? || oldState != Processing {
        return;
      }
      var key := KeyOf(job.value);
      storage.sets := storage.sets[key := storage.Members(key) - {id}];
    }
  }

  // ----- the protocol

  // A state change that was elected; applied once the filters on its application have run.
  datatype Change = Change(target: State, applied: bool)

  // released is a history: the job gave up the mutex on its way out of Processing, and has not changed
  // state since.
  // rescheduled is a history: how often being blocked put the job off.
  datatype JobInfo = JobInfo(
    key: Key, state: State, change: Option<Change>, released: bool, attempts: nat, rescheduled: nat)

  datatype System = System(jobs: map<Id, JobInfo>, sets: map<Key, set<Id>>)

  datatype Event =
    | Elect(id: Id, candidate: State, locked: bool, blockedBy: Option<Id>)
    | Apply(id: Id)
    | Commit(id: Id)
    | Fail(id: Id)

  function MembersOf(s: System, key: Key): set<Id> {
    if key in s.sets then s.sets[key] else {}
  }

  /**
   * A job changes state in three steps, and the outer transaction can fail after each of the first two. The
   * job server serialises the changes of one job. A job is not sent from Processing to Processing.
   */
  predicate Enabled(s: System, e: Event) {
    && e.id in s.jobs
    && var job := s.jobs[e.id];
       match e
       case Elect(_, candidate, _, blockedBy) =>
         job.change.None? && FirstOf(MembersOf(s, job.key), blockedBy) && !(job.state == Processing && candidate == Processing)
       case Apply(_) => job.change.Some? && !job.change.value.applied
       case Commit(_) => job.change.Some? && job.change.value.applied
       case Fail(_) => job.change.Some?
  }

  function Next(maxAttempts: nat, s: System, e: Event): System
    requires e.id in s.jobs
  {
    var job := s.jobs[e.id];
    match e
    case Elect(id, candidate, locked, blockedBy) =>
      var r := Elected(maxAttempts, id, Election(MembersOf(s, job.key), job.attempts, candidate), locked, blockedBy);
      var putOff := r.attempts > job.attempts && r.candidate.Scheduled?;
      System(s.jobs[id := job.(change := Some(Change(r.candidate, false)), attempts := r.attempts,
                               rescheduled := job.rescheduled + if putOff then 1 else 0)],
             s.sets[job.key := r.members])
    case Apply(id) =>
      if job.change.None? then s
      else
        var out := job.state == Processing;
        System(s.jobs[id := job.(change := Some(job.change.value.(applied := true)), released := job.released || out)],
               if out then s.sets[job.key := MembersOf(s, job.key) - {id}] else s.sets)
    case Commit(id) =>
      if job.change.None? then s
      else s.(jobs := s.jobs[id := job.(state := job.change.value.target, change := None, released := false)])
    case Fail(id) =>
      s.(jobs := s.jobs[id := job.(change := None)])
  }

  /** A job occupies its resource from the commit of Processing until its way out is applied. */
  predicate Occupies(job: JobInfo) {
    job.state == Processing && !job.released
  }

  // The job has been given the mutex for a change to Processing that is still under way.
  predicate Enters(job: JobInfo) {
    job.change.Some? && job.change.value.target == Processing
  }

  // A job that occupies its resource or is entering it is a member of its set, and one that gave it up is
  // not, even while its state is still Processing.
  predicate JobOk(maxAttempts: nat, id: Id, job: JobInfo, members: set<Id>) {
    && (Occupies(job) ==> id in members)
    && (Enters(job) ==> job.state != Processing && id in members)
    && (job.state != Processing ==> !job.released)
    && (job.released ==> id !in members)
    && (job.state == Processing && job.change.Some? && job.change.value.applied ==> job.released)
    && (job.rescheduled == if maxAttempts == 0 || job.attempts <= maxAttempts then job.attempts else maxAttempts)
  }

  ghost predicate OneMember(s: System) {
    forall key, a, b :: a in MembersOf(s, key) && b in MembersOf(s, key) ==> a == b
  }

  /** Every resource set has at most one member, and every job is in its set as its state asks. */
  ghost predicate Invariant(maxAttempts: nat, s: System) {
    && OneMember(s)
    && forall id :: id in s.jobs ==> JobOk(maxAttempts, id, s.jobs[id], MembersOf(s, s.jobs[id].key))
  }

  // An event changes the set of its own job's key only, and there only the job's own membership.
  lemma StepMembers(maxAttempts: nat, s: System, e: Event)
    requires OneMember(s) && Enabled(s, e)
    ensures var s1, own := Next(maxAttempts, s, e), s.jobs[e.id].key;
            && OneMember(s1)
            && (forall key :: key != own ==> MembersOf(s1, key) == MembersOf(s, key))
            && (forall id :: id != e.id ==> (id in MembersOf(s1, own) <==> id in MembersOf(s, own)))
  {
    var s1, own := Next(maxAttempts, s, e), s.jobs[e.id].key;
    var before, after := MembersOf(s, own), MembersOf(s1, own);
    assert after == before || after == before - {e.id} || (after == before + {e.id} && before <= {e.id});
    forall key | key != own ensures MembersOf(s1, key) == MembersOf(s, key) {
    }
  }

  lemma OwnJobOk(maxAttempts: nat, s: System, e: Event)
    requires Invariant(maxAttempts, s) && Enabled(s, e)
    ensures var s1 := Next(maxAttempts, s, e);
            JobOk(maxAttempts, e.id, s1.jobs[e.id], MembersOf(s1, s1.jobs[e.id].key))
  {
  }

  lemma StepInvariant(maxAttempts: nat, s: System, e: Event)
    requires Invariant(maxAttempts, s) && Enabled(s, e)
    ensures Invariant(maxAttempts, Next(maxAttempts, s, e))
  {
    var s1 := Next(maxAttempts, s, e);
    StepMembers(maxAttempts, s, e);
    OwnJobOk(maxAttempts, s, e);
    forall id | id in s1.jobs ensures JobOk(maxAttempts, id, s1.jobs[id], MembersOf(s1, s1.jobs[id].key)) {
      if id != e.id {
        assert s1.jobs[id] == s.jobs[id];
      }
    }
  }

  // A run: each event is enabled where it happens.
  predicate Runs(maxAttempts: nat, s: System, events: seq<Event>)
    decreases events
  {
    events == [] || (Enabled(s, events[0]) && Runs(maxAttempts, Next(maxAttempts, s, events[0]), events[1..]))
  }

  function After(maxAttempts: nat, s: System, events: seq<Event>): System
    requires Runs(maxAttempts, s, events)
    decreases events
  {
    if events == [] then s else After(maxAttempts, Next(maxAttempts, s, events[0]), events[1..])
  }

  // No job is being processed, none was ever blocked, and all resource sets are empty.
  ghost predicate IsInitial(s: System) {
    && (forall key :: MembersOf(s, key) == {})
    && forall id :: id in s.jobs ==>
         var job := s.jobs[id];
         job.state != Processing && job.change.None? && !job.released && job.attempts == 0 && job.rescheduled == 0
  }

  lemma {:induction false} RunInvariant(maxAttempts: nat, s: System, events: seq<Event>)
    requires Invariant(maxAttempts, s) && Runs(maxAttempts, s, events)
    ensures Invariant(maxAttempts, After(maxAttempts, s, events))
    decreases events
  {
    if events != [] {
      StepInvariant(maxAttempts, s, events[0]);
      RunInvariant(maxAttempts, Next(maxAttempts, s, events[0]), events[1..]);
    }
  }

  /**
   * Mutual exclusion, over every interleaving of state changes, with failures anywhere: every resource set
   * has at most one member; a job in state Processing is that member if and only if it has not given up the
   * mutex since it entered; so of two jobs of a key in state Processing, at least one has given it up.
   */
  lemma MutualExclusion(maxAttempts: nat, s: System, events: seq<Event>, a: Id, b: Id)
    requires IsInitial(s) && Runs(maxAttempts, s, events)
    requires a in After(maxAttempts, s, events).jobs && b in After(maxAttempts, s, events).jobs
    ensures var t := After(maxAttempts, s, events);
            var first, second := t.jobs[a], t.jobs[b];
            && (first.state == Processing ==> (MembersOf(t, first.key) == {a} <==> !first.released))
            && (first.state == Processing && second.state == Processing && first.key == second.key ==>
                  a == b || first.released || second.released)
  {
    RunInvariant(maxAttempts, s, events);
  }

  lemma {:induction false} RunPrefix(maxAttempts: nat, s: System, events: seq<Event>, e: Event)
    requires Runs(maxAttempts, s, events + [e])
    ensures Runs(maxAttempts, s, events) && Enabled(After(maxAttempts, s, events), e)
    ensures After(maxAttempts, s, events + [e]) == Next(maxAttempts, After(maxAttempts, s, events), e)
    decreases events
  {
    if events == [] {
      assert [] + [e] == [e] && [e][1..] == [];
    } else {
      assert (events + [e])[1..] == events[1..] + [e];
      RunPrefix(maxAttempts, Next(maxAttempts, s, events[0]), events[1..], e);
    }
  }

  lemma {:induction false} RunPrefixes(maxAttempts: nat, s: System, events: seq<Event>)
    requires Runs(maxAttempts, s, events)
    ensures forall i :: 0 <= i <= |events| ==> Runs(maxAttempts, s, events[..i])
    decreases |events|
  {
    if events == [] {
    } else {
      var before := DropLast(events);
      assert events == before + [Last(events)] && events[..|events|] == events;
      RunPrefix(maxAttempts, s, before, Last(events));
      RunPrefixes(maxAttempts, s, before);
      assert forall i :: 0 <= i < |events| ==> events[..i] == before[..i];
    }
  }

  // At event number i the way out of Processing was applied, and the job's state has not changed since.
  predicate WayOutApplied(maxAttempts: nat, s: System, events: seq<Event>, id: Id, i: nat)
    requires i < |events|
  {
    && Runs(maxAttempts, s, events[..i])
    && var t := After(maxAttempts, s, events[..i]);
    && events[i] == Apply(id) && id in t.jobs && t.jobs[id].state == Processing
    && forall k :: i < k < |events| ==> events[k] != Commit(id)
  }

  // Another event neither applies a way out nor takes one back.
  lemma WayOutStays(maxAttempts: nat, s: System, events: seq<Event>, id: Id)
    requires events != [] && Last(events) != Commit(id)
    requires forall i :: 0 <= i < |events| ==> Runs(maxAttempts, s, events[..i]) && events[..i] == DropLast(events)[..i]
    requires var t := After(maxAttempts, s, events[..|events| - 1]);
             !(Last(events) == Apply(id) && id in t.jobs && t.jobs[id].state == Processing)
    ensures (exists i :: 0 <= i < |events| && WayOutApplied(maxAttempts, s, events, id, i))
       <==> (exists i :: 0 <= i < |DropLast(events)| && WayOutApplied(maxAttempts, s, DropLast(events), id, i))
  {
    var before := DropLast(events);
    if i :| 0 <= i < |before| && WayOutApplied(maxAttempts, s, before, id, i) {
      assert WayOutApplied(maxAttempts, s, events, id, i);
    }
    if i :| 0 <= i < |events| && WayOutApplied(maxAttempts, s, events, id, i) {
      assert i < |before| && WayOutApplied(maxAttempts, s, before, id, i);
    }
  }

  /** A job has given up the mutex exactly when its way out was applied since its state last changed. */
  lemma {:induction false} ReleasedMeans(maxAttempts: nat, s: System, events: seq<Event>, id: Id)
    requires IsInitial(s) && Runs(maxAttempts, s, events) && id in After(maxAttempts, s, events).jobs
    ensures After(maxAttempts, s, events).jobs[id].released
       <==> exists i :: 0 <= i < |events| && WayOutApplied(maxAttempts, s, events, id, i)
    decreases |events|
  {
    if events != [] {
      var before, e := DropLast(events), Last(events);
      assert events == before + [e];
      RunPrefixes(maxAttempts, s, events);
      RunPrefix(maxAttempts, s, before, e);
      assert forall i :: 0 <= i < |events| ==> events[..i] == before[..i];
      assert before[..|before|] == before;
      ReleasedMeans(maxAttempts, s, before, id);
      var t := After(maxAttempts, s, before);
      if e == Apply(id) && t.jobs[id].state == Processing {
        assert WayOutApplied(maxAttempts, s, events, id, |before|);
      } else if e != Commit(id) {
        WayOutStays(maxAttempts, s, events, id);
      }
    }
  }

  /** So over every run a job in state Processing owns the mutex exactly if no way out was applied since it entered. */
  lemma OwnsIffNoWayOut(maxAttempts: nat, s: System, events: seq<Event>, id: Id)
    requires IsInitial(s) && Runs(maxAttempts, s, events) && id in After(maxAttempts, s, events).jobs
    requires After(maxAttempts, s, events).jobs[id].state == Processing
    ensures var t := After(maxAttempts, s, events);
            MembersOf(t, t.jobs[id].key) == {id} <==>
              !exists i :: 0 <= i < |events| && WayOutApplied(maxAttempts, s, events, id, i)
  {
    MutualExclusion(maxAttempts, s, events, id, id);
    ReleasedMeans(maxAttempts, s, events, id);
  }

  /** Being blocked puts a job off at most as often as allowed; a slow lock uses up none of that. */
  lemma AttemptsBounded(maxAttempts: nat, s: System, events: seq<Event>, id: Id)
    requires IsInitial(s) && Runs(maxAttempts, s, events) && id in After(maxAttempts, s, events).jobs
    ensures var job := After(maxAttempts, s, events).jobs[id];
            && (maxAttempts > 0 ==> job.rescheduled <= maxAttempts)
            && (job.attempts <= maxAttempts ==> job.rescheduled == job.attempts)
            && (job.attempts > maxAttempts > 0 ==> job.rescheduled == maxAttempts)
  {
    RunInvariant(maxAttempts, s, events);
  }

  /** Without the rule that a job does not go from Processing to Processing, the second entry gives up the mutex. */
  lemma ReentryLosesMutex(maxAttempts: nat, key: Key, a: Id)
    ensures var entered := JobInfo(key, Processing, None, false, 0, 0);
            var s := System(map[a := entered], map[key := {a}]);
            var again := Next(maxAttempts, Next(maxAttempts, Next(maxAttempts, s, Elect(a, Processing, true, Some(a))), Apply(a)), Commit(a));
            Invariant(maxAttempts, s) && Occupies(again.jobs[a]) && MembersOf(again, key) == {}
  {
    var s := System(map[a := JobInfo(key, Processing, None, false, 0, 0)], map[key := {a}]);
    var s1 := Next(maxAttempts, s, Elect(a, Processing, true, Some(a)));
    assert MembersOf(s1, key) == {a};
  }

  lemma RunStep(maxAttempts: nat, s: System, e: Event, rest: seq<Event>)
    requires Enabled(s, e) && Runs(maxAttempts, Next(maxAttempts, s, e), rest)
    ensures Runs(maxAttempts, s, [e] + rest)
    ensures After(maxAttempts, s, [e] + rest) == After(maxAttempts, Next(maxAttempts, s, e), rest)
  {
    assert ([e] + rest)[1..] == rest;
  }

  // ----- what a failed outer transaction leaves behind

  // A change that fails after its filters have run, on the way out of Processing.
  predicate ExitFails(s: System, e: Event) {
    e.Fail? && e.id in s.jobs && s.jobs[e.id].state == Processing
    && s.jobs[e.id].change.Some? && s.jobs[e.id].change.value.applied
  }

  // A change to Processing that fails.
  predicate EntryFails(s: System, e: Event) {
    e.Fail? && e.id in s.jobs && Enters(s.jobs[e.id])
  }

  // Only a job on its way out has given up the mutex while it is in state Processing.
  predicate Settled(s: System) {
    forall id :: id in s.jobs && s.jobs[id].released ==> s.jobs[id].change.Some? && s.jobs[id].change.value.applied
  }

  // Every member of a resource set occupies its resource or is entering it.
  ghost predicate NoneAbandoned(s: System) {
    forall key, id :: id in MembersOf(s, key) ==>
      id in s.jobs && s.jobs[id].key == key && (Occupies(s.jobs[id]) || Enters(s.jobs[id]))
  }

  lemma StepSettled(maxAttempts: nat, s: System, e: Event)
    requires Invariant(maxAttempts, s) && Enabled(s, e) && Settled(s)
    ensures Settled(Next(maxAttempts, s, e)) <==> !ExitFails(s, e)
  {
    var s1 := Next(maxAttempts, s, e);
    assert s1.jobs[e.id].released ==> s.jobs[e.id].released || e.Apply?;
  }

  lemma StepAbandons(maxAttempts: nat, s: System, e: Event)
    requires Invariant(maxAttempts, s) && Enabled(s, e) && NoneAbandoned(s)
    ensures NoneAbandoned(Next(maxAttempts, s, e)) <==> !EntryFails(s, e)
  {
    var s1, job := Next(maxAttempts, s, e), s.jobs[e.id];
    forall key | key != job.key ensures MembersOf(s1, key) == MembersOf(s, key) {
    }
    if EntryFails(s, e) {
      assert e.id in MembersOf(s1, job.key) && !Occupies(s1.jobs[e.id]) && !Enters(s1.jobs[e.id]);
    } else {
      forall key, id | id in MembersOf(s1, key)
        ensures id in s1.jobs && s1.jobs[id].key == key && (Occupies(s1.jobs[id]) || Enters(s1.jobs[id]))
      {
        MemberStays(maxAttempts, s, e, key, id);
      }
    }
  }

  lemma MemberStays(maxAttempts: nat, s: System, e: Event, key: Key, id: Id)
    requires Invariant(maxAttempts, s) && Enabled(s, e) && NoneAbandoned(s) && !EntryFails(s, e)
    requires id in MembersOf(Next(maxAttempts, s, e), key)
    ensures var s1 := Next(maxAttempts, s, e);
            id in s1.jobs && s1.jobs[id].key == key && (Occupies(s1.jobs[id]) || Enters(s1.jobs[id]))
  {
    var job := s.jobs[e.id];
    assert key != job.key ==> MembersOf(Next(maxAttempts, s, e), key) == MembersOf(s, key);
    if id in MembersOf(s, key) {
      assert id in s.jobs && s.jobs[id].key == key && (Occupies(s.jobs[id]) || Enters(s.jobs[id]));
    }
  }

  ghost predicate AlwaysSettled(maxAttempts: nat, s: System, events: seq<Event>)
    requires Runs(maxAttempts, s, events)
    decreases events
  {
    Settled(s) && (events == [] || AlwaysSettled(maxAttempts, Next(maxAttempts, s, events[0]), events[1..]))
  }

  ghost predicate NeverAbandoned(maxAttempts: nat, s: System, events: seq<Event>)
    requires Runs(maxAttempts, s, events)
    decreases events
  {
    NoneAbandoned(s) && (events == [] || NeverAbandoned(maxAttempts, Next(maxAttempts, s, events[0]), events[1..]))
  }

  predicate NoExitFails(maxAttempts: nat, s: System, events: seq<Event>)
    requires Runs(maxAttempts, s, events)
    decreases events
  {
    events == [] || (!ExitFails(s, events[0]) && NoExitFails(maxAttempts, Next(maxAttempts, s, events[0]), events[1..]))
  }

  predicate NoEntryFails(maxAttempts: nat, s: System, events: seq<Event>)
    requires Runs(maxAttempts, s, events)
    decreases events
  {
    events == [] || (!EntryFails(s, events[0]) && NoEntryFails(maxAttempts, Next(maxAttempts, s, events[0]), events[1..]))
  }

  /**
   * In state Processing, only jobs on their way out are ever without the mutex exactly if no change out of
   * Processing fails after its filters have run.
   */
  lemma {:induction false} SettledIff(maxAttempts: nat, s: System, events: seq<Event>)
    requires Invariant(maxAttempts, s) && Settled(s) && Runs(maxAttempts, s, events)
    ensures AlwaysSettled(maxAttempts, s, events) <==> NoExitFails(maxAttempts, s, events)
    decreases events
  {
    if events != [] {
      var s1 := Next(maxAttempts, s, events[0]);
      StepInvariant(maxAttempts, s, events[0]);
      StepSettled(maxAttempts, s, events[0]);
      if Settled(s1) {
        SettledIff(maxAttempts, s1, events[1..]);
      }
    }
  }

  /** No job ever owns a mutex it does not use exactly if no change to Processing fails. */
  lemma {:induction false} AbandonedIff(maxAttempts: nat, s: System, events: seq<Event>)
    requires Invariant(maxAttempts, s) && NoneAbandoned(s) && Runs(maxAttempts, s, events)
    ensures NeverAbandoned(maxAttempts, s, events) <==> NoEntryFails(maxAttempts, s, events)
    decreases events
  {
    if events != [] {
      var s1 := Next(maxAttempts, s, events[0]);
      StepInvariant(maxAttempts, s, events[0]);
      StepAbandons(maxAttempts, s, events[0]);
      if NoneAbandoned(s1) {
        AbandonedIff(maxAttempts, s1, events[1..]);
      }
    }
  }

  lemma RunThree(maxAttempts: nat, s: System, e: Event, f: Event, g: Event, rest: seq<Event>) returns (t: System)
    requires Enabled(s, e) && Enabled(Next(maxAttempts, s, e), f)
    requires Enabled(Next(maxAttempts, Next(maxAttempts, s, e), f), g)
    requires Runs(maxAttempts, Next(maxAttempts, Next(maxAttempts, Next(maxAttempts, s, e), f), g), rest)
    ensures Runs(maxAttempts, s, [e, f, g] + rest)
    ensures t == Next(maxAttempts, Next(maxAttempts, Next(maxAttempts, s, e), f), g)
    ensures After(maxAttempts, s, [e, f, g] + rest) == After(maxAttempts, t, rest)
  {
    var s1 := Next(maxAttempts, s, e);
    var s2 := Next(maxAttempts, s1, f);
    t := Next(maxAttempts, s2, g);
    RunStep(maxAttempts, s2, g, rest);
    RunStep(maxAttempts, s1, f, [g] + rest);
    RunStep(maxAttempts, s, e, [f] + ([g] + rest));
    assert [e] + ([f] + ([g] + rest)) == [e, f, g] + rest;
  }

  /**
   * The filter gives the mutex up in a transaction of its own: when the change out of Processing then fails,
   * a second job of the key gets to state Processing beside the first.
   */
  lemma TwoProcessing(maxAttempts: nat, key: Key, a: Id, b: Id, queued: State, done: State) returns (s: System, events: seq<Event>)
    requires a != b && queued != Processing && done != Processing
    ensures IsInitial(s) && Runs(maxAttempts, s, events)
    ensures var t := After(maxAttempts, s, events);
            && a in t.jobs && t.jobs[a].state == Processing && t.jobs[a].key == key
            && b in t.jobs && t.jobs[b].state == Processing && t.jobs[b].key == key
            && MembersOf(t, key) == {b}
  {
    var idle := JobInfo(key, queued, None, false, 0, 0);
    s := System(map[a := idle, b := idle], map[]);
    var s3 := Entered(maxAttempts, s, a);
    var leave := Elect(a, done, true, Some(a));
    var s4 := Next(maxAttempts, s3, leave);
    assert MembersOf(s4, key) == {a};
    var s5 := Next(maxAttempts, s4, Apply(a));
    var s6 := Next(maxAttempts, s5, Fail(a));
    assert MembersOf(s6, key) == {};
    var s9 := Entered(maxAttempts, s6, b);
    var t9 := RunThree(maxAttempts, s6, Elect(b, Processing, true, None), Apply(b), Commit(b), []);
    var third := [Elect(b, Processing, true, None), Apply(b), Commit(b)] + [];
    var t6 := RunThree(maxAttempts, s3, leave, Apply(a), Fail(a), third);
    var second := [leave, Apply(a), Fail(a)] + third;
    var t3 := RunThree(maxAttempts, s, Elect(a, Processing, true, None), Apply(a), Commit(a), second);
    events := [Elect(a, Processing, true, None), Apply(a), Commit(a)] + second;
  }

  // A job gets the mutex and enters Processing.
  lemma Entered(maxAttempts: nat, s: System, a: Id) returns (t: System)
    requires a in s.jobs && s.jobs[a].change.None? && s.jobs[a].state != Processing && !s.jobs[a].released
    requires MembersOf(s, s.jobs[a].key) == {}
    ensures var s1 := Next(maxAttempts, s, Elect(a, Processing, true, None));
            var s2 := Next(maxAttempts, s1, Apply(a));
            && Enabled(s, Elect(a, Processing, true, None)) && Enabled(s1, Apply(a)) && Enabled(s2, Commit(a))
            && t == Next(maxAttempts, s2, Commit(a))
    ensures t.jobs == s.jobs[a := s.jobs[a].(state := Processing)] && MembersOf(t, s.jobs[a].key) == {a}
  {
    var s1 := Next(maxAttempts, s, Elect(a, Processing, true, None));
    var s2 := Next(maxAttempts, s1, Apply(a));
    assert MembersOf(s1, s.jobs[a].key) == {a};
    t := Next(maxAttempts, s2, Commit(a));
  }

  /**
   * A failed commit leaves the mutex with its job; if the job then leaves without being processed, as when
   * it is deleted, it keeps the mutex.
   */
  lemma AbandonedMutex(maxAttempts: nat, key: Key, a: Id, queued: State, gone: State) returns (s: System, events: seq<Event>)
    requires queued != Processing && gone != Processing
    ensures IsInitial(s) && Runs(maxAttempts, s, events)
    ensures var t := After(maxAttempts, s, events);
            a in t.jobs && t.jobs[a].state == gone && t.jobs[a].key == key && MembersOf(t, key) == {a}
  {
    s := System(map[a := JobInfo(key, queued, None, false, 0, 0)], map[]);
    var elect, leave := Elect(a, Processing, true, None), Elect(a, gone, true, Some(a));
    var s1 := Next(maxAttempts, s, elect);
    var s2 := Next(maxAttempts, s1, Fail(a));
    var s3 := Next(maxAttempts, s2, leave);
    var s4 := Next(maxAttempts, s3, Apply(a));
    var s5 := Next(maxAttempts, s4, Commit(a));
    assert MembersOf(s1, key) == {a} && MembersOf(s3, key) == {a};
    assert Runs(maxAttempts, s5, []);
    RunStep(maxAttempts, s4, Commit(a), []);
    RunStep(maxAttempts, s3, Apply(a), [Commit(a)] + []);
    RunStep(maxAttempts, s2, leave, [Apply(a)] + ([Commit(a)] + []));
    RunStep(maxAttempts, s1, Fail(a), [leave] + ([Apply(a)] + ([Commit(a)] + [])));
    events := [elect] + ([Fail(a)] + ([leave] + ([Apply(a)] + ([Commit(a)] + []))));
    RunStep(maxAttempts, s, elect, [Fail(a)] + ([leave] + ([Apply(a)] + ([Commit(a)] + []))));
  }

  /** And keeps it for good: while nothing happens to that job, no other job of the resource gets to be processed. */
  lemma {:induction false} AbandonedForGood(maxAttempts: nat, s: System, events: seq<Event>, a: Id)
    requires Runs(maxAttempts, s, events) && a in s.jobs && MembersOf(s, s.jobs[a].key) == {a}
    requires forall i :: 0 <= i < |events| ==> events[i].id != a
    requires forall id :: id in s.jobs && id != a && s.jobs[id].key == s.jobs[a].key ==> Waits(s.jobs[id])
    ensures var t := After(maxAttempts, s, events);
            && a in t.jobs && MembersOf(t, t.jobs[a].key) == {a}
            && forall id :: id in t.jobs && id != a && t.jobs[id].key == t.jobs[a].key ==> Waits(t.jobs[id])
    decreases events
  {
    if events != [] {
      var e := events[0];
      var s1 := Next(maxAttempts, s, e);
      assert MembersOf(s1, s.jobs[a].key) == {a};
      AbandonedForGood(maxAttempts, s1, events[1..], a);
    }
  }

  // Not processed, and not about to be.
  predicate Waits(job: JobInfo) {
    job.state != Processing && (job.change.Some? ==> job.change.value.target != Processing)
  }
}
