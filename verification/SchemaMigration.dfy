/**
 * Schema migrations: every collection is migrated page by page from its stored version to its current one.
 * What each document goes through when nothing fails, what a failure leaves behind, and what is true after
 * any number of attempts.
 */
module SchemaMigration {
  import opened Text

  const LIMIT: nat := 10000

  // A migration to a version, and the documents (by their place in id order) for which it fails.
  type Migrations<!D> = (nat, D) -> D
  type Failures = (nat, nat) -> bool

  /** A document taken through the migrations from + 1, ..., to, in this order. */
  function Steps<D>(f: Migrations<D>, from: nat, to: nat, d: D): D
    decreases if from < to then to - from else 0
  {
    if from >= to then d else Steps(f, from + 1, to, f(from + 1, d))
  }

  // ----- one page

  /** Documents lo, ..., hi - 1 taken through one migration, except those for which it fails. */
  function Batched<D>(docs: seq<D>, lo: nat, hi: nat, version: nat, f: Migrations<D>, fails: Failures): seq<D> {
    seq(|docs|, i requires 0 <= i < |docs| =>
      if lo <= i < hi && !fails(i, version) then f(version, docs[i]) else docs[i])
  }

  predicate BatchOk(lo: nat, hi: nat, version: nat, fails: Failures) {
    forall i :: lo <= i < hi ==> !fails(i, version)
  }

  /** One page from a version to another; it stops after the first migration that fails for some document. */
  function PageMigrated<D>(docs: seq<D>, lo: nat, hi: nat, version: nat, target: nat, f: Migrations<D>, fails: Failures): (r: (seq<D>, bool))
    ensures |r.0| == |docs|
    decreases if version < target then target - version else 0
  {
    if version >= target then (docs, true)
    else
      var docs1 := Batched(docs, lo, hi, version + 1, f, fails);
      if !BatchOk(lo, hi, version + 1, fails) then (docs1, false)
      else PageMigrated(docs1, lo, hi, version + 1, target, f, fails)
  }

  // What a page looks like once migration number last was tried on it and failed for some document.
  ghost predicate StoppedAt<D(!new)>(docs: seq<D>, after: seq<D>, lo: nat, hi: nat, version: nat, last: nat, f: Migrations<D>, fails: Failures)
    requires |after| == |docs| && last > 0
  {
    && !BatchOk(lo, hi, last, fails)
    && forall i :: 0 <= i < |docs| && lo <= i < hi ==>
         after[i] == Steps(f, version, if fails(i, last) then last - 1 else last, docs[i])
  }

  /** A page is migrated completely, or it stops at a version; other pages are not touched. */
  lemma {:induction false} PageOutcome<D(!new)>(docs: seq<D>, lo: nat, hi: nat, version: nat, target: nat, f: Migrations<D>, fails: Failures)
      returns (last: nat)
    requires version <= target
    ensures var (after, ok) := PageMigrated(docs, lo, hi, version, target, f, fails);
            && (forall i :: 0 <= i < |docs| && !(lo <= i < hi) ==> after[i] == docs[i])
            && (ok ==> forall i :: 0 <= i < |docs| && lo <= i < hi ==> after[i] == Steps(f, version, target, docs[i]))
            && (ok ==> forall v :: version < v <= target ==> BatchOk(lo, hi, v, fails))
            && (!ok ==> version < last <= target && StoppedAt(docs, after, lo, hi, version, last, f, fails))
            && (!ok ==> forall v :: version < v < last ==> BatchOk(lo, hi, v, fails))
    decreases if version < target then target - version else 0
  {
    last := version + 1;
    if version < target {
      var docs1 := Batched(docs, lo, hi, version + 1, f, fails);
      if BatchOk(lo, hi, version + 1, fails) {
        last := PageOutcome(docs1, lo, hi, version + 1, target, f, fails);
        forall i | 0 <= i < |docs| && lo <= i < hi
          ensures docs1[i] == f(version + 1, docs[i])
          ensures forall to :: to > version ==> Steps(f, version, to, docs[i]) == Steps(f, version + 1, to, docs1[i])
        {
        }
      } else {
        forall i | 0 <= i < |docs| && lo <= i < hi
          ensures docs1[i] == Steps(f, version, if fails(i, last) then last - 1 else last, docs[i])
        {
          assert Steps(f, last, last, f(last, docs[i])) == f(last, docs[i]);
        }
      }
    }
  }

  // ----- one collection

  function PageEnd(skip: nat, count: nat): nat {
    if skip + LIMIT < count then skip + LIMIT else count
  }

  function CollectionMigrated<D>(docs: seq<D>, skip: nat, version: nat, target: nat, f: Migrations<D>, fails: Failures): (r: (seq<D>, bool))
    ensures |r.0| == |docs|
    decreases |docs| - skip
  {
    if skip >= |docs| then (docs, true)
    else
      var (docs1, ok) := PageMigrated(docs, skip, PageEnd(skip, |docs|), version, target, f, fails);
      if !ok then (docs1, false) else CollectionMigrated(docs1, skip + LIMIT, version, target, f, fails)
  }

  predicate NoFailure(lo: nat, hi: nat, version: nat, target: nat, fails: Failures) {
    forall i, v :: lo <= i < hi && version < v <= target ==> !fails(i, v)
  }

  // The migration to last is the first that fails on the page, which is the first with such a migration.
  predicate FirstFailure(page: nat, last: nat, skip: nat, count: nat, version: nat, target: nat, fails: Failures) {
    && skip <= page < count && version < last <= target
    && NoFailure(skip, page, version, target, fails)
    && (forall v :: version < v < last ==> BatchOk(page, PageEnd(page, count), v, fails))
    && !BatchOk(page, PageEnd(page, count), last, fails)
  }

  lemma NoFailureOnPage(lo: nat, hi: nat, version: nat, target: nat, fails: Failures)
    requires forall v :: version < v <= target ==> BatchOk(lo, hi, v, fails)
    ensures NoFailure(lo, hi, version, target, fails)
  {
    forall i, v | lo <= i < hi && version < v <= target ensures !fails(i, v) {
      assert BatchOk(lo, hi, v, fails);
    }
  }

  /**
   * When it succeeds, every document went through the migrations version + 1, ..., target, each once and in
   * order. Otherwise the documents before some page did, that page stopped at some migration, and the
   * documents after it went through none.
   */
  lemma {:induction false} CollectionOutcome<D(!new)>(docs: seq<D>, skip: nat, version: nat, target: nat, f: Migrations<D>, fails: Failures)
      returns (page: nat, last: nat)
    requires version <= target
    ensures var (after, ok) := CollectionMigrated(docs, skip, version, target, f, fails);
            && (forall i :: 0 <= i < |docs| && i < skip ==> after[i] == docs[i])
            && (ok ==> forall i :: skip <= i < |docs| ==> after[i] == Steps(f, version, target, docs[i]))
            && (ok ==> NoFailure(skip, |docs|, version, target, fails))
            && (!ok ==>
                  && (page - skip) % LIMIT == 0 && FirstFailure(page, last, skip, |docs|, version, target, fails)
                  && StoppedAt(docs, after, page, PageEnd(page, |docs|), version, last, f, fails)
                  && (forall i :: skip <= i < page ==> after[i] == Steps(f, version, target, docs[i]))
                  && (forall i :: PageEnd(page, |docs|) <= i < |docs| ==> after[i] == docs[i]))
    decreases |docs| - skip
  {
    page, last := skip, version + 1;
    if skip < |docs| {
      var end := PageEnd(skip, |docs|);
      last := PageOutcome(docs, skip, end, version, target, f, fails);
      var (docs1, ok) := PageMigrated(docs, skip, end, version, target, f, fails);
      if ok {
        page, last := CollectionOutcome(docs1, skip + LIMIT, version, target, f, fails);
        NoFailureOnPage(skip, end, version, target, fails);
      }
    }
  }

  /** It succeeds exactly when none of the missing migrations fails for any document. */
  lemma SucceedsIff<D(!new)>(docs: seq<D>, version: nat, target: nat, f: Migrations<D>, fails: Failures)
    requires version <= target
    ensures CollectionMigrated(docs, 0, version, target, f, fails).1 <==> NoFailure(0, |docs|, version, target, fails)
  {
    var page, last := CollectionOutcome(docs, 0, version, target, f, fails);
    if !CollectionMigrated(docs, 0, version, target, f, fails).1 {
      var i :| page <= i < PageEnd(page, |docs|) && fails(i, last);
      assert 0 <= i < |docs|;
    }
  }

  // ----- attempts

  // A collection and its stored version.
  datatype Collection<D> = Collection(docs: seq<D>, version: nat)

  /** One attempt: the stored version moves only when every page is done; a lower target migrates nothing. */
  function Attempted<D>(c: Collection<D>, target: nat, f: Migrations<D>, fails: Failures): (r: Collection<D>)
    ensures |r.docs| == |c.docs|
  {
    if c.version == target then c
    else
      var (docs, ok) := CollectionMigrated(c.docs, 0, c.version, target, f, fails);
      Collection(docs, if ok then target else c.version)
  }

  // Each document as the list of migrations it went through.
  type History = seq<nat>

  function Noted(version: nat, h: History): History {
    h + [version]
  }

  function Range(from: nat, to: nat): seq<nat>
    decreases if from < to then to - from else 0
  {
    if from >= to then [] else [from + 1] + Range(from + 1, to)
  }

  lemma {:induction false} StepsNoted(from: nat, to: nat, h: History)
    ensures Steps(Noted, from, to, h) == h + Range(from, to)
    decreases if from < to then to - from else 0
  {
    if from < to {
      StepsNoted(from + 1, to, h + [from + 1]);
      PlusAssoc(h, [from + 1], Range(from + 1, to));
    } else {
      assert h + [] == h;
    }
  }

  lemma {:induction false} RangeHas(from: nat, to: nat, v: nat)
    ensures v in Range(from, to) <==> from < v <= to
    decreases if from < to then to - from else 0
  {
    if from < to {
      RangeHas(from + 1, to, v);
    }
  }

  /** An attempt that succeeds adds to each document's history exactly the missing versions, ascending. */
  lemma SuccessAddsRange(c: Collection<History>, target: nat, fails: Failures, i: nat)
    requires c.version < target && i < |c.docs| && CollectionMigrated(c.docs, 0, c.version, target, Noted, fails).1
    ensures Attempted(c, target, Noted, fails).docs[i] == c.docs[i] + Range(c.version, target)
    ensures Attempted(c, target, Noted, fails).version == target
  {
    var page, last := CollectionOutcome(c.docs, 0, c.version, target, Noted, fails);
    StepsNoted(c.version, target, c.docs[i]);
  }

  // Every document went through every migration after base up to the stored version.
  predicate UpToDate(c: Collection<History>, base: nat) {
    forall i, v :: 0 <= i < |c.docs| && base < v <= c.version ==> v in c.docs[i]
  }

  datatype Attempt = Attempt(target: nat, fails: Failures)

  function Ran(c: Collection<History>, attempts: seq<Attempt>): Collection<History>
    decreases |attempts|
  {
    if attempts == [] then c
    else
      var a := Last(attempts);
      Attempted(Ran(c, DropLast(attempts)), a.target, Noted, a.fails)
  }

  lemma AttemptKeeps(c: Collection<History>, base: nat, a: Attempt)
    requires UpToDate(c, base)
    ensures UpToDate(Attempted(c, a.target, Noted, a.fails), base)
  {
    var c1 := Attempted(c, a.target, Noted, a.fails);
    forall i, v | 0 <= i < |c1.docs| && base < v <= c1.version ensures v in c1.docs[i] {
      if c.version < a.target {
        var to := DocumentGrows(c, a, i);
        StepsNoted(c.version, to, c.docs[i]);
        RangeHas(c.version, a.target, v);
      } else {
        DowngradeMigratesNothing(c.docs, 0, c.version, a.target, a.fails);
      }
    }
  }

  // Whatever fails, a document only goes through further migrations, and through all if none fails.
  lemma DocumentGrows(c: Collection<History>, a: Attempt, i: nat) returns (to: nat)
    requires c.version < a.target && i < |c.docs|
    ensures var c1 := Attempted(c, a.target, Noted, a.fails);
            && c.version <= to <= a.target && c1.docs[i] == Steps(Noted, c.version, to, c.docs[i])
            && (c1.version == a.target ==> to == a.target)
  {
    var page, last := CollectionOutcome(c.docs, 0, c.version, a.target, Noted, a.fails);
    var ok := CollectionMigrated(c.docs, 0, c.version, a.target, Noted, a.fails).1;
    if ok || i < page {
      to := a.target;
    } else if i < PageEnd(page, |c.docs|) {
      to := if a.fails(i, last) then last - 1 else last;
    } else {
      to := c.version;
    }
  }

  lemma {:induction false} DowngradeMigratesNothing<D>(docs: seq<D>, skip: nat, version: nat, target: nat, fails: Failures)
    requires target <= version
    ensures forall f: Migrations<D> :: CollectionMigrated(docs, skip, version, target, f, fails) == (docs, true)
    decreases |docs| - skip
  {
    if skip < |docs| {
      DowngradeMigratesNothing(docs, skip + LIMIT, version, target, fails);
    }
  }

  /** After any attempts, failed or not, no document has missed a migration up to the stored version. */
  lemma {:induction false} RunsUpToDate(c: Collection<History>, attempts: seq<Attempt>)
    ensures UpToDate(Ran(c, attempts), c.version)
    decreases |attempts|
  {
    if attempts != [] {
      RunsUpToDate(c, DropLast(attempts));
      AttemptKeeps(Ran(c, DropLast(attempts)), c.version, Last(attempts));
    }
  }

  // How far a failed attempt took a document, given its first failure.
  function Reached(i: nat, page: nat, last: nat, count: nat, version: nat, target: nat, fails: Failures): nat
    requires last > 0
  {
    if i < page then target
    else if i >= PageEnd(page, count) then version
    else if fails(i, last) then last - 1
    else last
  }

  predicate Repeats(h: History) {
    exists a, b :: 0 <= a < b < |h| && h[a] == h[b]
  }

  lemma {:induction false} RangeAscends(from: nat, to: nat)
    ensures forall a, b :: 0 <= a < b < |Range(from, to)| ==> Range(from, to)[a] < Range(from, to)[b]
    decreases if from < to then to - from else 0
  {
    if from < to {
      RangeAscends(from + 1, to);
      forall b | 0 < b < |Range(from, to)| ensures Range(from, to)[b] > from + 1 {
        assert Range(from, to)[b] == Range(from + 1, to)[b - 1];
        RangeHas(from + 1, to, Range(from + 1, to)[b - 1]);
      }
    }
  }

  lemma RangeTwice(from: nat, to: nat, target: nat)
    requires from <= to <= target
    ensures Repeats(Range(from, to) + Range(from, target)) <==> from < to
  {
    var h := Range(from, to) + Range(from, target);
    if from < to {
      var k := |Range(from, to)|;
      assert h[0] == from + 1 && h[k] == from + 1;
    } else {
      RangeAscends(from, target);
      assert h == Range(from, target);
    }
  }

  // What a failed attempt adds to a document's history.
  lemma FailureReaches(c: Collection<History>, target: nat, fails: Failures, i: nat) returns (page: nat, last: nat)
    requires c.version < target && i < |c.docs| && !NoFailure(0, |c.docs|, c.version, target, fails)
    ensures page % LIMIT == 0 && FirstFailure(page, last, 0, |c.docs|, c.version, target, fails)
    ensures var to, c1 := Reached(i, page, last, |c.docs|, c.version, target, fails), Attempted(c, target, Noted, fails);
            c.version <= to <= target && c1.version == c.version && c1.docs[i] == c.docs[i] + Range(c.version, to)
  {
    SucceedsIff(c.docs, c.version, target, Noted, fails);
    page, last := CollectionOutcome(c.docs, 0, c.version, target, Noted, fails);
    StepsNoted(c.version, Reached(i, page, last, |c.docs|, c.version, target, fails), c.docs[i]);
  }

  /**
   * The attempt after a failed one starts again from the stored version: it repeats for every document the
   * migrations the failed one took it through. A document goes through one twice if and only if its page
   * came before the failing one, or is the failing one and got past its first missing migration.
   */
  lemma FailureRepeats(c: Collection<History>, target: nat, fails: Failures, again: Failures, i: nat)
      returns (page: nat, last: nat)
    requires c.version < target && i < |c.docs|
    requires !NoFailure(0, |c.docs|, c.version, target, fails) && NoFailure(0, |c.docs|, c.version, target, again)
    ensures page % LIMIT == 0 && FirstFailure(page, last, 0, |c.docs|, c.version, target, fails)
    ensures var to := Reached(i, page, last, |c.docs|, c.version, target, fails);
            var done := Attempted(Attempted(c, target, Noted, fails), target, Noted, again);
            && done.version == target
            && done.docs[i] == c.docs[i] + (Range(c.version, to) + Range(c.version, target))
            && (c.docs[i] == [] ==> (Repeats(done.docs[i]) <==> to > c.version))
  {
    page, last := FailureReaches(c, target, fails, i);
    var c1 := Attempted(c, target, Noted, fails);
    var to := Reached(i, page, last, |c.docs|, c.version, target, fails);
    SucceedsIff(c1.docs, c.version, target, Noted, again);
    SuccessAddsRange(c1, target, again, i);
    PlusAssoc(c.docs[i], Range(c.version, to), Range(c.version, target));
    RangeTwice(c.version, to, target);
    PlusNothing(Range(c.version, to) + Range(c.version, target));
  }

  // ----- how often, over any run of attempts

  function PageStart(i: nat): nat {
    i - i % LIMIT
  }

  /** An attempt takes a document through a migration: nothing fails before that, nor this migration of it. */
  predicate GoesThrough(c: Collection<History>, a: Attempt, i: nat, v: nat) {
    var page := PageStart(i);
    && c.version < v <= a.target
    && NoFailure(0, page, c.version, a.target, a.fails)
    && NoFailure(page, PageEnd(page, |c.docs|), c.version, v - 1, a.fails)
    && !a.fails(i, v)
  }

  // A failed attempt leaves the stored version where it was.
  predicate Fails(c: Collection<History>, a: Attempt) {
    c.version < a.target && !NoFailure(0, |c.docs|, c.version, a.target, a.fails)
  }

  lemma PagesApart(page: nat, i: nat, count: nat)
    requires page % LIMIT == 0 && page < count && i < count
    ensures i < page ==> PageEnd(PageStart(i), count) <= page
    ensures page <= i < PageEnd(page, count) ==> PageStart(i) == page
    ensures PageEnd(page, count) <= i ==> PageEnd(page, count) <= PageStart(i)
    ensures PageStart(i) <= i < PageEnd(PageStart(i), count)
  {
  }

  /** It goes through exactly the migrations up to where the attempt took it. */
  lemma ReachedIff(c: Collection<History>, a: Attempt, i: nat, v: nat, page: nat, last: nat)
    requires i < |c.docs| && c.version < v <= a.target && page % LIMIT == 0
    requires FirstFailure(page, last, 0, |c.docs|, c.version, a.target, a.fails)
    ensures GoesThrough(c, a, i, v) <==> v <= Reached(i, page, last, |c.docs|, c.version, a.target, a.fails)
  {
    PagesApart(page, i, |c.docs|);
    var end := PageEnd(page, |c.docs|);
    var bad :| page <= bad < end && a.fails(bad, last);
    if page <= i < end && v <= last {
      NoFailureOnPage(page, end, c.version, v - 1, a.fails);
      assert v < last ==> BatchOk(page, end, v, a.fails);
    }
  }

  lemma {:induction false} RangeCounts(from: nat, to: nat, v: nat)
    ensures multiset(Range(from, to))[v] == if from < v <= to then 1 else 0
    decreases if from < to then to - from else 0
  {
    if from < to {
      RangeCounts(from + 1, to, v);
    }
  }

  lemma AttemptVersion(c: Collection<History>, a: Attempt)
    ensures Attempted(c, a.target, Noted, a.fails).version == if Fails(c, a) then c.version else a.target
  {
    if c.version < a.target {
      SucceedsIff(c.docs, c.version, a.target, Noted, a.fails);
    } else {
      DowngradeMigratesNothing(c.docs, 0, c.version, a.target, a.fails);
    }
  }

  lemma FailedAdds(c: Collection<History>, a: Attempt, i: nat) returns (to: nat)
    requires i < |c.docs| && Fails(c, a)
    ensures Attempted(c, a.target, Noted, a.fails).docs[i] == c.docs[i] + Range(c.version, to)
    ensures forall v: nat :: GoesThrough(c, a, i, v) <==> c.version < v <= to
  {
    var page, last := FailureReaches(c, a.target, a.fails, i);
    to := Reached(i, page, last, |c.docs|, c.version, a.target, a.fails);
    forall v: nat | c.version < v <= a.target ensures GoesThrough(c, a, i, v) <==> v <= to {
      ReachedIff(c, a, i, v, page, last);
    }
  }

  lemma SucceededAdds(c: Collection<History>, a: Attempt, i: nat)
    requires i < |c.docs| && c.version < a.target && !Fails(c, a)
    ensures Attempted(c, a.target, Noted, a.fails).docs[i] == c.docs[i] + Range(c.version, a.target)
    ensures forall v: nat :: GoesThrough(c, a, i, v) <==> c.version < v <= a.target
  {
    SucceedsIff(c.docs, c.version, a.target, Noted, a.fails);
    SuccessAddsRange(c, a.target, a.fails, i);
    PagesApart(0, i, |c.docs|);
  }

  /** One attempt adds a migration to a document's history once or not at all. */
  lemma AttemptAdds(c: Collection<History>, a: Attempt, i: nat, v: nat)
    requires i < |c.docs|
    ensures multiset(Attempted(c, a.target, Noted, a.fails).docs[i])[v]
         == multiset(c.docs[i])[v] + if GoesThrough(c, a, i, v) then 1 else 0
  {
    if c.version < a.target {
      var to := a.target;
      if Fails(c, a) {
        to := FailedAdds(c, a, i);
      } else {
        SucceededAdds(c, a, i);
      }
      RangeCounts(c.version, to, v);
    } else {
      DowngradeMigratesNothing(c.docs, 0, c.version, a.target, a.fails);
    }
  }

  // The attempts of a run that took document i through migration v, and those among them that failed.
  function Passes(c: Collection<History>, attempts: seq<Attempt>, i: nat, v: nat): nat
    decreases |attempts|
  {
    if attempts == [] then 0
    else
      Passes(c, DropLast(attempts), i, v)
      + if GoesThrough(Ran(c, DropLast(attempts)), Last(attempts), i, v) then 1 else 0
  }

  function FailedPasses(c: Collection<History>, attempts: seq<Attempt>, i: nat, v: nat): nat
    decreases |attempts|
  {
    if attempts == [] then 0
    else
      var before, a := Ran(c, DropLast(attempts)), Last(attempts);
      FailedPasses(c, DropLast(attempts), i, v) + if GoesThrough(before, a, i, v) && Fails(before, a) then 1 else 0
  }

  // No attempt has a target below the stored version.
  predicate NoDowngrade(c: Collection<History>, attempts: seq<Attempt>)
    decreases |attempts|
  {
    attempts == [] ||
    (NoDowngrade(c, DropLast(attempts)) && Ran(c, DropLast(attempts)).version <= Last(attempts).target)
  }

  lemma {:induction false} RanDocs(c: Collection<History>, attempts: seq<Attempt>)
    ensures |Ran(c, attempts).docs| == |c.docs|
    decreases |attempts|
  {
    if attempts != [] {
      RanDocs(c, DropLast(attempts));
    }
  }

  /** Over every run, a document goes through a migration as often as attempts took it through. */
  lemma {:induction false} TimesThrough(c: Collection<History>, attempts: seq<Attempt>, i: nat, v: nat)
    requires i < |c.docs|
    ensures |Ran(c, attempts).docs| == |c.docs|
    ensures multiset(Ran(c, attempts).docs[i])[v] == multiset(c.docs[i])[v] + Passes(c, attempts, i, v)
    decreases |attempts|
  {
    if attempts != [] {
      TimesThrough(c, DropLast(attempts), i, v);
      AttemptAdds(Ran(c, DropLast(attempts)), Last(attempts), i, v);
    }
  }

  /** If no attempt goes back, that is once for every failed one, and once when the stored version gets there. */
  lemma {:induction false} PassesOf(c: Collection<History>, attempts: seq<Attempt>, i: nat, v: nat)
    requires i < |c.docs| && c.version < v && NoDowngrade(c, attempts)
    ensures Passes(c, attempts, i, v) == FailedPasses(c, attempts, i, v) + if v <= Ran(c, attempts).version then 1 else 0
    decreases |attempts|
  {
    if attempts != [] {
      var before, a := Ran(c, DropLast(attempts)), Last(attempts);
      PassesOf(c, DropLast(attempts), i, v);
      RanDocs(c, DropLast(attempts));
      AttemptVersion(before, a);
      if !Fails(before, a) && before.version < a.target {
        SucceededAdds(before, a, i);
      }
    }
  }

  /**
   * So a document goes through a migration more than once exactly if a failed attempt took it through and
   * the stored version has got there since, or two failed ones did.
   */
  lemma RepeatedIff(c: Collection<History>, attempts: seq<Attempt>, i: nat, v: nat)
    requires i < |c.docs| && c.docs[i] == [] && c.version < v && NoDowngrade(c, attempts)
    ensures |Ran(c, attempts).docs| == |c.docs|
    ensures multiset(Ran(c, attempts).docs[i])[v] > 1
       <==> FailedPasses(c, attempts, i, v) > if v <= Ran(c, attempts).version then 0 else 1
  {
    TimesThrough(c, attempts, i, v);
    PassesOf(c, attempts, i, v);
  }

  // The document that starts the second page cannot be migrated.
  function FailsOnSecondPage(i: nat, v: nat): bool { i == LIMIT }
  function NeverFails(i: nat, v: nat): bool { false }

  /** For instance, when an attempt fails on the second page, the first page is migrated twice. */
  lemma FailureRepeatsFirstPage(docs: seq<History>)
    requires |docs| > LIMIT && forall i :: 0 <= i < |docs| ==> docs[i] == []
    ensures var c := Attempted(Attempted(Collection(docs, 0), 1, Noted, FailsOnSecondPage), 1, Noted, NeverFails);
            c.version == 1 && c.docs[0] == [1, 1] && c.docs[LIMIT] == [1]
  {
    assert FailsOnSecondPage(LIMIT, 1);
    assert Range(0, 1) == [1] + Range(1, 1) == [1];
    var page, last := FailureRepeats(Collection(docs, 0), 1, FailsOnSecondPage, NeverFails, 0);
    page, last := FailureRepeats(Collection(docs, 0), 1, FailsOnSecondPage, NeverFails, LIMIT);
    assert FailsOnSecondPage(LIMIT, last) && page == LIMIT;
  }

  // ----- the driver

  // A collection's service, with the version its documents should have.
  datatype DocService = DocService(collection: string, schemaVersion: nat)

  ghost predicate OnlyChanged<D>(before: map<string, seq<D>>, after: map<string, seq<D>>, name: string) {
    && name in before && after.Keys == before.Keys
    && forall n :: n in before && n != name ==> after[n] == before[n]
  }

  class RealtimeServer<!D> {
    const migrationsDisabled: bool
    var docs: map<string, seq<D>>            // by collection, in the order of their ids
    var schemaVersions: map<string, nat>

    constructor (disabled: bool, docs0: map<string, seq<D>>, versions: map<string, nat>)
      ensures migrationsDisabled == disabled && docs == docs0 && schemaVersions == versions
    {
      migrationsDisabled, docs, schemaVersions := disabled, docs0, versions;
    }

    ghost function Stored(name: string): Collection<D>
      reads this
      requires name in docs
    {
      Collection(docs[name], if name in schemaVersions then schemaVersions[name] else 0)
    }

    /** One migration of the documents of a page; it goes through all of them even if it fails for some. */
    method MigrateBatch(name: string, lo: nat, hi: nat, docVersion: nat, f: Migrations<D>, fails: Failures) returns (ok: bool)
      requires name in docs && lo <= hi <= |docs[name]|
      modifies this`docs
      ensures OnlyChanged(old(docs), docs, name)
      ensures docs[name] == Batched(old(docs[name]), lo, hi, docVersion, f, fails)
      ensures ok == BatchOk(lo, hi, docVersion, fails)
    {
      ghost var before := docs[name];
      ok := true;
      assert Batched(before, lo, lo, docVersion, f, fails) == before;
      for i := lo to hi
        invariant OnlyChanged(old(docs), docs, name) && docs[name] == Batched(before, lo, i, docVersion, f, fails)
        invariant ok == BatchOk(lo, i, docVersion, fails)
      {
        BatchGrows(before, lo, i, docVersion, f, fails);
        if fails(i, docVersion) {
          ok := false;
        } else {
          docs := docs[name := docs[name][i := f(docVersion, docs[name][i])]];
        }
      }
    }

    method MigratePage(name: string, lo: nat, hi: nat, curVersion: nat, version: nat, f: Migrations<D>, fails: Failures) returns (ok: bool)
      requires name in docs && lo <= hi <= |docs[name]|
      modifies this`docs
      ensures OnlyChanged(old(docs), docs, name)
      ensures (docs[name], ok) == PageMigrated(old(docs[name]), lo, hi, curVersion, version, f, fails)
    {
      var docVersion := curVersion;
      while docVersion < version
        invariant OnlyChanged(old(docs), docs, name) && |docs[name]| == |old(docs[name])|
        invariant PageMigrated(docs[name], lo, hi, docVersion, version, f, fails)
               == PageMigrated(old(docs[name]), lo, hi, curVersion, version, f, fails)
      {
        docVersion := docVersion + 1;
        ok := MigrateBatch(name, lo, hi, docVersion, f, fails);
        if !ok {
          return;
        }
      }
      ok := true;
    }

    method MigrateCollection(service: DocService, f: Migrations<D>, fails: Failures) returns (ok: bool)
      requires service.collection in docs
      modifies this
      ensures OnlyChanged(old(docs), docs, service.collection)
      ensures schemaVersions == old(schemaVersions) ||
              schemaVersions == old(schemaVersions)[service.collection := service.schemaVersion]
      ensures Stored(service.collection) == Attempted(old(Stored(service.collection)), service.schemaVersion, f, fails)
      ensures Stored(service.collection).version
           == if ok then service.schemaVersion else old(Stored(service.collection)).version
    {
      var name, version := service.collection, service.schemaVersion;
      var curVersion := if name in schemaVersions then schemaVersions[name] else 0;
      if curVersion == version {
        return true;
      }
      var skip := 0;
      while skip < |docs[name]|
        invariant OnlyChanged(old(docs), docs, name) && |docs[name]| == |old(docs[name])|
        invariant CollectionMigrated(docs[name], skip, curVersion, version, f, fails)
               == CollectionMigrated(old(docs[name]), 0, curVersion, version, f, fails)
        invariant schemaVersions == old(schemaVersions)
      {
        ok := MigratePage(name, skip, PageEnd(skip, |docs[name]|), curVersion, version, f, fails);
        if !ok {
          return;
        }
        skip := skip + LIMIT;
      }
      schemaVersions := schemaVersions[name := version];
      ok := true;
    }

    /**
     * Migrates one collection after another, and stops at the first failure: the collections before it are
     * done, those after it are as they were. fs and fails are the migrations of each collection.
     */
    method MigrateIfNecessary(services: seq<DocService>, fs: string -> Migrations<D>, fails: string -> Failures) returns (count: nat)
      requires forall s :: s in services ==> s.collection in docs
      requires forall i, j :: 0 <= i < j < |services| ==> services[i].collection != services[j].collection
      modifies this
      ensures docs.Keys == old(docs.Keys) && count <= |services|
      ensures migrationsDisabled ==> docs == old(docs) && schemaVersions == old(schemaVersions)
      ensures !migrationsDisabled ==>
                forall i :: 0 <= i < |services| ==>
                  var s, n := services[i], services[i].collection;
                  && (i < count ==> Stored(n) == Attempted(old(Stored(n)), s.schemaVersion, fs(n), fails(n))
                                    && Stored(n).version == s.schemaVersion)
                  && (i == count ==> Stored(n).version == old(Stored(n)).version)
                  && (i > count ==> Stored(n) == old(Stored(n)))
    {
      count := 0;
      if migrationsDisabled {
        return;
      }
      while count < |services|
        invariant docs.Keys == old(docs.Keys) && count <= |services|
        invariant forall i :: 0 <= i < |services| ==>
                    var s, n := services[i], services[i].collection;
                    && n in docs
                    && (i < count ==> Stored(n) == Attempted(old(Stored(n)), s.schemaVersion, fs(n), fails(n))
                                      && Stored(n).version == s.schemaVersion)
                    && (i >= count ==> Stored(n) == old(Stored(n)))
      {
        var service := services[count];
        var ok := MigrateCollection(service, fs(service.collection), fails(service.collection));
        if !ok {
          return;
        }
        count := count + 1;
      }
    }
  }

  lemma BatchGrows<D>(docs: seq<D>, lo: nat, i: nat, version: nat, f: Migrations<D>, fails: Failures)
    requires lo <= i < |docs|
    ensures Batched(docs, lo, i + 1, version, f, fails)
         == if fails(i, version) then Batched(docs, lo, i, version, f, fails)
            else Batched(docs, lo, i, version, f, fails)[i := f(version, docs[i])]
    ensures Batched(docs, lo, i, version, f, fails)[i] == docs[i]
    ensures BatchOk(lo, i + 1, version, fails) <==> BatchOk(lo, i, version, fails) && !fails(i, version)
  {
  }
}
