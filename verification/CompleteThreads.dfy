/** Comments are gathered into threads by id, whatever order they come in; every thread is complete. */
module CompleteThreads {
  import opened Text

  // date and anchor stand for the places of a comment's date and verse in their orders.
  datatype Comment = Comment(threadId: string, date: int, anchor: int, deleted: bool)

  datatype Thread = Thread(id: string, comments: seq<Comment>)

  /** All comments of one thread, in the order in which they came. */
  function WithId(comments: seq<Comment>, id: string): seq<Comment>
    decreases |comments|
  {
    if comments == [] then []
    else if Last(comments).threadId != id then WithId(DropLast(comments), id)
    else WithId(DropLast(comments), id) + [Last(comments)]
  }

  lemma OneMoreWithId(comments: seq<Comment>, c: Comment, id: string)
    ensures WithId(comments + [c], id) == if c.threadId == id then WithId(comments, id) + [c] else WithId(comments, id)
  {
    assert DropLast(comments + [c]) == comments;
  }

  lemma {:induction false} NoneWithId(comments: seq<Comment>, id: string)
    requires forall c :: c in comments ==> c.threadId != id
    ensures WithId(comments, id) == []
    decreases |comments|
  {
    if comments != [] {
      NoneWithId(DropLast(comments), id);
    }
  }

  // ----- sorting

  predicate SortedBy<T>(s: seq<T>, key: T -> int) {
    forall i, j :: 0 <= i < j < |s| ==> key(s[i]) <= key(s[j])
  }

  method SortBy<T>(s: seq<T>, key: T -> int) returns (r: seq<T>)
    ensures SortedBy(r, key) && multiset(r) == multiset(s)
  {
    r := [];
    for i := 0 to |s|
      invariant SortedBy(r, key) && multiset(r) == multiset(s[..i])
    {
      r := InsertBy(r, s[i], key);
      assert s[..i + 1] == s[..i] + [s[i]];
    }
    assert s[..|s|] == s;
  }

  method InsertBy<T>(s: seq<T>, x: T, key: T -> int) returns (r: seq<T>)
    requires SortedBy(s, key)
    ensures SortedBy(r, key) && multiset(r) == multiset(s) + multiset{x}
  {
    var j: nat := |s|;
    while j > 0 && key(s[j - 1]) > key(x)
      invariant j <= |s| && forall k :: j <= k < |s| ==> key(s[k]) > key(x)
    {
      j := j - 1;
    }
    r := s[..j] + [x] + s[j..];
    InsertedSorted(s, j, x, key, r);
    InsertedBag(s, j, x);
  }

  lemma InsertedSorted<T>(s: seq<T>, j: nat, x: T, key: T -> int, r: seq<T>)
    requires SortedBy(s, key) && j <= |s| && (j > 0 ==> key(s[j - 1]) <= key(x))
    requires forall k :: j <= k < |s| ==> key(s[k]) > key(x)
    requires |r| == |s| + 1 && (forall k :: 0 <= k < j ==> r[k] == s[k]) && r[j] == x
    requires forall k :: j < k < |r| ==> r[k] == s[k - 1]
    ensures SortedBy(r, key)
  {
    forall a, b | 0 <= a < b < |r| ensures key(r[a]) <= key(r[b]) {
      if a < j <= b {
        assert key(s[a]) <= key(s[j - 1]);
      }
    }
  }

  lemma InsertedBag<T>(s: seq<T>, j: nat, x: T)
    requires j <= |s|
    ensures multiset(s[..j] + [x] + s[j..]) == multiset(s) + multiset{x}
  {
    assert s == s[..j] + s[j..];
  }

  // ----- grouping

  function DateOf(c: Comment): int { c.date }

  // Where the thread's first comment is; threads have comments.
  function AnchorOf(t: Thread): int {
    if t.comments == [] then 0 else t.comments[0].anchor
  }

  predicate DistinctIds(threads: seq<Thread>) {
    forall i, j :: 0 <= i < j < |threads| ==> threads[i].id != threads[j].id
  }

  // One thread for each id, with the comments of that id as they came.
  ghost predicate Gathered(threads: seq<Thread>, comments: seq<Comment>) {
    && DistinctIds(threads)
    && (forall i :: 0 <= i < |threads| ==> threads[i].comments == WithId(comments, threads[i].id) && threads[i].comments != [])
    && AllPlaced(threads, comments)
  }

  /** A thread with all comments of its id, each as often as it occurs, the oldest first. */
  predicate Complete(t: Thread, comments: seq<Comment>) {
    t.comments != [] && multiset(t.comments) == multiset(WithId(comments, t.id)) && SortedBy(t.comments, DateOf)
  }

  predicate AllComplete(threads: seq<Thread>, comments: seq<Comment>) {
    forall t :: t in threads ==> Complete(t, comments)
  }

  /** The comments in all threads. */
  function Contents(threads: seq<Thread>): multiset<Comment>
    decreases |threads|
  {
    if threads == [] then multiset{} else Contents(DropLast(threads)) + multiset(Last(threads).comments)
  }

  // ----- complete threads are a partition

  function Without(comments: seq<Comment>, id: string): seq<Comment>
    decreases |comments|
  {
    if comments == [] then []
    else if Last(comments).threadId == id then Without(DropLast(comments), id)
    else Without(DropLast(comments), id) + [Last(comments)]
  }

  lemma {:induction false} SplitById(comments: seq<Comment>, id: string)
    ensures multiset(WithId(comments, id)) + multiset(Without(comments, id)) == multiset(comments)
    decreases |comments|
  {
    if comments != [] {
      SplitById(DropLast(comments), id);
      assert comments == DropLast(comments) + [Last(comments)];
    }
  }

  lemma {:induction false} OthersStay(comments: seq<Comment>, id: string, other: string)
    requires other != id
    ensures WithId(Without(comments, id), other) == WithId(comments, other)
    decreases |comments|
  {
    if comments != [] {
      OthersStay(DropLast(comments), id, other);
      OneMoreWithId(Without(DropLast(comments), id), Last(comments), other);
    }
  }

  lemma {:induction false} InWithout(comments: seq<Comment>, id: string)
    ensures forall c :: c in Without(comments, id) ==> c in comments && c.threadId != id
    decreases |comments|
  {
    if comments != [] {
      InWithout(DropLast(comments), id);
    }
  }

  // Every comment has its thread.
  ghost predicate AllPlaced(threads: seq<Thread>, comments: seq<Comment>) {
    forall c :: c in comments ==> exists i :: 0 <= i < |threads| && threads[i].id == c.threadId
  }

  // Without the last thread and its comments, the same is true of the others.
  lemma OneThreadLess(threads: seq<Thread>, comments: seq<Comment>)
    requires threads != [] && DistinctIds(threads) && AllComplete(threads, comments) && AllPlaced(threads, comments)
    ensures var rest, less := DropLast(threads), Without(comments, Last(threads).id);
            DistinctIds(rest) && AllComplete(rest, less) && AllPlaced(rest, less)
  {
    var rest, id := DropLast(threads), Last(threads).id;
    var less := Without(comments, id);
    forall t | t in rest ensures Complete(t, less) {
      var i :| 0 <= i < |rest| && rest[i] == t;
      assert threads[i] in threads && t.id != id;
      OthersStay(comments, id, t.id);
    }
    InWithout(comments, id);
    forall c | c in less ensures exists i :: 0 <= i < |rest| && rest[i].id == c.threadId {
      var i :| 0 <= i < |threads| && threads[i].id == c.threadId;
      assert rest[i].id == c.threadId;
    }
  }

  lemma FirstIsIn<T>(s: seq<T>)
    requires s != []
    ensures exists x :: x in s
  {
    assert s[0] in s;
  }

  /** Threads with distinct ids that are complete, and one for every comment, hold every comment exactly as often as given. */
  lemma {:induction false} PartitionOfComments(threads: seq<Thread>, comments: seq<Comment>)
    requires DistinctIds(threads) && AllComplete(threads, comments) && AllPlaced(threads, comments)
    ensures Contents(threads) == multiset(comments)
    decreases |threads|
  {
    if threads == [] {
      if comments != [] {
        FirstIsIn(comments);
        assert false;
      }
    } else {
      OneThreadLess(threads, comments);
      PartitionOfComments(DropLast(threads), Without(comments, Last(threads).id));
      SplitById(comments, Last(threads).id);
      assert Complete(Last(threads), comments);
    }
  }

  // ----- the method

  /** The threads that a filter lets through, in order. */
  function Kept(threads: seq<Thread>, keep: Thread -> bool): seq<Thread>
    decreases |threads|
  {
    if threads == [] then []
    else Kept(DropLast(threads), keep) + if keep(Last(threads)) then [Last(threads)] else []
  }

  function IsActive(t: Thread): bool {
    exists i :: 0 <= i < |t.comments| && !t.comments[i].deleted
  }

  method Filter(threads: seq<Thread>, keep: Thread -> bool) returns (result: seq<Thread>)
    ensures result == Kept(threads, keep)
  {
    result := [];
    for i := 0 to |threads|
      invariant result == Kept(threads[..i], keep)
    {
      assert DropLast(threads[..i + 1]) == threads[..i];
      if keep(threads[i]) {
        result := result + [threads[i]];
      }
    }
    assert threads[..|threads|] == threads;
  }

  /** Fills one thread for each id, in the order in which the ids first occur. */
  method Gather(comments: seq<Comment>) returns (threads: seq<Thread>)
    ensures Gathered(threads, comments)
  {
    threads := [];
    for k := 0 to |comments|
      invariant Gathered(threads, comments[..k])
    {
      threads := AddToThread(threads, comments[k], comments[..k]);
      assert comments[..k + 1] == comments[..k] + [comments[k]];
    }
    assert comments[..|comments|] == comments;
  }

  method AddToThread(threads: seq<Thread>, c: Comment, ghost comments: seq<Comment>) returns (threads1: seq<Thread>)
    requires Gathered(threads, comments)
    ensures Gathered(threads1, comments + [c])
  {
    var i := 0;
    while i < |threads| && threads[i].id != c.threadId
      invariant i <= |threads| && forall j :: 0 <= j < i ==> threads[j].id != c.threadId
    {
      i := i + 1;
    }
    threads1 := if i < |threads| then threads[i := threads[i].(comments := threads[i].comments + [c])]
                else threads + [Thread(c.threadId, [c])];
    GatheredOneMore(threads, comments, c, i, threads1);
  }

  lemma GatheredOneMore(threads: seq<Thread>, comments: seq<Comment>, c: Comment, i: nat, threads1: seq<Thread>)
    requires Gathered(threads, comments) && i <= |threads|
    requires if i < |threads| then threads[i].id == c.threadId else forall j :: 0 <= j < |threads| ==> threads[j].id != c.threadId
    requires threads1 == if i < |threads| then threads[i := threads[i].(comments := threads[i].comments + [c])]
                         else threads + [Thread(c.threadId, [c])]
    ensures Gathered(threads1, comments + [c])
  {
    var all := comments + [c];
    if i == |threads| {
      NoneWithId(comments, c.threadId);
    }
    forall j | 0 <= j < |threads1| ensures threads1[j].comments == WithId(all, threads1[j].id) && threads1[j].comments != [] {
      OneMoreWithId(comments, c, threads1[j].id);
    }
    forall d | d in all ensures exists j :: 0 <= j < |threads1| && threads1[j].id == d.threadId {
      if d in comments {
        var j :| 0 <= j < |threads| && threads[j].id == d.threadId;
        assert threads1[j].id == d.threadId;
      } else {
        assert threads1[i].id == d.threadId;
      }
    }
  }

  method SortComments(threads: seq<Thread>, ghost comments: seq<Comment>) returns (sorted: seq<Thread>)
    requires Gathered(threads, comments)
    ensures |sorted| == |threads| && forall i :: 0 <= i < |threads| ==> sorted[i].id == threads[i].id
    ensures AllComplete(sorted, comments)
  {
    sorted := [];
    for i := 0 to |threads|
      invariant |sorted| == i && forall j :: 0 <= j < i ==> sorted[j].id == threads[j].id && Complete(sorted[j], comments)
    {
      var cs := SortBy(threads[i].comments, DateOf);
      assert threads[i].comments[0] in multiset(cs);
      sorted := sorted + [Thread(threads[i].id, cs)];
    }
  }

  /**
   * Complete threads: with no filter, the threads have distinct ids, each holds all comments of its id with
   * the oldest first, they come in the order of the places of their oldest comments, and together they hold
   * every comment. Filters keep or drop whole threads.
   */
  method FindCompleteThreads(comments: seq<Comment>, shouldThreadBeIncluded: Option<Thread -> bool>, activeOnly: bool)
      returns (result: seq<Thread>, ghost threads: seq<Thread>)
    ensures DistinctIds(threads) && AllComplete(threads, comments) && SortedBy(threads, AnchorOf)
    ensures Contents(threads) == multiset(comments)
    ensures var active := if activeOnly then Kept(threads, IsActive) else threads;
            result == if shouldThreadBeIncluded.Some? then Kept(active, shouldThreadBeIncluded.value) else active
    ensures !activeOnly && shouldThreadBeIncluded.None? ==> Contents(result) == multiset(comments)
  {
    var gathered := Gather(comments);
    var sorted := SortComments(gathered, comments);
    result := SortBy(sorted, AnchorOf);
    OrderDoesNotMatter(gathered, sorted, result, comments);
    threads := result;
    if activeOnly {
      result := Filter(result, IsActive);
    }
    if shouldThreadBeIncluded.Some? {
      result := Filter(result, shouldThreadBeIncluded.value);
    }
  }

  lemma OrderDoesNotMatter(gathered: seq<Thread>, sorted: seq<Thread>, result: seq<Thread>, comments: seq<Comment>)
    requires Gathered(gathered, comments) && |sorted| == |gathered| && multiset(result) == multiset(sorted)
    requires forall i :: 0 <= i < |gathered| ==> sorted[i].id == gathered[i].id
    requires AllComplete(sorted, comments)
    ensures DistinctIds(result) && AllComplete(result, comments) && Contents(result) == multiset(comments)
  {
    assert DistinctIds(sorted);
    forall t | t in result ensures Complete(t, comments) {
      assert t in multiset(sorted);
    }
    DistinctPermuted(sorted, result);
    forall c | c in comments ensures exists i :: 0 <= i < |result| && result[i].id == c.threadId {
      var i :| 0 <= i < |gathered| && gathered[i].id == c.threadId;
      assert sorted[i] in multiset(result);
      var j :| 0 <= j < |result| && result[j] == sorted[i];
    }
    PartitionOfComments(result, comments);
  }

  lemma DistinctPermuted(a: seq<Thread>, b: seq<Thread>)
    requires DistinctIds(a) && multiset(a) == multiset(b)
    ensures DistinctIds(b)
  {
    forall i, j | 0 <= i < j < |b| ensures b[i].id != b[j].id {
      if b[i].id == b[j].id {
        assert b[i] in multiset(a) && b[j] in multiset(a);
        var k :| 0 <= k < |a| && a[k] == b[i];
        var l :| 0 <= l < |a| && a[l] == b[j];
        assert k == l;
        Twice(b, i, j);
        OnlyOnce(a, k);
      }
    }
  }

  lemma Twice(s: seq<Thread>, i: nat, j: nat)
    requires i < j < |s| && s[i] == s[j]
    ensures multiset(s)[s[i]] >= 2
  {
    assert s == s[..j] + [s[j]] + s[j + 1..];
    assert s[i] in s[..j];
  }

  lemma OnlyOnce(s: seq<Thread>, k: nat)
    requires DistinctIds(s) && k < |s|
    ensures multiset(s)[s[k]] == 1
  {
    assert s == s[..k] + [s[k]] + s[k + 1..];
    assert s[k] !in s[..k] && s[k] !in s[k + 1..];
  }
}
