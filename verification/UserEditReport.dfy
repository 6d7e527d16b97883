/**
 * The user edit report: a stream of operations is grouped by month, user and chapter, and for every group
 * the stretches of consecutive versions are compared, each from its first version to the one after its last.
 */
module UserEditReport {
  import opened Text

  datatype Key = Key(year: int, month: int, userId: string, bookChapter: string)

  datatype EditOp = EditOp(key: Key, v: nat)

  // What a group keeps between operations, and the ranges of versions it has compared.
  datatype Group = Group(key: Key, baselineVersion: nat, prevVersion: int, ranges: seq<(nat, int)>)

  function NewGroup(key: Key): Group {
    Group(key, 0, 0, [])
  }

  /** One more operation: a gap in the versions ends a range. */
  function Counted(g: Group, v: nat): Group {
    var g1 := if g.baselineVersion == 0 then g.(baselineVersion := v, prevVersion := v - 1) else g;
    var g2 :=
      if v != g1.prevVersion + 1 then
        g1.(ranges := g1.ranges + [(g1.baselineVersion, g1.prevVersion + 1)], baselineVersion := v)
      else g1;
    g2.(prevVersion := v)
  }

  function AllCounted(key: Key, versions: seq<nat>): Group
    decreases |versions|
  {
    if versions == [] then NewGroup(key) else Counted(AllCounted(key, DropLast(versions)), Last(versions))
  }

  /** After the last operation, the range that is still open is compared too. */
  function Closed(g: Group): seq<(nat, int)> {
    g.ranges + [(g.baselineVersion, g.prevVersion + 1)]
  }

  // ----- what the ranges cover

  /** The versions of a range, which ends before its second number. */
  function Span(r: (int, int)): seq<int> {
    if r.0 >= r.1 then [] else seq(r.1 - r.0, i => r.0 + i)
  }

  function Spans(ranges: seq<(nat, int)>): seq<int>
    decreases |ranges|
  {
    if ranges == [] then [] else Spans(DropLast(ranges)) + Span(Last(ranges))
  }

  function Zeros(versions: seq<nat>): nat
    decreases |versions|
  {
    if versions == [] then 0 else Zeros(DropLast(versions)) + if Last(versions) == 0 then 1 else 0
  }

  lemma SpansAppend(ranges: seq<(nat, int)>, r: (nat, int))
    ensures Spans(ranges + [r]) == Spans(ranges) + Span(r)
  {
    assert DropLast(ranges + [r]) == ranges;
  }

  // An open range is not empty, and ends with the last version.
  predicate Opened(g: Group, last: nat) {
    g.prevVersion == last && g.baselineVersion <= last && (g.baselineVersion == 0 ==> last == 0)
    && forall i :: 0 <= i < |g.ranges| ==> g.ranges[i].0 < g.ranges[i].1
  }

  lemma {:induction false} GroupOpened(key: Key, versions: seq<nat>)
    requires versions != []
    ensures Opened(AllCounted(key, versions), Last(versions))
    decreases |versions|
  {
    if |versions| > 1 {
      GroupOpened(key, DropLast(versions));
    }
  }

  /** One more operation adds its version at the end; a group that looks new loses the range it has open. */
  lemma CountedCovers(g: Group, last: nat, v: nat)
    requires Opened(g, last)
    ensures Spans(Closed(Counted(g, v))) == (if g.baselineVersion == 0 then Spans(g.ranges) else Spans(Closed(g))) + [v as int]
  {
    var open := (g.baselineVersion, g.prevVersion + 1);
    SingleSpan(v);
    if g.baselineVersion == 0 {
      SpansAppend(g.ranges, (v, v + 1));
    } else if v != g.prevVersion + 1 {
      SpansAppend(g.ranges + [open], (v, v + 1));
    } else {
      SpansAppend(g.ranges, open);
      SpansAppend(g.ranges, (g.baselineVersion, v + 1));
      SpanEnds(g.baselineVersion, v);
      PlusAssoc(Spans(g.ranges), Span((g.baselineVersion, v)), [v as int]);
    }
  }

  lemma SingleSpan(v: nat)
    ensures Span((v, v + 1)) == [v as int]
  {
  }

  // The versions compared are those of the operations, in order, without the zeros that others follow.
  lemma {:induction false} GroupCovers(key: Key, versions: seq<nat>)
    requires versions != []
    ensures |Spans(Closed(AllCounted(key, versions)))| + Zeros(DropLast(versions)) == |versions|
    ensures Zeros(DropLast(versions)) == 0 ==> Spans(Closed(AllCounted(key, versions))) == versions
    decreases |versions|
  {
    var last, before := Last(versions), DropLast(versions);
    assert versions == before + [last];
    if before == [] {
      assert AllCounted(key, before) == NewGroup(key) && Spans([]) == [];
      SpansAppend([], (last, last + 1));
      assert Span((last, last + 1)) == [last];
    } else {
      var g := AllCounted(key, before);
      GroupOpened(key, before);
      GroupCovers(key, before);
      CountedCovers(g, Last(before), last);
      SpansAppend(g.ranges, (g.baselineVersion, g.prevVersion + 1));
      assert g.baselineVersion == 0 ==> Span((0, 1)) == [0];
    }
  }

  lemma SpanEnds(a: int, last: int)
    requires a <= last
    ensures Span((a, last + 1)) == Span((a, last)) + [last as int]
  {
  }

  /**
   * The ranges of a group are never empty, so the versions compared always differ, and together they are
   * the versions of the group's operations in the order of arrival, exactly if no operation of version 0
   * comes before another operation. (Version 0 is taken for a group that has no baseline yet.)
   */
  lemma RangesAreVersions(key: Key, versions: seq<nat>)
    requires versions != []
    ensures var ranges := Closed(AllCounted(key, versions));
            && (forall i :: 0 <= i < |ranges| ==> ranges[i].0 < ranges[i].1)
            && (Spans(ranges) == versions <==> 0 !in DropLast(versions))
  {
    GroupOpened(key, versions);
    GroupCovers(key, versions);
    ZerosIn(DropLast(versions));
  }

  lemma {:induction false} ZerosIn(versions: seq<nat>)
    ensures Zeros(versions) == 0 <==> 0 !in versions
    decreases |versions|
  {
    if versions != [] {
      ZerosIn(DropLast(versions));
      assert versions == DropLast(versions) + [Last(versions)];
    }
  }

  // ----- the stream

  function VersionsOf(ops: seq<EditOp>, key: Key): seq<nat>
    decreases |ops|
  {
    if ops == [] then []
    else VersionsOf(DropLast(ops), key) + if Last(ops).key == key then [Last(ops).v] else []
  }

  predicate DistinctKeys(groups: seq<Group>) {
    forall i, j :: 0 <= i < j < |groups| ==> groups[i].key != groups[j].key
  }

  // One group for every key of the stream, as its own operations left it.
  ghost predicate Grouped(groups: seq<Group>, ops: seq<EditOp>) {
    && DistinctKeys(groups)
    && (forall i :: 0 <= i < |groups| ==>
          VersionsOf(ops, groups[i].key) != [] && groups[i] == AllCounted(groups[i].key, VersionsOf(ops, groups[i].key)))
    && (forall k :: 0 <= k < |ops| ==> exists i :: 0 <= i < |groups| && groups[i].key == ops[k].key)
  }

  class Report {
    var groups: seq<Group>
    var compared: map<Key, seq<(nat, int)>>

    constructor ()
      ensures groups == [] && compared == map[]
    {
      groups, compared := [], map[];
    }

    method FindOrAdd(key: Key) returns (i: nat)
      requires DistinctKeys(groups)
      modifies this`groups
      ensures DistinctKeys(groups) && i < |groups| && groups[i].key == key
      ensures if i < |old(groups)| then groups == old(groups)
              else groups == old(groups) + [NewGroup(key)] && forall j :: 0 <= j < i ==> groups[j].key != key
    {
      i := 0;
      while i < |groups| && groups[i].key != key
        invariant i <= |groups| && forall j :: 0 <= j < i ==> groups[j].key != key
      {
        i := i + 1;
      }
      if i == |groups| {
        groups := groups + [NewGroup(key)];
      }
    }

    method AddOp(op: EditOp, ghost before: seq<EditOp>)
      requires Grouped(groups, before)
      modifies this`groups
      ensures Grouped(groups, before + [op])
    {
      ghost var groups0 := groups;
      var i := FindOrAdd(op.key);
      ghost var found := groups[i];
      assert forall j :: 0 <= j < |groups0| ==> groups0[j] == groups[j];
      var g := groups[i];
      if g.baselineVersion == 0 {
        g := g.(baselineVersion := op.v, prevVersion := op.v - 1);
      }
      if op.v != g.prevVersion + 1 {
        g := g.(ranges := g.ranges + [(g.baselineVersion, g.prevVersion + 1)], baselineVersion := op.v);
      }
      g := g.(prevVersion := op.v);
      assert g == Counted(found, op.v);
      groups := groups[i := g];
      GroupedOneMore(groups0, before, op, i, groups);
    }

    /** Groups the operations, then compares what is still open in each group. */
    method Run(ops: seq<EditOp>)
      requires groups == [] && compared == map[]
      modifies this
      ensures Grouped(groups, ops)
      ensures forall i :: 0 <= i < |groups| ==> groups[i].key in compared && compared[groups[i].key] == Closed(groups[i])
    {
      for k := 0 to |ops|
        invariant Grouped(groups, ops[..k]) && compared == map[]
      {
        assert ops[..k + 1] == ops[..k] + [ops[k]];
        AddOp(ops[k], ops[..k]);
      }
      assert ops[..|ops|] == ops;
      var all := groups;
      for i := 0 to |all|
        invariant groups == all
        invariant forall j :: 0 <= j < i ==> all[j].key in compared && compared[all[j].key] == Closed(all[j])
      {
        compared := compared[all[i].key := all[i].ranges + [(all[i].baselineVersion, all[i].prevVersion + 1)]];
      }
    }
  }

  lemma OneMoreVersion(ops: seq<EditOp>, op: EditOp, key: Key)
    ensures VersionsOf(ops + [op], key) == VersionsOf(ops, key) + if op.key == key then [op.v] else []
  {
    assert DropLast(ops + [op]) == ops;
  }

  lemma GroupedOneMore(groups: seq<Group>, ops: seq<EditOp>, op: EditOp, i: nat, groups1: seq<Group>)
    requires Grouped(groups, ops) && i <= |groups|
    requires if i < |groups| then groups[i].key == op.key else forall j :: 0 <= j < |groups| ==> groups[j].key != op.key
    requires if i < |groups| then groups1 == groups[i := Counted(groups[i], op.v)]
             else groups1 == groups + [Counted(NewGroup(op.key), op.v)]
    ensures Grouped(groups1, ops + [op])
  {
    var all := ops + [op];
    if i == |groups| {
      NoVersions(ops, op.key);
    }
    forall j | 0 <= j < |groups1|
      ensures VersionsOf(all, groups1[j].key) != [] && groups1[j] == AllCounted(groups1[j].key, VersionsOf(all, groups1[j].key))
    {
      OneMoreVersion(ops, op, groups1[j].key);
      if groups1[j].key == op.key {
        var before := VersionsOf(ops, op.key);
        assert DropLast(before + [op.v]) == before;
      } else {
        assert VersionsOf(ops, groups1[j].key) + [] == VersionsOf(ops, groups1[j].key);
      }
    }
    forall k | 0 <= k < |all| ensures exists j :: 0 <= j < |groups1| && groups1[j].key == all[k].key {
      if k < |ops| {
        var j :| 0 <= j < |groups| && groups[j].key == ops[k].key;
        assert groups1[j].key == all[k].key;
      } else {
        assert groups1[i].key == all[k].key;
      }
    }
  }

  lemma {:induction false} NoVersions(ops: seq<EditOp>, key: Key)
    requires forall k :: 0 <= k < |ops| ==> ops[k].key != key
    ensures VersionsOf(ops, key) == []
    decreases |ops|
  {
    if ops != [] {
      NoVersions(DropLast(ops), key);
    }
  }

  /**
   * The report compares, for every group of the stream, exactly the versions of the group's operations,
   * if no operation has version 0.
   */
  lemma ReportCoversStream(groups: seq<Group>, ops: seq<EditOp>, i: nat)
    requires Grouped(groups, ops) && i < |groups| && forall k :: 0 <= k < |ops| ==> ops[k].v != 0
    ensures Spans(Closed(groups[i])) == VersionsOf(ops, groups[i].key)
  {
    var versions := VersionsOf(ops, groups[i].key);
    NoZeros(ops, groups[i].key);
    RangesAreVersions(groups[i].key, versions);
  }

  lemma {:induction false} NoZeros(ops: seq<EditOp>, key: Key)
    requires forall k :: 0 <= k < |ops| ==> ops[k].v != 0
    ensures 0 !in VersionsOf(ops, key)
    decreases |ops|
  {
    if ops != [] {
      NoZeros(DropLast(ops), key);
    }
  }
}
