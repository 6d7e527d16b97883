/**
 * Generated names in Deltas: the ids of char elements, and the numbers of tables in table, row and cell
 * names. A chapter's Delta depends on what was generated before it only through these names.
 */
module DeltaIds {
  import opened Text
  import opened Usx
  import opened RichText
  import opened DeltaParser
  import TR = TableRoundTrip

  // ----- moving the names of a numbered family

  /** The k-th name becomes the move(k)-th; other strings stay. */
  ghost function Moved<K(!new)>(name: K -> string, move: K -> K, s: string): string {
    if exists k :: s == name(k) then name(move(KeyOf(name, s))) else s
  }

  ghost function KeyOf<K(!new)>(name: K -> string, s: string): (k: K)
    requires exists k :: s == name(k)
    ensures s == name(k)
  {
    var k :| s == name(k);
    k
  }

  lemma MovedName<K(!new)>(name: K -> string, move: K -> K, k: K)
    requires Injective(name)
    ensures Moved(name, move, name(k)) == name(move(k))
  {
    assert KeyOf(name, name(k)) == k;
  }

  lemma MovedIsInjective<K(!new)>(name: K -> string, move: K -> K, s: string, t: string)
    requires Injective(name) && Injective(move)
    ensures Moved(name, move, s) == Moved(name, move, t) <==> s == t
  {
    if i :| s == name(i) {
      MovedName(name, move, i);
      if j :| t == name(j) {
        MovedName(name, move, j);
      }
    } else if j :| t == name(j) {
      MovedName(name, move, j);
    }
  }

  function Plus(n: nat): nat -> nat {
    k => k + n
  }

  function RowPlus(n: nat): ((nat, nat)) -> (nat, nat) {
    (p: (nat, nat)) => (p.0 + n, p.1)
  }

  function CellPlus(n: nat): ((nat, nat, nat)) -> (nat, nat, nat) {
    (p: (nat, nat, nat)) => (p.0 + n, p.1, p.2)
  }

  function RowName(p: (nat, nat)): string { RowId(p.0, p.1) }
  function CellName(p: (nat, nat, nat)): string { CellRef(p.0, p.1, p.2) }

  lemma NamesDiffer()
    ensures Injective(TableId) && Injective(RowName) && Injective(CellName)
  {
    forall k, l | TableId(k) == TableId(l) ensures k == l {
      TR.TableIdInjective(k, l);
    }
    forall p, q | RowName(p) == RowName(q) ensures p == q {
      TR.RowIdInjective(p.0, p.1, q.0, q.1);
    }
    forall p, q | CellName(p) == CellName(q) ensures p == q {
      CellRefInjective(p, q);
    }
  }

  lemma CellRefInjective(p: (nat, nat, nat), q: (nat, nat, nat))
    requires CellName(p) == CellName(q)
    ensures p == q
  {
    var a, b := "cell_" + Decimal(p.0), "cell_" + Decimal(q.0);
    SuffixedNumeral(a + "_" + Decimal(p.1), p.2, b + "_" + Decimal(q.1), q.2);
    SuffixedNumeral(a, p.1, b, q.1);
    assert a[5..] == Decimal(p.0) && b[5..] == Decimal(q.0);
    DecimalInjective(p.0, q.0);
  }

  lemma PlusInjective(n: nat)
    ensures Injective(Plus(n)) && Injective(RowPlus(n)) && Injective(CellPlus(n))
  {
  }

  // ----- renaming a Delta

  // newGuid's ids are moved by guids, table numbers by tables.
  datatype Ids = Ids(newGuid: nat -> string, guids: nat, tables: nat)

  ghost function CidMoved(ids: Ids, s: string): string { Moved(ids.newGuid, Plus(ids.guids), s) }
  ghost function TableMoved(ids: Ids, s: string): string { Moved(TableId, Plus(ids.tables), s) }
  ghost function RowMoved(ids: Ids, s: string): string { Moved(RowName, RowPlus(ids.tables), s) }
  ghost function CellMoved(ids: Ids, s: string): string { Moved(CellName, CellPlus(ids.tables), s) }

  ghost function CharRenamed(ids: Ids, a: Attrs): Attrs {
    if "cid" in a then a["cid" := CidMoved(ids, a["cid"])] else a
  }

  ghost function CharsRenamed(ids: Ids, chars: seq<Attrs>): (r: seq<Attrs>) {
    seq(|chars|, i requires 0 <= i < |chars| => CharRenamed(ids, chars[i]))
  }

  ghost function TableRenamed(ids: Ids, a: Attrs): Attrs {
    if "id" in a then a["id" := TableMoved(ids, a["id"])] else a
  }

  ghost function RowRenamed(ids: Ids, a: Attrs): Attrs {
    if "id" in a then a["id" := RowMoved(ids, a["id"])] else a
  }

  ghost function SegmentRenamed(ids: Ids, s: Segment): Segment {
    if s.InSegment? then InSegment(CellMoved(ids, s.ref)) else s
  }

  ghost function RefRenamed(ids: Ids, ref: Option<string>): Option<string> {
    if ref.Some? then Some(CellMoved(ids, ref.value)) else None
  }

  ghost function AttrsRenamed(ids: Ids, a: OpAttrs): OpAttrs {
    a.(chars := if a.chars.Some? then Some(CharsRenamed(ids, a.chars.value)) else None,
       segment := SegmentRenamed(ids, a.segment),
       table := if a.table.Some? then Some(TableRenamed(ids, a.table.value)) else None,
       row := if a.row.Some? then Some(RowRenamed(ids, a.row.value)) else None)
  }

  ghost function OpRenamed(ids: Ids, op: Op): Op
    decreases op
  {
    match op.insert
    case Str(_) => op.(attrs := AttrsRenamed(ids, op.attrs))
    case Embed(tag, attrs, contents) =>
      Op(Embed(tag, attrs, Renamed(ids, contents)), AttrsRenamed(ids, op.attrs))
  }

  /** The Delta with every generated name moved. */
  ghost function Renamed(ids: Ids, ops: seq<Op>): (r: seq<Op>)
    ensures |r| == |ops|
    ensures forall i :: 0 <= i < |ops| ==> r[i] == OpRenamed(ids, ops[i])
    decreases ops
  {
    if ops == [] then [] else [OpRenamed(ids, ops[0])] + Renamed(ids, ops[1..])
  }

  /** Two Deltas that come from one by moving its generated names. */
  ghost predicate SameUpToIds(newGuid: nat -> string, a: seq<Op>, b: seq<Op>) {
    exists ops, g, t, g1, t1 :: a == Renamed(Ids(newGuid, g, t), ops) && b == Renamed(Ids(newGuid, g1, t1), ops)
  }

  // ----- renaming commutes with building a Delta

  lemma CharsInjective(ids: Ids, a: seq<Attrs>, b: seq<Attrs>)
    requires Injective(ids.newGuid)
    ensures CharsRenamed(ids, a) == CharsRenamed(ids, b) <==> a == b
  {
    if CharsRenamed(ids, a) == CharsRenamed(ids, b) {
      assert |a| == |CharsRenamed(ids, a)| == |CharsRenamed(ids, b)| == |b|;
      forall i | 0 <= i < |a| ensures a[i] == b[i] {
        assert CharsRenamed(ids, a)[i] == CharRenamed(ids, a[i]) == CharRenamed(ids, b[i]);
        CharInjective(ids, a[i], b[i]);
      }
    }
  }

  lemma CharInjective(ids: Ids, a: Attrs, b: Attrs)
    requires Injective(ids.newGuid) && CharRenamed(ids, a) == CharRenamed(ids, b)
    ensures a == b
  {
    if "cid" in a && "cid" in b {
      PlusInjective(ids.guids);
      MovedIsInjective(ids.newGuid, Plus(ids.guids), a["cid"], b["cid"]);
      UpdateKeeps(a, b, "cid", CidMoved(ids, a["cid"]), CidMoved(ids, b["cid"]));
    }
  }

  // Maps that agree once one key is set agree if they had the same value there.
  lemma UpdateKeeps(a: Attrs, b: Attrs, key: string, x: string, y: string)
    requires key in a && key in b && a[key := x] == b[key := y] && (x == y ==> a[key] == b[key])
    ensures a == b
  {
    assert a[key := x][key] == b[key := y][key];
    assert a == a[key := x][key := a[key]] && b == b[key := y][key := b[key]];
  }

  lemma AttrsInjective(ids: Ids, a: OpAttrs, b: OpAttrs)
    requires Injective(ids.newGuid)
    ensures AttrsRenamed(ids, a) == AttrsRenamed(ids, b) <==> a == b
  {
    if AttrsRenamed(ids, a) == AttrsRenamed(ids, b) {
      NamesDiffer();
      PlusInjective(ids.tables);
      if a.chars.Some? && b.chars.Some? {
        CharsInjective(ids, a.chars.value, b.chars.value);
      }
      if a.segment.InSegment? && b.segment.InSegment? {
        MovedIsInjective(CellName, CellPlus(ids.tables), a.segment.ref, b.segment.ref);
      }
      if a.table.Some? && b.table.Some? {
        TableInjective(ids, a.table.value, b.table.value);
      }
      if a.row.Some? && b.row.Some? {
        RowInjective(ids, a.row.value, b.row.value);
      }
    }
  }

  lemma TableInjective(ids: Ids, a: Attrs, b: Attrs)
    requires TableRenamed(ids, a) == TableRenamed(ids, b)
    ensures a == b
  {
    if "id" in a && "id" in b {
      NamesDiffer();
      PlusInjective(ids.tables);
      MovedIsInjective(TableId, Plus(ids.tables), a["id"], b["id"]);
      UpdateKeeps(a, b, "id", TableMoved(ids, a["id"]), TableMoved(ids, b["id"]));
    }
  }

  lemma RowInjective(ids: Ids, a: Attrs, b: Attrs)
    requires RowRenamed(ids, a) == RowRenamed(ids, b)
    ensures a == b
  {
    if "id" in a && "id" in b {
      NamesDiffer();
      PlusInjective(ids.tables);
      MovedIsInjective(RowName, RowPlus(ids.tables), a["id"], b["id"]);
      UpdateKeeps(a, b, "id", RowMoved(ids, a["id"]), RowMoved(ids, b["id"]));
    }
  }

  lemma RenamedAppend(ids: Ids, ops: seq<Op>, op: Op)
    ensures Renamed(ids, ops + [op]) == Renamed(ids, ops) + [OpRenamed(ids, op)]
  {
  }

  lemma RenamedInserted(ids: Ids, ops: seq<Op>, op: Op)
    requires Injective(ids.newGuid)
    ensures Renamed(ids, Inserted(ops, op)) == Inserted(Renamed(ids, ops), OpRenamed(ids, op))
  {
    RenamedAppend(ids, ops, op);
    if ops != [] {
      AttrsInjective(ids, Last(ops).attrs, op.attrs);
      if Joins(Last(ops), op) {
        RenamedAppend(ids, DropLast(ops), Op(Str(Last(ops).insert.text + op.insert.text), op.attrs));
        assert DropLast(Renamed(ids, ops)) == Renamed(ids, DropLast(ops));
      }
    }
  }

  lemma RenamedSegmentEnded(ids: Ids, ops: seq<Op>, ref: Option<string>)
    ensures Renamed(ids, SegmentEnded(ops, ref)) == SegmentEnded(Renamed(ids, ops), RefRenamed(ids, ref))
  {
    if ref.Some? {
      RenamedAppend(ids, ops, BlankOp(ref.value));
      BlankRenamed(ids, ref.value);
    }
  }

  lemma BlankRenamed(ids: Ids, ref: string)
    ensures OpRenamed(ids, BlankOp(ref)) == BlankOp(CellMoved(ids, ref))
  {
  }

  lemma InlineRenamed(ids: Ids, chars: seq<Attrs>, link: Option<Attrs>, ref: Option<string>)
    ensures AttrsRenamed(ids, InlineAttrs(chars, link, SegmentOf(ref)))
         == InlineAttrs(CharsRenamed(ids, chars), link, SegmentOf(RefRenamed(ids, ref)))
    ensures OpRenamed(ids, EmptyOp(chars, ref)) == EmptyOp(CharsRenamed(ids, chars), RefRenamed(ids, ref))
  {
    assert chars == [] <==> CharsRenamed(ids, chars) == [];
  }

  // Only names of cells are moved among the segment references.
  lemma OtherRefsStay(ids: Ids, s: string)
    requires !("cell" <= s)
    ensures CellMoved(ids, s) == s
  {
    forall p ensures s != CellName(p) {
      CellNameStart(p);
    }
  }

  lemma CellNameStart(p: (nat, nat, nat))
    ensures "cell" <= CellName(p)
  {
    assert "cell" <= "cell_" <= CellName(p);
  }
}
