/** Rich text documents: sequences of insert operations with attributes. */
module RichText {
  import opened Text
  import opened Usx

  // The "segment" attribute can also be present with a null value (an empty char outside any segment).
  datatype Segment = NoSegment | NullSegment | InSegment(ref: string)

  datatype BlockFormat = BlockFormat(tag: Tag, attrs: Attrs)

  datatype OpAttrs = OpAttrs(
    block: Option<BlockFormat>,
    ref: Option<Attrs>,
    chars: Option<seq<Attrs>>,
    segment: Segment,
    table: Option<Attrs>,
    row: Option<Attrs>,
    cell: Option<Attrs>,
    invalidBlock: bool)

  // An embed carries one object; contents is the nested document of a note, empty when absent.
  datatype Insertion =
    | Str(text: string)
    | Embed(tag: Tag, attrs: Attrs, contents: seq<Op>)

  datatype Op = Op(insert: Insertion, attrs: OpAttrs)

  const NO_ATTRS := OpAttrs(None, None, None, NoSegment, None, None, None, false)

  /** Appending an insert: empty text is dropped, text with equal attributes joins the last operation. */
  function Inserted(ops: seq<Op>, op: Op): seq<Op> {
    if op.insert == Str("") then ops
    else if ops != [] && Joins(Last(ops), op) then
      DropLast(ops) + [Op(Str(Last(ops).insert.text + op.insert.text), op.attrs)]
    else ops + [op]
  }

  predicate Joins(last: Op, op: Op) {
    last.insert.Str? && op.insert.Str? && last.attrs == op.attrs
  }

  /** Splitting a text in two and inserting the halves with the same attributes makes no difference. */
  lemma InsertedSplit(ops: seq<Op>, s: string, t: string, a: OpAttrs)
    ensures Inserted(Inserted(ops, Op(Str(s), a)), Op(Str(t), a)) == Inserted(ops, Op(Str(s + t), a))
  {
    var once := Inserted(ops, Op(Str(s), a));
    if s == "" {
      assert s + t == t;
    } else if t == "" {
      assert s + t == s;
    } else if ops != [] && Joins(Last(ops), Op(Str(s), a)) {
      assert (Last(ops).insert.text + s) + t == Last(ops).insert.text + (s + t);
      assert DropLast(once) == DropLast(ops);
    } else {
      assert DropLast(once) == ops;
    }
  }

  class Delta {
    var ops: seq<Op>

    constructor ()
      ensures ops == []
    {
      ops := [];
    }

    method Insert(insert: Insertion, attrs: OpAttrs)
      modifies this
      ensures ops == Inserted(old(ops), Op(insert, attrs))
    {
      if insert.Str? && |insert.text| == 0 {
        return;
      }
      var newOp := Op(insert, attrs);
      if |ops| > 0 {
        var lastOp := ops[|ops| - 1];
        if newOp.attrs == lastOp.attrs && newOp.insert.Str? && lastOp.insert.Str? {
          ops := ops[|ops| - 1 := Op(Str(lastOp.insert.text + newOp.insert.text), newOp.attrs)];
          return;
        }
      }
      ops := ops + [newOp];
    }
  }
}
