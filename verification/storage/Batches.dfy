/** The same operations on a table inside a transaction and outside one, and when they come to the same. */
module Batches {
  import opened ByteOrder
  import opened Codec
  import opened Log
  import opened Index
  import opened Collections
  import opened Engine
  import opened Store
  import opened Transactions

  datatype Op =
    | Made(id: ID, now: Int64, data: Data)
    | Changed(id: ID, now: Int64, data: Data)
    | Removed(id: ID, now: Int64)

  // ----- what the operations mean

  function OutsideStep(docs: Documents, op: Op): Documents {
    match op
    case Made(id, now, data) => docs[id := Content(now, now, data)]
    case Changed(id, now, data) =>
      if id != [] && id in docs then docs[id := Content(docs[id].createdAt, now, data)] else docs
    case Removed(id, _) => if id == [] then docs else docs - {id}
  }

  function Outside(docs: Documents, ops: seq<Op>): Documents {
    if ops == [] then docs else
    var n := |ops| - 1;
    OutsideStep(Outside(docs, ops[..n]), ops[n])
  }

  /** When the id was made last among these operations. */
  function MadeAt(ops: seq<Op>, id: ID): Option<Int64> {
    if ops == [] then None else
    var n := |ops| - 1;
    if ops[n].Made? && ops[n].id == id then Some(ops[n].now) else MadeAt(ops[..n], id)
  }

  /** A change inside a transaction looks for the creation time in the transaction only. */
  function CreatedIn(before: seq<Op>, id: ID, now: Int64): Int64 {
    match MadeAt(before, id) case Some(t) => t case None => now
  }

  function InsideStep(docs: Documents, before: seq<Op>, op: Op): Documents {
    match op
    case Made(id, now, data) => docs[id := Content(now, now, data)]
    case Changed(id, now, data) =>
      if id == [] then docs else docs[id := Content(CreatedIn(before, id, now), now, data)]
    case Removed(id, _) => if id == [] then docs else docs - {id}
  }

  function Inside(docs: Documents, ops: seq<Op>): Documents {
    if ops == [] then docs else
    var n := |ops| - 1;
    InsideStep(Inside(docs, ops[..n]), ops[..n], ops[n])
  }

  // ----- when they agree

  /** The last operation that does something to the id. */
  function LastOn(ops: seq<Op>, id: ID): Option<Op> {
    if ops == [] then None else
    var n := |ops| - 1;
    if ops[n].id == id && (ops[n].Made? || id != []) then Some(ops[n]) else LastOn(ops[..n], id)
  }

  /** The last one that makes it or removes it. */
  function LastSettled(ops: seq<Op>, id: ID): Option<Op> {
    if ops == [] then None else
    var n := |ops| - 1;
    if ops[n].id == id && (ops[n].Made? || (ops[n].Removed? && id != [])) then Some(ops[n])
    else LastSettled(ops[..n], id)
  }

  /**
   * A change that comes last must find the document: made in the same batch and not removed since,
   * or there before with the creation time that the change will give it.
   */
  predicate Agrees(docs: Documents, ops: seq<Op>, id: ID) {
    var last := LastOn(ops, id);
    last.Some? && last.value.Changed? ==>
      match LastSettled(ops, id)
      case Some(settled) => settled.Made?
      case None => id in docs && docs[id].createdAt == last.value.now
  }

  function At(docs: Documents, id: ID): Option<Content> {
    if id in docs then Some(docs[id]) else None
  }

  function InsideAt(docs: Documents, ops: seq<Op>, id: ID): Option<Content> {
    match LastOn(ops, id)
    case None => At(docs, id)
    case Some(Made(_, now, data)) => Some(Content(now, now, data))
    case Some(Changed(_, now, data)) => Some(Content(CreatedIn(ops, id, now), now, data))
    case Some(Removed(_, _)) => None
  }

  function OutsideAt(docs: Documents, ops: seq<Op>, id: ID): Option<Content> {
    var settled := match LastSettled(ops, id)
      case None => At(docs, id)
      case Some(op) => if op.Made? then Some(Content(op.now, op.now, op.data)) else None;
    match LastOn(ops, id)
    case Some(Changed(_, now, data)) =>
      if settled.Some? then Some(Content(settled.value.createdAt, now, data)) else None
    case _ => settled
  }

  lemma {:induction false} InsideIs(docs: Documents, ops: seq<Op>, id: ID)
    ensures At(Inside(docs, ops), id) == InsideAt(docs, ops, id)
  {
    if ops != [] {
      InsideIs(docs, ops[..|ops| - 1], id);
    }
  }

  lemma {:induction false} OutsideIs(docs: Documents, ops: seq<Op>, id: ID)
    ensures At(Outside(docs, ops), id) == OutsideAt(docs, ops, id)
  {
    if ops != [] {
      OutsideIs(docs, ops[..|ops| - 1], id);
      LastKinds(ops[..|ops| - 1], id);
    }
  }

  /** What the last operation on an id says about the last one that settles it. */
  lemma {:induction false} LastKinds(ops: seq<Op>, id: ID)
    ensures var last, settled := LastOn(ops, id), LastSettled(ops, id);
            && (last.Some? && !last.value.Changed? ==> settled == last)
            && (last.None? ==> settled.None?)
            && (settled.Some? ==> !settled.value.Changed?)
            && (last.Some? && last.value.Changed? ==> id != [])
            && (settled.Some? && settled.value.Made? ==> MadeAt(ops, id) == Some(settled.value.now))
            && (settled.None? ==> MadeAt(ops, id).None?)
  {
    if ops != [] {
      LastKinds(ops[..|ops| - 1], id);
    }
  }

  lemma SameAt(docs: Documents, ops: seq<Op>, id: ID)
    ensures At(Inside(docs, ops), id) == At(Outside(docs, ops), id) <==> Agrees(docs, ops, id)
  {
    hide Inside, Outside, LastOn, LastSettled, MadeAt;
    InsideIs(docs, ops, id);
    OutsideIs(docs, ops, id);
    LastKinds(ops, id);
  }

  /** A batch comes to the same inside a transaction and outside if and only if it agrees on every id. */
  lemma SameIff(docs: Documents, ops: seq<Op>)
    ensures Inside(docs, ops) == Outside(docs, ops) <==> forall id :: Agrees(docs, ops, id)
  {
    hide Agrees, Inside, Outside;
    forall id ensures At(Inside(docs, ops), id) == At(Outside(docs, ops), id) <==> Agrees(docs, ops, id) {
      SameAt(docs, ops, id);
    }
    if forall id :: Agrees(docs, ops, id) {
      forall id ensures At(Inside(docs, ops), id) == At(Outside(docs, ops), id) {
        assert Agrees(docs, ops, id);
      }
      SameEverywhere(Inside(docs, ops), Outside(docs, ops));
    }
  }

  lemma SameEverywhere(a: Documents, b: Documents)
    requires forall id :: At(a, id) == At(b, id)
    ensures a == b
  {
    forall id ensures id in a <==> id in b {
      assert At(a, id) == At(b, id);
    }
    forall id | id in a ensures a[id] == b[id] {
      assert At(a, id) == At(b, id);
    }
  }

  // ----- the batch run by the code

  /** The records that an operation of a transaction leaves. */
  function RecordsOf(f: Format, tx: Word64, table: Bytes, before: seq<Op>, op: Op): seq<Record> {
    match op
    case Made(id, now, data) => [Record(REC_INSERT, tx, table, id, now, f.marshal(Content(now, now, data)))]
    case Changed(id, now, data) =>
      if id == [] then []
      else [Record(REC_UPDATE, tx, table, id, now, f.marshal(Content(CreatedIn(before, id, now), now, data)))]
    case Removed(id, now) => if id == [] then [] else [Record(REC_DELETE, tx, table, id, now, [])]
  }

  function Records(f: Format, tx: Word64, table: Bytes, ops: seq<Op>): seq<Record> {
    if ops == [] then [] else
    var n := |ops| - 1;
    Records(f, tx, table, ops[..n]) + RecordsOf(f, tx, table, ops[..n], ops[n])
  }

  lemma {:induction false} RecordsMean(f: Format, tx: Word64, table: Bytes, docs: Documents, ops: seq<Op>)
    requires f.Lawful()
    ensures DocsAfter(f, docs, Records(f, tx, table, ops)) == Inside(docs, ops)
    ensures ForTable(Records(f, tx, table, ops), table) == Records(f, tx, table, ops)
  {
    if ops != [] {
      var n := |ops| - 1;
      RecordsMean(f, tx, table, docs, ops[..n]);
      OneRecord(f, tx, table, docs, Records(f, tx, table, ops[..n]), ops[..n], ops[n]);
    }
  }

  lemma OneRecord(f: Format, tx: Word64, table: Bytes, docs: Documents, recs: seq<Record>, before: seq<Op>, op: Op)
    requires f.Lawful() && ForTable(recs, table) == recs
    ensures var recs' := recs + RecordsOf(f, tx, table, before, op);
            && DocsAfter(f, docs, recs') == InsideStep(DocsAfter(f, docs, recs), before, op)
            && ForTable(recs', table) == recs'
  {
    hide CreatedIn, Format.Lawful, DocsAfter, ForTable;
    var more := RecordsOf(f, tx, table, before, op);
    if more == [] {
      assert recs + more == recs;
    } else {
      AppendOne(f, docs, recs, more[0], table);
      assert more == [more[0]];
      ReadsBack(f);
    }
  }

  lemma AppendOne(f: Format, docs: Documents, recs: seq<Record>, r: Record, table: Bytes)
    ensures DocsAfter(f, docs, recs + [r]) == DocsApplied(f, DocsAfter(f, docs, recs), r)
    ensures r.table == table ==> ForTable(recs + [r], table) == ForTable(recs, table) + [r]
  {
    assert (recs + [r])[..|recs|] == recs;
  }

  lemma ReadsBack(f: Format)
    requires f.Lawful()
    ensures forall c: Content :: f.unmarshal(f.marshal(c)) == Some(c)
  {
  }

  /** A transaction that has been given these operations on the table and no other. */
  ghost predicate Gathered(tx: Tx, table: Bytes, ops: seq<Op>)
    reads tx
  {
    && tx.Valid() && tx.ops == Records(tx.format, tx.id, table, ops)
    && forall id :: (if id in tx.Created(table) then Some(tx.Created(table)[id].createdAt) else None) == MadeAt(ops, id)
  }

  method Gather(tx: Tx, table: Bytes, ops: seq<Op>)
    requires tx.Valid() && tx.ops == [] && tx.docsByTable == map[]
    modifies tx
    ensures Gathered(tx, table, ops)
  {
    hide Tx.Valid, RecordsOf;
    for i := 0 to |ops|
      invariant Gathered(tx, table, ops[..i])
    {
      assert ops[..i + 1][..i] == ops[..i];
      GatherOne(tx, table, ops[..i], ops[i]);
    }
    assert ops[..|ops|] == ops;
  }

  method GatherOne(tx: Tx, table: Bytes, ghost before: seq<Op>, op: Op)
    requires Gathered(tx, table, before)
    modifies tx
    ensures Gathered(tx, table, before + [op])
  {
    hide Tx.Valid, Records;
    MoreRecords(tx.format, tx.id, table, before, op);
    match op {
      case Made(id, now, data) =>
        var doc := tx.Create(table, id, now, data);
      case Changed(id, now, data) =>
        assert CreatedIn(before, id, now) == if id in tx.Created(table) then tx.Created(table)[id].createdAt else now;
        var status := tx.UpdateByID(table, id, now, data);
      case Removed(id, now) =>
        var status := tx.DeleteByID(table, id, now);
        if id == [] {
          assert tx.ops + [] == tx.ops;
        }
    }
  }

  lemma MoreRecords(f: Format, tx: Word64, table: Bytes, before: seq<Op>, op: Op)
    ensures Records(f, tx, table, before + [op]) == Records(f, tx, table, before) + RecordsOf(f, tx, table, before, op)
    ensures forall id ::
              MadeAt(before + [op], id) == if op.Made? && op.id == id then Some(op.now) else MadeAt(before, id)
  {
    assert (before + [op])[..|before|] == before;
  }

  /** The batch in one transaction: gathered and committed. */
  method RunInside(tx: Tx, m: Model, ops: seq<Op>, begun: Int64, ended: Int64)
    requires tx.Valid() && tx.ops == [] && tx.docsByTable == map[]
    requires Writable(m.eng, tx.format) && |m.table| < 0x1_0000
    requires AllFit(Records(tx.format, tx.id, m.table, ops))
    modifies tx, m.eng, m.eng.current, m.eng.idx
    ensures Writable(m.eng, tx.format) && m.eng.Docs() == Inside(old(m.eng.Docs()), ops)
    ensures old(m.eng.Settled()) ==> m.eng.Settled()
    ensures m.eng.Docs() == Outside(old(m.eng.Docs()), ops) <==> forall id :: Agrees(old(m.eng.Docs()), ops, id)
  {
    hide TableEngine.Valid, TableEngine.Settled, TableEngine.Docs, Inside, Outside, Agrees;
    hide Records, DocsAfter, ForTable;
    RecordsMean(tx.format, tx.id, m.table, m.eng.Docs(), ops);
    SameIff(m.eng.Docs(), ops);
    Gather(tx, m.table, ops);
    tx.CommitTo(m, begun, ended);
  }

  /** The record an operation outside a transaction writes has fields that fit. */
  predicate FitsOutside(f: Format, table: Bytes, docs: Documents, op: Op) {
    match op
    case Made(id, now, data) => Fits(Record(REC_INSERT, 0, table, id, now, f.marshal(Content(now, now, data))))
    case Changed(id, now, data) =>
      id in docs ==> Fits(Record(REC_UPDATE, 0, table, id, now, f.marshal(Content(docs[id].createdAt, now, data))))
    case Removed(_, _) => true
  }

  /** The batch one operation at a time. */
  method RunOutside(m: Model, ops: seq<Op>)
    requires m.eng.Valid() && |m.table| < 0x1_0000
    requires forall i | 0 <= i < |ops| :: FitsOutside(m.eng.format, m.table, Outside(m.eng.Docs(), ops[..i]), ops[i])
    modifies m.eng, m.eng.current, m.eng.idx
    ensures m.eng.Valid() && m.eng.Docs() == Outside(old(m.eng.Docs()), ops)
    ensures old(m.eng.Settled()) ==> m.eng.Settled()
  {
    hide TableEngine.Valid, TableEngine.Settled, TableEngine.Docs, OutsideStep, FitsOutside;
    ghost var docs := m.eng.Docs();
    for i := 0 to |ops|
      invariant m.eng.Valid() && m.eng.idx == old(m.eng.idx) && (old(m.eng.Settled()) ==> m.eng.Settled())
      invariant m.eng.current == old(m.eng.current) || fresh(m.eng.current)
      invariant m.eng.Docs() == Outside(docs, ops[..i])
    {
      assert ops[..i + 1][..i] == ops[..i];
      RunOne(m, ops[i]);
    }
    assert ops[..|ops|] == ops;
  }

  method RunOne(m: Model, op: Op)
    requires m.eng.Valid() && |m.table| < 0x1_0000
    requires FitsOutside(m.eng.format, m.table, m.eng.Docs(), op)
    modifies m.eng, m.eng.current, m.eng.idx
    ensures m.eng.Valid() && m.eng.Docs() == OutsideStep(old(m.eng.Docs()), op)
    ensures old(m.eng.Settled()) ==> m.eng.Settled()
    ensures m.eng.idx == old(m.eng.idx) && (m.eng.current == old(m.eng.current) || fresh(m.eng.current))
  {
    hide TableEngine.Valid, TableEngine.LogValid, TableEngine.Docs, TableEngine.Hidden, Fits, DocsAfter;
    match op {
      case Made(id, now, data) =>
        var doc := m.Create(id, now, data);
      case Changed(id, now, data) =>
        var status := m.UpdateByID(id, now, data);
      case Removed(id, now) =>
        var status := m.DeleteByID(id, now);
    }
  }
}
