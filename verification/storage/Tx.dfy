/** Transactions: records gathered in memory and written table by table at commit. */
module Transactions {
  import opened ByteOrder
  import opened Codec
  import opened Log
  import opened Compaction
  import opened Index
  import opened Collections
  import opened Engine
  import opened Store

  /** The records of one table, in the order they were made. */
  function ForTable(ops: seq<Record>, table: Bytes): seq<Record> {
    if ops == [] then [] else
    var front, last := ForTable(ops[..|ops| - 1], table), ops[|ops| - 1];
    if last.table == table then front + [last] else front
  }

  /** A record is taken if it is of the table, and what is taken of two runs stands one behind the other. */
  lemma {:induction false} ForTableIs(a: seq<Record>, b: seq<Record>, table: Bytes)
    ensures ForTable(a + b, table) == ForTable(a, table) + ForTable(b, table)
    ensures (forall r | r in b :: r.table == table) ==> ForTable(b, table) == b
    ensures (forall r | r in b :: r.table != table) ==> ForTable(b, table) == []
  {
    if b == [] {
      assert a + b == a;
    } else {
      var front, last := b[..|b| - 1], b[|b| - 1];
      assert (a + b)[..|a + b| - 1] == a + front;
      assert last in b && forall r | r in front :: r in b;
      ForTableIs(a, front, table);
    }
  }

  lemma {:induction false} ForTableOps(f: Format, tx: Word64, ops: seq<Record>, table: Bytes)
    requires AllTxOps(f, tx, ops)
    ensures AllTxOps(f, tx, ForTable(ops, table))
  {
    if ops != [] {
      var front, last := ops[..|ops| - 1], ops[|ops| - 1];
      assert last in ops && forall r | r in front :: r in ops;
      ForTableOps(f, tx, front, table);
    }
  }

  /** An engine that a commit can write to. */
  ghost predicate Writable(eng: TableEngine, format: Format)
    reads eng, eng.segs, eng.idx
  {
    eng.Valid() && eng.format == format
  }

  /** Two engines share no object. */
  ghost predicate Disjoint(a: TableEngine, b: TableEngine)
    reads a, b
  {
    && a != b && a.idx != b.idx
    && (forall s | s in a.segs :: s !in b.segs)
  }

  /** The tables of a database that commits can write to. */
  ghost predicate Apart(tables: map<Bytes, Model>, format: Format)
    reads *
  {
    && (forall t | t in tables :: tables[t].table == t && |t| < 0x1_0000)
    && (forall t | t in tables :: Writable(tables[t].eng, format))
    && (forall t, u | t in tables && u in tables && t != u :: Disjoint(tables[t].eng, tables[u].eng))
  }

  lemma CurrentIsSegment(eng: TableEngine, format: Format)
    requires Writable(eng, format)
    ensures eng.current in eng.segs && eng.format == format
  {
  }

  lemma NothingMore(f: Format, docs: Documents)
    ensures DocsAfter(f, docs, []) == docs
  {
  }

  class Tx {
    const id: Word64
    const format: Format
    var ops: seq<Record>
    /** The documents created in this transaction. */
    var docsByTable: map<Bytes, map<ID, Content>>

    ghost predicate Valid()
      reads this
    {
      id != 0 && format.Lawful() && AllTxOps(format, id, ops)
    }

    constructor (id: Word64, format: Format)
      requires id != 0 && format.Lawful()
      ensures Valid() && this.id == id && this.format == format && ops == [] && docsByTable == map[]
    {
      this.id, this.format := id, format;
      ops, docsByTable := [], map[];
    }

    function PutRecord(rtype: Byte, table: Bytes, docID: ID, now: Int64, content: Content): Record {
      Record(rtype, id, table, docID, now, format.marshal(content))
    }

    function Created(table: Bytes): map<ID, Content>
      reads this
    {
      if table in docsByTable then docsByTable[table] else map[]
    }

    method Create(table: Bytes, docID: ID, now: Int64, data: Data) returns (doc: Document)
      requires Valid()
      modifies this
      ensures Valid() && doc == Document(docID, Content(now, now, data))
      ensures ops == old(ops) + [PutRecord(REC_INSERT, table, docID, now, doc.content)]
      ensures docsByTable == old(docsByTable)[table := old(Created(table))[docID := doc.content]]
    {
      var content := Content(now, now, data);
      ops := ops + [PutRecord(REC_INSERT, table, docID, now, content)];
      docsByTable := docsByTable[table := Created(table)[docID := content]];
      return Document(docID, content);
    }

    /** Keeps the creation time only of a document made in this same transaction. */
    method UpdateByID(table: Bytes, docID: ID, now: Int64, data: Data) returns (status: Status)
      requires Valid()
      modifies this
      ensures Valid() && docsByTable == old(docsByTable)
      ensures status == if docID == [] then InvalidID else Done
      ensures status == Done ==>
                var created := if docID in old(Created(table)) then old(Created(table))[docID].createdAt else now;
                ops == old(ops) + [PutRecord(REC_UPDATE, table, docID, now, Content(created, now, data))]
      ensures status != Done ==> ops == old(ops)
    {
      if docID == [] {
        return InvalidID;
      }
      var createdAt := now;
      if table in docsByTable {
        if docID in docsByTable[table] {
          createdAt := docsByTable[table][docID].createdAt;
        }
      }
      ops := ops + [PutRecord(REC_UPDATE, table, docID, now, Content(createdAt, now, data))];
      return Done;
    }

    method DeleteByID(table: Bytes, docID: ID, now: Int64) returns (status: Status)
      requires Valid()
      modifies this
      ensures Valid() && docsByTable == old(docsByTable)
      ensures status == if docID == [] then InvalidID else Done
      ensures ops == if docID == [] then old(ops) else old(ops) + [Record(REC_DELETE, id, table, docID, now, [])]
    {
      if docID == [] {
        return InvalidID;
      }
      ops := ops + [Record(REC_DELETE, id, table, docID, now, [])];
      return Done;
    }

    /** Sorts the records by table and keeps their order within each. */
    method GroupByTable() returns (byTable: map<Bytes, seq<Record>>)
      ensures forall t :: t in byTable <==> ForTable(ops, t) != []
      ensures forall t | t in byTable :: byTable[t] == ForTable(ops, t)
    {
      byTable := map[];
      for i := 0 to |ops|
        invariant forall t :: t in byTable <==> ForTable(ops[..i], t) != []
        invariant forall t | t in byTable :: byTable[t] == ForTable(ops[..i], t)
      {
        var r := ops[i];
        assert ops[..i + 1][..i] == ops[..i];
        byTable := byTable[r.table := (if r.table in byTable then byTable[r.table] else []) + [r]];
      }
      assert ops[..|ops|] == ops;
    }

    /** The part of the commit that concerns one table. */
    method CommitTo(m: Model, begun: Int64, ended: Int64)
      requires Valid() && Writable(m.eng, format) && |m.table| < 0x1_0000
      requires AllFit(ForTable(ops, m.table))
      modifies m.eng, m.eng.current, m.eng.idx
      ensures Writable(m.eng, format) && m.eng.idx == old(m.eng.idx)
      ensures m.eng.Docs() == DocsAfter(format, old(m.eng.Docs()), ForTable(ops, m.table))
      ensures ForTable(ops, m.table) != [] ==> m.LogsBlock(m.Begin(id, begun), ForTable(ops, m.table))
      ensures |m.eng.history| > |old(m.eng.history)| ==> m.eng.history[|old(m.eng.history)|].Block?
      ensures old(m.eng.Settled()) ==> m.eng.Settled()
      ensures forall s | s in m.eng.segs :: s in old(m.eng.segs) || fresh(s)
    {
      hide TableEngine.LogValid, TableEngine.Valid, AllTxOps, DocsAfter;
      NothingMore(format, m.eng.Docs());
      var recs := ForTable(ops, m.table);
      if recs != [] {
        ForTableOps(format, id, ops, m.table);
        m.CommitTable(id, recs, begun, ended);
      }
    }

    /** One table's part, with the others beside it. */
    method CommitAmong(tables: map<Bytes, Model>, table: Bytes, begun: Int64, ended: Int64)
      requires Valid() && Apart(tables, format) && table in tables && AllFit(ForTable(ops, table))
      modifies tables[table].eng, tables[table].eng.current, tables[table].eng.idx
      ensures Apart(tables, format)
      ensures tables[table].eng.Docs() == DocsAfter(format, old(tables[table].eng.Docs()), ForTable(ops, table))
      ensures tables[table].eng.idx == old(tables[table].eng.idx)
      ensures forall t | t in tables :: old(tables[t].eng.Settled()) ==> tables[t].eng.Settled()
      ensures forall t | t in tables && t != table ::
                tables[t].eng.Docs() == old(tables[t].eng.Docs()) && unchanged(tables[t].eng)
    {
      hide Writable, TableEngine.Settled, TableEngine.Docs, DocsAfter, ForTable, AllFit, AllTxOps;
      ghost var eng := tables[table].eng;
      CurrentIsSegment(eng, format);
      forall t | t in tables && t != table
        ensures tables[t].eng.current in tables[t].eng.segs
        ensures eng.current !in tables[t].eng.segs
      {
        CurrentIsSegment(tables[t].eng, format);
        assert Disjoint(eng, tables[t].eng);
      }
      CommitTo(tables[table], begun, ended);
      assert forall t | t in tables :: Writable(tables[t].eng, format);
      forall t, u | t in tables && u in tables && t != u
        ensures Disjoint(tables[t].eng, tables[u].eng)
      {
        assert old(Disjoint(tables[t].eng, tables[u].eng));
      }
    }

    /** The whole commit, table by table in any order: every table is as after its own operations. */
    method Commit(tables: map<Bytes, Model>, begun: Int64, ended: Int64)
      requires Valid() && forall t :: ForTable(ops, t) != [] ==> t in tables
      requires Apart(tables, format) && forall t | t in tables :: AllFit(ForTable(ops, t))
      modifies set t | t in tables :: tables[t].eng
      modifies set t | t in tables :: tables[t].eng.idx
      modifies set t | t in tables :: tables[t].eng.current
      ensures Apart(tables, format)
      ensures forall t | t in tables :: old(tables[t].eng.Settled()) ==> tables[t].eng.Settled()
      ensures forall t | t in tables ::
                tables[t].eng.Docs() == DocsAfter(format, old(tables[t].eng.Docs()), ForTable(ops, t))
    {
      hide AllTxOps, DocsAfter, ForTable, AllFit, Apart, TableEngine.Docs, TableEngine.Settled;
      var byTable := GroupByTable();
      var names := List(byTable.Keys);
      forall t ensures t in names <==> ForTable(ops, t) != [] {
        assert t in names <==> t in Elements(names);
      }
      CommitEach(names, tables, begun, ended);
      forall t | t in tables && t !in names
        ensures tables[t].eng.Docs() == DocsAfter(format, tables[t].eng.Docs(), ForTable(ops, t))
      {
        NothingMore(format, tables[t].eng.Docs());
      }
    }

    method CommitEach(names: seq<Bytes>, tables: map<Bytes, Model>, begun: Int64, ended: Int64)
      requires Valid() && Apart(tables, format) && Distinct(names)
      requires forall t | t in names :: t in tables && AllFit(ForTable(ops, t))
      modifies set t | t in tables :: tables[t].eng
      modifies set t | t in tables :: tables[t].eng.idx
      modifies set t | t in tables :: tables[t].eng.current
      ensures Apart(tables, format)
      ensures forall t | t in tables :: old(tables[t].eng.Settled()) ==> tables[t].eng.Settled()
      ensures forall t | t in names ::
                tables[t].eng.Docs() == DocsAfter(format, old(tables[t].eng.Docs()), ForTable(ops, t))
      ensures forall t | t in tables && t !in names :: tables[t].eng.Docs() == old(tables[t].eng.Docs())
    {
      hide Tx.Valid, DocsAfter, ForTable, AllFit, Apart, TableEngine.Docs, TableEngine.Settled;
      ghost var before := map t | t in tables :: tables[t].eng.Docs();
      ghost var settled := set t | t in tables && tables[t].eng.Settled();
      for i := 0 to |names|
        invariant Apart(tables, format)
        invariant forall t | t in settled :: tables[t].eng.Settled()
        invariant forall t | t in tables && t !in names[..i] ::
                    unchanged(tables[t].eng) && tables[t].eng.Docs() == before[t]
        invariant forall t | t in names[..i] :: tables[t].eng.Docs() == DocsAfter(format, before[t], ForTable(ops, t))
      {
        assert names[..i + 1] == names[..i] + [names[i]];
        CommitAmong(tables, names[i], begun, ended);
        }
      assert names[..|names|] == names;
    }
  }

  /** What an update outside a transaction makes of the documents. */
  function UpdatedOutside(docs: Documents, id: ID, now: Int64, data: Data): Documents {
    if id in docs then docs[id := Content(docs[id].createdAt, now, data)] else docs
  }

  lemma OneUpdate(f: Format, docs: Documents, id: ID, now: Int64, data: Data, r: Record)
    requires f.Lawful() && r.rtype == REC_UPDATE && r.id == id && r.payload == f.marshal(Content(now, now, data))
    ensures ForTable([r], r.table) == [r]
    ensures DocsAfter(f, docs, [r]) == docs[id := Content(now, now, data)]
    ensures DocsAfter(f, docs, [r]) == UpdatedOutside(docs, id, now, data)
            <==> id in docs && docs[id].createdAt == now
  {
    assert [r][..0] == [];
    var after, outside := docs[id := Content(now, now, data)], UpdatedOutside(docs, id, now, data);
    assert id in after && after[id] == Content(now, now, data);
    assert id in docs && docs[id].createdAt == now ==> after == outside;
  }

  /**
   * A transaction of one update: the document gets the new data and a new creation time, whether
   * or not it was there before. That is what an update outside a transaction does if and only if
   * the document was there and had been created at that very time.
   */
  method CommitOneUpdate(tx: Tx, m: Model, id: ID, now: Int64, data: Data)
    requires tx.Valid() && tx.ops == [] && tx.docsByTable == map[] && id != []
    requires Writable(m.eng, tx.format) && |m.table| < 0x1_0000
    requires Fits(tx.PutRecord(REC_UPDATE, m.table, id, now, Content(now, now, data)))
    modifies tx, m.eng, m.eng.current, m.eng.idx
    ensures Writable(m.eng, tx.format) && (old(m.eng.Settled()) ==> m.eng.Settled())
    ensures m.eng.Docs() == old(m.eng.Docs())[id := Content(now, now, data)]
    ensures m.eng.Docs() == UpdatedOutside(old(m.eng.Docs()), id, now, data)
            <==> id in old(m.eng.Docs()) && old(m.eng.Docs())[id].createdAt == now
  {
    hide TableEngine.Valid, TableEngine.Settled, TableEngine.Docs, Model.LogsBlock, Fits;
    hide AllTxOps, DocsAfter, ForTable;
    var status := tx.UpdateByID(m.table, id, now, data);
    OneUpdate(tx.format, m.eng.Docs(), id, now, data, tx.ops[0]);
    assert tx.ops == [tx.ops[0]];
    tx.CommitTo(m, now, now);
  }

  /**
   * A document is created in a transaction, the transaction is committed, the document is found, the
   * table is compacted: the document is gone.
   */
  method CommittedThenCompacted(format: Format, table: Bytes, id: ID, now: Int64, data: Data)
    returns (m: Model, found: Option<Document>)
    requires format.Lawful() && id != [] && |table| < 0x1_0000
    requires Fits(Record(REC_INSERT, 1, table, id, now, format.marshal(Content(now, now, data))))
    ensures found == Some(Document(id, Content(now, now, data)))
    ensures m.eng.Valid() && m.eng.Docs() == map[]
  {
    hide TableEngine.LogValid, TableEngine.Valid, TableEngine.Docs, Encode, Decode, Format.Lawful, Compactable;
    hide AllTxOps, DocsAfter, ForTable, SameVersions;
    m := NewTable(format, table);
    var tx := new Tx(1, format);
    var doc := tx.Create(table, id, now, data);
    OneInsert(format, map[], id, Content(now, now, data), tx.ops[0]);
    assert tx.ops == [tx.ops[0]];
    tx.CommitTo(m, now, now);
    var status;
    status, found := m.FindByID(id);
    NothingPlain(m.eng);
    m.eng.Compact();
    NoDocs(m.eng);
  }

  lemma OneInsert(f: Format, docs: Documents, id: ID, content: Content, r: Record)
    requires f.Lawful() && r.rtype == REC_INSERT && r.id == id && r.payload == f.marshal(content)
    ensures ForTable([r], r.table) == [r] && DocsAfter(f, docs, [r]) == docs[id := content]
  {
    assert [r][..0] == [];
  }

  lemma NothingPlain(eng: TableEngine)
    requires eng.LogValid() && forall s | s in eng.history :: s.Block?
    ensures PlainPrimary(Flatten(eng.history)) == map[]
  {
    OnlyBlocks(eng.history);
  }

  lemma NoDocs(eng: TableEngine)
    requires eng.InStep() && SameVersions(eng.Live(), map[])
    ensures eng.Docs() == map[]
  {
    hide TableEngine.SegsValid, Meaning;
    eng.InStepDocs();
  }

  /** The input: in an empty table the update makes a document that an update outside a transaction does not find. */
  method UpdateMakesDocument(format: Format, table: Bytes, id: ID, now: Int64, data: Data) returns (m: Model)
    requires format.Lawful() && id != [] && |table| < 0x1_0000
    requires Fits(Record(REC_UPDATE, 1, table, id, now, format.marshal(Content(now, now, data))))
    ensures m.eng.Valid() && id in m.eng.Docs()
  {
    hide TableEngine.Valid, TableEngine.Docs, TableEngine.Clean, Encode, Decode, Format.Lawful, AllTxOps;
    m := NewTable(format, table);
    var status := m.UpdateByID(id, now, data);
    assert status == NotFound;
    var tx := new Tx(1, format);
    CommitOneUpdate(tx, m, id, now, data);
  }
}
