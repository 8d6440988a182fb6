/** The operations of a table: create, update, delete, commit, query, search. */
module Store {
  import opened ByteOrder
  import opened Codec
  import opened Log
  import opened Index
  import opened Collections
  import opened Compaction
  import opened Engine
  import opened Queries

  datatype Status = Done | InvalidID | NotFound

  datatype FieldSchema = FieldSchema(name: string, index: bool, search: bool)

  type Documents = map<ID, Content>

  // ----- documents under operations

  /** One record's effect on the documents. */
  function DocsApplied(f: Format, docs: Documents, r: Record): Documents {
    if IsPut(r) && f.unmarshal(r.payload).Some? then docs[r.id := f.unmarshal(r.payload).value]
    else if r.rtype == REC_DELETE then docs - {r.id}
    else docs
  }

  /** The effect of records one after the other. */
  function DocsAfter(f: Format, docs: Documents, recs: seq<Record>): Documents {
    if recs == [] then docs else DocsApplied(f, DocsAfter(f, docs, recs[..|recs| - 1]), recs[|recs| - 1])
  }

  lemma {:induction false} DocsOfAll(f: Format, p: Primary, ops: seq<Entry>, recs: seq<Record>)
    requires f.Readable(p) && |ops| == |recs| && (forall i | 0 <= i < |ops| :: ops[i].rec == recs[i])
    requires forall r | r in recs :: IsOp(r) && (IsPut(r) ==> f.HasContent(r))
    ensures f.Readable(ApplyAll(p, ops)) && f.Docs(ApplyAll(p, ops)) == DocsAfter(f, f.Docs(p), recs)
  {
    if ops != [] {
      var n := |ops| - 1;
      assert recs[n] in recs;
      DocsOfAll(f, p, ops[..n], recs[..n]);
      DocsApply(f, ApplyAll(p, ops[..n]), ops[n]);
    }
  }

  // ----- queries

  ghost function Matching(docs: Documents, conds: seq<Condition>): set<ID> {
    set id | id in docs && Matches(docs[id].data, conds)
  }

  /** How many of n matches a page with this limit and skip has; a limit of 0 or less is none. */
  function PageSize(n: nat, limit: int, skip: int): nat {
    var rest := Max(n - Max(skip, 0), 0);
    if limit > 0 && limit < rest then limit else rest
  }

  /** A page is within the limit, leaves out the skipped, and is as large as that allows. */
  lemma PageIs(n: nat, limit: int, skip: int)
    ensures var page, skipped := PageSize(n, limit, skip), if skip > 0 then skip else 0;
            && (page > 0 ==> page + skipped <= n) && (limit > 0 ==> page <= limit)
            && (page + skipped >= n || (limit > 0 && page == limit))
  {
  }

  /** Each document is listed once and as it is stored. */
  ghost predicate Lists(results: seq<Document>, docs: Documents, ids: set<ID>) {
    && (forall i, j | 0 <= i < j < |results| :: results[i].id != results[j].id)
    && (forall d | d in results :: d.id in ids && d.id in docs && d.content == docs[d.id])
  }

  /** A document has text under some search field for every term of the query. */
  ghost predicate TextMatches(tokenize: string -> seq<string>, data: Data, fields: set<string>, terms: seq<string>) {
    terms != [] && forall t | t in terms :: t in DataTerms(tokenize, data, fields)
  }

  ghost function TextMatching(tokenize: string -> seq<string>, docs: Documents, fields: set<string>,
                              text: string): set<ID> {
    set id | id in docs && TextMatches(tokenize, docs[id].data, fields, tokenize(text))
  }

  /** A term of the text in one of the fields. */
  ghost predicate InSomeField(tokenize: string -> seq<string>, data: Data, fields: set<string>, t: string) {
    exists f | f in fields && f in data :: t in tokenize(data[f])
  }

  /** A search finds a document if every term of the text, and there is one, is a term of one of its search fields. */
  lemma SearchMeans(tokenize: string -> seq<string>, docs: Documents, fields: set<string>, text: string, id: ID)
    ensures id in TextMatching(tokenize, docs, fields, text)
            <==> id in docs && tokenize(text) != []
                 && forall t | t in tokenize(text) :: InSomeField(tokenize, docs[id].data, fields, t)
  {
    if id in docs {
      forall t ensures InSomeField(tokenize, docs[id].data, fields, t)
                       <==> t in DataTerms(tokenize, docs[id].data, fields)
      {
      }
    }
  }

  lemma ListsNone(docs: Documents)
    ensures Lists([], docs, {})
  {
  }

  lemma TakenMore(all: set<ID>, ids: seq<ID>, i: nat)
    requires i < |ids| && Distinct(ids)
    ensures ids[i] !in Elements(ids[..i])
    ensures all * Elements(ids[..i + 1])
            == if ids[i] in all then all * Elements(ids[..i]) + {ids[i]} else all * Elements(ids[..i])
  {
    assert Elements(ids[..i + 1]) == Elements(ids[..i]) + {ids[i]};
  }

  lemma TakenAll(all: set<ID>, ids: seq<ID>)
    requires forall id | id in all :: id in ids
    ensures all * Elements(ids[..|ids|]) == all
  {
    assert ids[..|ids|] == ids;
  }

  lemma TakenNone(all: set<ID>, ids: seq<ID>)
    ensures all * Elements(ids[..0]) == {}
  {
  }

  lemma ListsWider(results: seq<Document>, docs: Documents, ids: set<ID>, wider: set<ID>)
    requires Lists(results, docs, ids) && ids <= wider
    ensures Lists(results, docs, wider)
  {
  }

  lemma ListsMore(results: seq<Document>, docs: Documents, ids: set<ID>, d: Document)
    requires Lists(results, docs, ids) && d.id !in ids && d.id in docs && d.content == docs[d.id]
    ensures Lists(results, docs, ids + {d.id}) && Lists(results + [d], docs, ids + {d.id})
  {
    forall i | 0 <= i < |results| ensures results[i].id in ids {
      assert results[i] in results;
    }
  }

  /** Of the matches seen so far, some were skipped and the others are on the page. */
  ghost predicate Paging(q: Query, docs: Documents, seen: set<ID>, skipped: int, results: seq<Document>)
    reads q
  {
    && Lists(results, docs, seen)
    && 0 <= skipped <= Max(q.skip, 0) && skipped + |results| == |seen|
    && (|results| > 0 ==> skipped == Max(q.skip, 0))
    && (q.limit > 0 ==> |results| <= q.limit)
  }

  lemma PageNone(q: Query, docs: Documents)
    ensures Paging(q, docs, {}, 0, [])
  {
  }

  lemma PageMore(q: Query, docs: Documents, seen: set<ID>, skipped: int, results: seq<Document>, d: Document)
    requires Paging(q, docs, seen, skipped, results) && !(q.limit > 0 && |results| >= q.limit)
    requires d.id !in seen && d.id in docs && d.content == docs[d.id]
    ensures if skipped < q.skip then Paging(q, docs, seen + {d.id}, skipped + 1, results)
            else Paging(q, docs, seen + {d.id}, skipped, results + [d])
  {
    hide Lists;
    ListsMore(results, docs, seen, d);
  }

  lemma PageFull(q: Query, docs: Documents, seen: set<ID>, all: set<ID>, skipped: int, results: seq<Document>)
    requires Paging(q, docs, seen, skipped, results) && seen <= all && q.limit > 0 && |results| >= q.limit
    ensures Lists(results, docs, all) && |results| == PageSize(|all|, q.limit, q.skip)
  {
    SubsetSize(seen, all);
    ListsWider(results, docs, seen, all);
  }

  lemma PageDone(q: Query, docs: Documents, all: set<ID>, skipped: int, results: seq<Document>)
    requires Paging(q, docs, all, skipped, results)
    ensures Lists(results, docs, all) && |results| == PageSize(|all|, q.limit, q.skip)
  {
    hide Lists;
  }

  /**
   * One more condition narrows a query: unequal is what equal leaves of it, and equal, greater and
   * less split its matches that have the field.
   */
  lemma WhereSplits(docs: Documents, conds: seq<Condition>, field: string, value: string)
    ensures var With := (op: string) => Matching(docs, conds + [Condition(field, op, value)]);
            && With(OP_EQ) !! With(OP_NE) && With(OP_EQ) + With(OP_NE) == Matching(docs, conds)
            && With(OP_EQ) !! With(OP_GT) && With(OP_EQ) !! With(OP_LT) && With(OP_GT) !! With(OP_LT)
            && With(OP_EQ) + With(OP_GT) + With(OP_LT) == set id | id in Matching(docs, conds) && field in docs[id].data
  {
    hide Meets, Less, Matching;
    WhereNarrows(docs, conds, Condition(field, OP_EQ, value));
    WhereNarrows(docs, conds, Condition(field, OP_NE, value));
    WhereNarrows(docs, conds, Condition(field, OP_GT, value));
    WhereNarrows(docs, conds, Condition(field, OP_LT, value));
    forall id | id in docs {
      OneOfThree(docs[id].data, field, value);
    }
  }

  /** A query without conditions selects every document. */
  lemma NoConditions(docs: Documents)
    ensures Matching(docs, []) == docs.Keys
  {
  }

  /** One more condition leaves the matches that meet it. */
  lemma WhereNarrows(docs: Documents, conds: seq<Condition>, c: Condition)
    ensures Matching(docs, conds) <= docs.Keys
    ensures Matching(docs, conds + [c]) == set id | id in Matching(docs, conds) && Meets(docs[id].data, c)
  {
    hide Meets, Matches;
    forall id | id in docs {
      OneConditionMore(docs[id].data, conds, c);
    }
  }

  lemma OneOfThree(data: Data, field: string, value: string)
    ensures var eq := Meets(data, Condition(field, OP_EQ, value));
            var gt := Meets(data, Condition(field, OP_GT, value));
            var lt := Meets(data, Condition(field, OP_LT, value));
            && !(eq && gt) && !(eq && lt) && !(gt && lt) && (eq || gt || lt <==> field in data)
            && (Meets(data, Condition(field, OP_NE, value)) <==> !eq)
  {
    hide Less;
    if field in data {
      ExactlyOne(data, field, value);
    }
  }

  lemma OneConditionMore(data: Data, conds: seq<Condition>, c: Condition)
    ensures Matches(data, conds + [c]) <==> Matches(data, conds) && Meets(data, c)
  {
    hide Meets;
    assert forall d :: d in conds + [c] <==> d in conds || d == c;
  }

  // ----- the schema

  /** The indexes know these documents under the declared fields. */
  ghost predicate Known(idx: TableIndex, docs: map<ID, Data>)
    reads idx
  {
    && FieldsKnown(idx.indexedFields, idx.fieldValuesByID, docs)
    && TextKnown(idx.tokenize, idx.searchFields, idx.termsByID, docs)
  }

  lemma NothingKnown(idx: TableIndex)
    ensures Known(idx, map[])
  {
  }

  lemma DocsKeys(f: Format, p: Primary)
    requires f.Readable(p)
    ensures DataOf(f.Docs(p)).Keys == p.Keys
    ensures forall id | id in p :: DataOf(f.Docs(p))[id] == f.Docs(p)[id].data
  {
  }

  /** The names of the fields marked for each index. */
  method Declared(fields: seq<FieldSchema>) returns (indexed: seq<string>, search: seq<string>)
    ensures Elements(indexed) == set f | f in fields && f.index :: f.name
    ensures Elements(search) == set f | f in fields && f.search :: f.name
  {
    indexed, search := [], [];
    for i := 0 to |fields|
      invariant Elements(indexed) == set f | f in fields[..i] && f.index :: f.name
      invariant Elements(search) == set f | f in fields[..i] && f.search :: f.name
    {
      var f := fields[i];
      assert fields[..i + 1] == fields[..i] + [f];
      assert Elements(indexed + [f.name]) == Elements(indexed) + {f.name};
      assert Elements(search + [f.name]) == Elements(search) + {f.name};
      if f.index {
        indexed := indexed + [f.name];
      }
      if f.search {
        search := search + [f.name];
      }
    }
    assert fields[..|fields|] == fields;
  }

  class Model {
    const table: Bytes
    const eng: TableEngine
    /** The search fields of the last declaration. */
    ghost var declared: set<string>

    constructor (table: Bytes, eng: TableEngine)
      ensures this.table == table && this.eng == eng && declared == {}
    {
      this.table, this.eng := table, eng;
      declared := {};
    }

    /** The index searches what was declared last, or has been started anew since. */
    ghost predicate Remembers()
      reads this, eng, eng.idx
    {
      eng.idx.searchFields == declared || eng.idx.Textless()
    }

    /**
     * What a call that writes a record does to the files: its bytes are at the end; if nothing torn
     * stood in front, the files hold one call more, and if torn bytes hide it, the same calls.
     */
    twostate predicate Logs(r: Record)
      reads eng, eng.segs, eng.current
    {
      && (old(eng.LogValid() && eng.Ready(r)) ==>
            eng.OneCallMore(old(eng.history)) && eng.Logged() == DocsAfter(eng.format, old(eng.Logged()), [r]))
      && (old(eng.LogValid() && eng.Hidden(r)) ==> eng.LogValid() && eng.history == old(eng.history))
      && (old(eng.InStep() && eng.Ready(r)) ==> eng.InStep())
      && eng.current.data == (if old(eng.Rotates(r)) then [] else old(eng.current.data)) + Encode(eng.format.crc, r)
      && (!old(eng.Rotates(r)) ==> eng.segs == old(eng.segs))
    }

    /** The same for a transaction, whose first record is its begin mark. */
    twostate predicate LogsBlock(begin: Record, recs: seq<Record>)
      reads eng, eng.segs, eng.current
    {
      && (old(eng.LogValid() && eng.Ready(begin)) ==>
            eng.OneCallMore(old(eng.history)) && eng.Logged() == DocsAfter(eng.format, old(eng.Logged()), recs))
      && (old(eng.InStep() && eng.Ready(begin)) ==> eng.InStep())
    }

    function DataRecord(rtype: Byte, id: ID, now: Int64, content: Content): Record {
      Record(rtype, 0, table, id, now, eng.format.marshal(content))
    }

    /** Stores a new document under an id drawn by the caller. */
    method Create(id: ID, now: Int64, data: Data) returns (doc: Document)
      requires eng.Valid()
      requires Fits(DataRecord(REC_INSERT, id, now, Content(now, now, data)))
      modifies eng, eng.current, eng.idx
      ensures eng.Valid() && doc == Document(id, Content(now, now, data))
      ensures eng.Docs() == old(eng.Docs())[id := doc.content]
      ensures var r := DataRecord(REC_INSERT, id, now, Content(now, now, data));
              Logs(r) && (|eng.history| > |old(eng.history)| ==> eng.history[|old(eng.history)|].Plain?)
      ensures eng.idx == old(eng.idx) && (eng.current == old(eng.current) || fresh(eng.current))
      ensures eng.idx.indexedFields == old(eng.idx.indexedFields) && eng.idx.searchFields == old(eng.idx.searchFields)
      ensures old(Remembers()) ==> Remembers()
    {
      var content := Content(now, now, data);
      Put(DataRecord(REC_INSERT, id, now, content), content);
      return Document(id, content);
    }

    /** Writes a new version and points the indexes at it. */
    method Put(r: Record, content: Content)
      requires eng.Valid() && Fits(r) && r.txID == 0 && IsPut(r)
      requires r.payload == eng.format.marshal(content)
      modifies eng, eng.current, eng.idx
      ensures eng.Valid()
      ensures eng.Docs() == old(eng.Docs())[r.id := content]
      ensures Logs(r) && (|eng.history| > |old(eng.history)| ==> eng.history[|old(eng.history)|].Plain?)
      ensures eng.idx == old(eng.idx) && (eng.current == old(eng.current) || fresh(eng.current))
      ensures eng.idx.indexedFields == old(eng.idx.indexedFields) && eng.idx.searchFields == old(eng.idx.searchFields)
      ensures old(eng.idx.Textless()) ==> eng.idx.Textless()
    {
      hide Encode, Decode, EncodeAll, Log.Holds, Extent, EntriesOf, Flatten, Meaning, WellFormed, Mirrors, TermMirrors;
      hide TableEngine.LogValid, TableEngine.Hidden, TableEngine.Ready, TableEngine.AllRead, TableEngine.SegsShaped;
      hide TableEngine.Reads, DocsAfter;
      ghost var p := eng.mem;
      var loc := WriteOne(r);
      ghost var e := Entry(r, loc);
      eng.IndexPut(r.id, loc, content.data, e);
      DocsApply(eng.format, p, e);
    }

    /** The part in the files, before the indexes follow. */
    method WriteOne(r: Record) returns (loc: Location)
      requires eng.Valid() && Fits(r) && r.txID == 0 && IsOp(r) && (IsPut(r) ==> eng.format.HasContent(r))
      modifies eng, eng.current
      ensures eng.Valid() && eng.Reads(Entry(r, loc))
      ensures eng.mem == old(eng.mem) && eng.idx == old(eng.idx)
      ensures eng.current == old(eng.current) || fresh(eng.current)
      ensures if old(eng.LogValid() && eng.Ready(r))
              then && eng.OneCallMore(old(eng.history)) && eng.history[|old(eng.history)|].Plain?
                   && eng.Live() == Apply(old(eng.Live()), Entry(r, loc))
                   && eng.Logged() == DocsAfter(eng.format, old(eng.Logged()), [r])
              else eng.history == old(eng.history)
      ensures old(eng.LogValid() && eng.Hidden(r)) ==> eng.LogValid() && eng.history == old(eng.history)
      ensures eng.current.data
              == (if old(eng.Rotates(r)) then [] else old(eng.current.data)) + Encode(eng.format.crc, r)
      ensures !old(eng.Rotates(r)) ==> eng.segs == old(eng.segs)
    {
      hide Encode, Decode, EncodeAll, Log.Holds, Extent, EntriesOf, Flatten, Meaning, WellFormed, Mirrors, TermMirrors;
      hide TableEngine.LogValid, TableEngine.Hidden, TableEngine.Ready, TableEngine.Valid, TableEngine.SegsShaped;
      hide TableEngine.Reads, DocsAfter;
      eng.NotBoth(r);
      ghost var live, logged := eng.Live(), eng.LogValid() && eng.Ready(r);
      Parts();
      if logged {
        eng.LoggedReadable();
      }
      loc := eng.LogPlain(r);
      if logged {
        LoggedOne(live, Entry(r, loc));
      }
    }

    /** The documents in the files after one more record. */
    lemma LoggedOne(live: Primary, e: Entry)
      requires eng.LogValid() && eng.Live() == Apply(live, e) && eng.format.Readable(live)
      requires IsOp(e.rec) && (IsPut(e.rec) ==> eng.format.HasContent(e.rec))
      ensures eng.Logged() == DocsAfter(eng.format, eng.format.Docs(live), [e.rec])
    {
      hide TableEngine.SegsValid, EntriesOf, Flatten, Meaning, WellFormed;
      DocsApply(eng.format, live, e);
      assert [e.rec][..0] == [];
    }

    method FindByID(id: ID) returns (status: Status, doc: Option<Document>)
      requires eng.Valid()
      ensures id == [] ==> status == InvalidID && doc.None?
      ensures id != [] && id in eng.Docs() ==> status == Done && doc == Some(Document(id, eng.Docs()[id]))
      ensures id != [] && id !in eng.Docs() ==> status == NotFound && doc.None?
    {
      if id == [] {
        return InvalidID, None;
      }
      if id !in eng.idx.locationByID {
        return NotFound, None;
      }
      doc := Read(id);
      status := Done;
    }

    /** The stored version of a live id. */
    method Read(id: ID) returns (doc: Option<Document>)
      requires eng.Valid() && id in eng.mem
      ensures doc == Some(Document(id, eng.Docs()[id]))
    {
      hide Encode, Decode, EncodeAll, Log.Holds, Extent, EntriesOf, Flatten, Meaning, WellFormed, Mirrors, TermMirrors;
      hide TableEngine.SegsShaped, TableEngine.Reads;
      doc := eng.ReadDoc(id, eng.idx.locationByID[id], eng.mem[id]);
    }

    /** Replaces the data of a live document and keeps its creation time. */
    method UpdateByID(id: ID, now: Int64, data: Data) returns (status: Status)
      requires eng.Valid()
      requires id in eng.Docs() ==>
                 Fits(DataRecord(REC_UPDATE, id, now, Content(eng.Docs()[id].createdAt, now, data)))
      modifies eng, eng.current, eng.idx
      ensures eng.Valid()
      ensures status == if id == [] then InvalidID else if id !in old(eng.Docs()) then NotFound else Done
      ensures status != Done ==> unchanged(eng) && unchanged(eng.current) && unchanged(eng.idx)
      ensures status == Done ==>
                var content := Content(old(eng.Docs())[id].createdAt, now, data);
                var r := DataRecord(REC_UPDATE, id, now, content);
                eng.Docs() == old(eng.Docs())[id := content] && Logs(r)
      ensures eng.idx == old(eng.idx) && (eng.current == old(eng.current) || fresh(eng.current))
      ensures eng.idx.indexedFields == old(eng.idx.indexedFields) && eng.idx.searchFields == old(eng.idx.searchFields)
      ensures old(Remembers()) ==> Remembers()
    {
      hide TableEngine.Valid, TableEngine.LogValid, TableEngine.Ready, TableEngine.Hidden, Fits, TableEngine.Docs;
      hide DocsAfter, TableIndex.Textless;
      Listed(id);
      if id == [] {
        return InvalidID;
      }
      if id !in eng.idx.locationByID {
        return NotFound;
      }
      var old' := Read(id);
      var content := Content(old'.value.content.createdAt, now, data);
      Put(DataRecord(REC_UPDATE, id, now, content), content);
      return Done;
    }

    method DeleteByID(id: ID, now: Int64) returns (status: Status)
      requires eng.Valid() && |table| < 0x1_0000
      modifies eng, eng.current, eng.idx
      ensures eng.Valid()
      ensures status == if id == [] then InvalidID else if id !in old(eng.Docs()) then NotFound else Done
      ensures status != Done ==> unchanged(eng) && unchanged(eng.current) && unchanged(eng.idx)
      ensures status == Done ==>
                var r := Record(REC_DELETE, 0, table, id, now, []);
                eng.Docs() == old(eng.Docs()) - {id} && Logs(r)
      ensures eng.idx == old(eng.idx) && (eng.current == old(eng.current) || fresh(eng.current))
      ensures eng.idx.indexedFields == old(eng.idx.indexedFields) && eng.idx.searchFields == old(eng.idx.searchFields)
      ensures old(Remembers()) ==> Remembers()
    {
      hide TableEngine.Valid, TableEngine.LogValid, TableEngine.Ready, TableEngine.Hidden, TableEngine.Docs;
      hide DocsAfter, TableIndex.Textless;
      Listed(id);
      if id == [] {
        return InvalidID;
      }
      if id !in eng.idx.locationByID {
        return NotFound;
      }
      var prev := Prior(id);
      Remove(id, now);
      return Done;
    }

    /** The record of a live id. */
    method Prior(id: ID) returns (r: Option<Record>)
      requires eng.Valid() && id in eng.mem
      ensures r == Some(eng.mem[id].rec) && |id| < 0x1_0000
    {
      hide Encode, Decode, EncodeAll, Mirrors, TermMirrors, TableEngine.Reads, TableEngine.SegsShaped;
      LocsKeys(eng.mem);
      AllReadAt(id);
      eng.ReadFits(eng.mem[id]);
      r := eng.ReadAt(eng.idx.locationByID[id], eng.mem[id]);
    }

    method Remove(id: ID, now: Int64)
      requires eng.Valid() && |table| < 0x1_0000 && |id| < 0x1_0000
      modifies eng, eng.current, eng.idx
      ensures eng.Valid()
      ensures eng.Docs() == old(eng.Docs()) - {id}
      ensures var r := Record(REC_DELETE, 0, table, id, now, []); Logs(r)
      ensures eng.idx == old(eng.idx) && (eng.current == old(eng.current) || fresh(eng.current))
      ensures eng.idx.indexedFields == old(eng.idx.indexedFields) && eng.idx.searchFields == old(eng.idx.searchFields)
      ensures old(eng.idx.Textless()) ==> eng.idx.Textless()
    {
      hide Encode, Decode, EncodeAll, Log.Holds, Extent, EntriesOf, Flatten, Meaning, WellFormed, Mirrors, TermMirrors;
      hide TableEngine.LogValid, TableEngine.Hidden, TableEngine.Ready, TableEngine.AllRead, TableEngine.SegsShaped;
      hide TableEngine.Reads, DocsAfter;
      ghost var p := eng.mem;
      var r := Record(REC_DELETE, 0, table, id, now, []);
      var loc := WriteOne(r);
      ghost var e := Entry(r, loc);
      eng.IndexDelete(id, e);
      DocsApply(eng.format, p, e);
    }

    /** The index lists exactly the documents. */
    lemma Listed(id: ID)
      requires eng.Valid()
      ensures eng.format.Readable(eng.mem)
      ensures (id in eng.idx.locationByID <==> id in eng.mem) && (id in eng.Docs() <==> id in eng.mem)
    {
      LocsKeys(eng.mem);
      DocsKeys(eng.format, eng.mem);
    }

    lemma AllReadAt(id: ID)
      requires eng.AllRead(eng.mem) && id in eng.mem
      ensures eng.Reads(eng.mem[id]) && IsPut(eng.mem[id].rec) && eng.mem[id].rec.id == id
    {
    }

    /** Declares the indexed and searched fields and indexes every live document under them. */
    method Schema(fields: seq<FieldSchema>)
      requires eng.Valid()
      modifies eng.idx, `declared
      ensures eng.Valid() && eng.Docs() == old(eng.Docs()) && eng.history == old(eng.history)
      ensures eng.idx.indexedFields == (set f | f in fields && f.index :: f.name)
      ensures eng.idx.searchFields == (set f | f in fields && f.search :: f.name)
      ensures eng.idx.searchFields == {} ==> eng.idx.termsByID == old(eng.idx.termsByID)
      ensures eng.idx == old(eng.idx) && declared == eng.idx.searchFields && Remembers()
    {
      hide FieldsKnown, TextKnown, DataOf, TableEngine.Valid, TableEngine.SegsShaped, TableEngine.AllRead, Known;
      hide Format.Lawful, Mirrors, TermMirrors;
      Parts();
      var indexed, search := Declared(fields);
      eng.idx.SetSchema(indexed, search);
      NothingKnown(eng.idx);
      Reindex(eng.mem);
      declared := eng.idx.searchFields;
      Whole();
    }

    /** Indexes every live document under the present schema, in any order. */
    method Reindex(ghost p: Primary)
      requires eng.SegsShaped() && eng.AllRead(p) && eng.format.Readable(p) && eng.mem == p
      requires eng.idx.Valid() && eng.idx.tokenize == eng.format.tokenize && eng.idx.locationByID == Locs(p)
      requires Known(eng.idx, map[])
      modifies eng.idx
      ensures eng.idx.Valid() && eng.idx.locationByID == Locs(p)
      ensures eng.idx.indexedFields == old(eng.idx.indexedFields) && eng.idx.searchFields == old(eng.idx.searchFields)
      ensures Known(eng.idx, DataOf(eng.format.Docs(p)))
      ensures eng.idx.searchFields == {} ==> eng.idx.termsByID == old(eng.idx.termsByID)
    {
      hide TableEngine.SegsShaped, TableEngine.AllRead, Format.Lawful, FieldsKnown, TextKnown, FieldsUpdated;
      hide TextUpdated, DataOf, At, Known, Mirrors, TermMirrors;
      ghost var docs := eng.Docs();
      LocsKeys(p);
      var ids := List(eng.idx.locationByID.Keys);
      AtNone(DataOf(docs), ids);
      DocsKeys(eng.format, p);
      for i := 0 to |ids|
        invariant eng.SegsShaped() && eng.AllRead(p) && eng.mem == p && eng.Docs() == docs
        invariant eng.idx.Valid() && eng.idx.locationByID == Locs(p)
        invariant unchanged(eng.idx`indexedFields) && unchanged(eng.idx`searchFields)
        invariant Known(eng.idx, At(DataOf(docs), ids[..i]))
        invariant eng.idx.searchFields == {} ==> eng.idx.termsByID == old(eng.idx.termsByID)
      {
        var id := ids[i];
        assert id in Elements(ids);
        AtMore(DataOf(docs), ids, i);
        IndexAgain(id, p, At(DataOf(docs), ids[..i]));
      }
      AtAll(DataOf(docs), ids);
    }

    lemma Parts()
      requires eng.Valid()
      ensures eng.SegsShaped() && eng.format.Lawful() && eng.AllRead(eng.mem) && eng.format.Readable(eng.mem)
      ensures eng.idx.Valid() && eng.idx.tokenize == eng.format.tokenize && eng.idx.locationByID == Locs(eng.mem)
    {
    }

    lemma Whole()
      requires eng.SegsShaped() && eng.format.Lawful() && eng.AllRead(eng.mem) && eng.format.Readable(eng.mem)
      requires eng.idx.Valid() && eng.idx.tokenize == eng.format.tokenize && eng.idx.locationByID == Locs(eng.mem)
      requires Known(eng.idx, DataOf(eng.Docs()))
      ensures eng.Valid()
    {
    }

    /** The table's part in a compaction: nothing of what was declared is left in the index. */
    method Compact()
      requires eng.LogValid()
      modifies eng
      ensures eng.Valid() && eng.Settled() && Remembers() && eng.idx.indexedFields == {} && eng.idx.Textless()
      ensures Compactable(old(eng.history)) ==> eng.Docs() == old(eng.Logged())
      ensures forall text :: Found(text) == {}
    {
      hide TableEngine.Valid, TableEngine.LogValid, Compactable, TableEngine.Docs, Found;
      eng.Compact();
      forall text ensures Found(text) == {} {
        NothingFound(text);
      }
    }

    /** Reads one live document and indexes it under the present schema. */
    method IndexAgain(id: ID, ghost p: Primary, ghost seen: map<ID, Data>)
      requires eng.SegsShaped() && eng.AllRead(p) && eng.format.Readable(p) && eng.mem == p && id in p
      requires eng.idx.Valid() && eng.idx.tokenize == eng.format.tokenize && eng.idx.locationByID == Locs(p)
      requires Known(eng.idx, seen)
      modifies eng.idx
      ensures eng.SegsShaped() && eng.AllRead(p) && eng.Docs() == old(eng.Docs())
      ensures eng.idx.Valid() && eng.idx.locationByID == Locs(p)
      ensures eng.idx.indexedFields == old(eng.idx.indexedFields) && eng.idx.searchFields == old(eng.idx.searchFields)
      ensures Known(eng.idx, seen[id := eng.Docs()[id].data])
      ensures eng.idx.searchFields == {} ==> eng.idx.termsByID == old(eng.idx.termsByID)
    {
      hide Encode, Decode, EncodeAll, Log.Holds, Extent, EntriesOf, Flatten, Meaning, WellFormed, Mirrors, TermMirrors;
      hide TableEngine.SegsShaped, TableEngine.Reads, FieldsKnown, TextKnown, FieldsUpdated, TextUpdated, Locs;
      LocsKeys(p);
      var idx := eng.idx;
      var r := eng.ReadAt(idx.locationByID[id], p[id]);
      var content := eng.format.unmarshal(r.value.payload);
      if content.Some? {
        var data := content.value.data;
        idx.UpdateSecondary(id, data);
        FieldsAfterUpdate(idx.indexedFields, old(idx.fieldValuesByID), idx.fieldValuesByID, id, data, seen);
        idx.UpdateText(id, data);
        TextAfterUpdate(idx.tokenize, idx.searchFields, old(idx.termsByID), idx.termsByID, id, data, seen);
        NoTextUpdated(idx.tokenize, idx.searchFields, old(idx.termsByID), idx.termsByID, id, data);
      }
    }

    /** The ids a query has to look at: those under one indexed equality, or all. */
    method Candidates(conds: seq<Condition>) returns (ids: seq<ID>)
      requires eng.Valid()
      ensures Distinct(ids)
      ensures forall id | id in Matching(eng.Docs(), conds) :: id in ids
    {
      hide Encode, Decode, EncodeAll, Log.Holds, Extent, EntriesOf, Flatten, Meaning, WellFormed, Mirrors, TermMirrors;
      hide TableEngine.SegsShaped, TableEngine.AllRead, Format.Lawful, Meets;
      var idx := eng.idx;
      for i := 0 to |conds|
      {
        var c := conds[i];
        var has := idx.HasSecondaryField(c.field);
        if c.op == OP_EQ && has {
          ids := idx.LookupSecondary(c.field, c.value);
          forall id | id in Matching(eng.Docs(), conds) ensures id in ids {
            assert Meets(eng.Docs()[id].data, c);
            MeetsEq(eng.Docs()[id].data, c);
            Indexed(eng.format, eng.mem, idx.indexedFields, idx.fieldValuesByID, id, c);
          }
          return;
        }
      }
      ids := List(idx.locationByID.Keys);
      assert forall id :: id in ids <==> id in Elements(ids);
      DocsKeys(eng.format, eng.mem);
    }

    lemma HasDocs()
      requires eng.Valid()
      ensures eng.format.Readable(eng.mem)
    {
    }

    /** Runs a query: the matching documents, each once, cut to the page. */
    method ExecQuery(q: Query) returns (results: seq<Document>)
      requires eng.Valid()
      ensures Lists(results, eng.Docs(), Matching(eng.Docs(), q.conditions))
      ensures |results| == PageSize(|Matching(eng.Docs(), q.conditions)|, q.limit, q.skip)
    {
      hide Encode, Decode, EncodeAll, Log.Holds, Extent, EntriesOf, Flatten, Meaning, WellFormed, Mirrors, TermMirrors;
      hide TableEngine.SegsShaped, TableEngine.AllRead, Format.Lawful, TableEngine.Indexes, TableEngine.Docs;
      hide Matches, Lists, Elements, Distinct;
      hide Paging, PageSize, Max, TableEngine.Valid;
      ghost var docs := eng.Docs();
      ghost var all := Matching(docs, q.conditions);
      var candidateIDs := Candidates(q.conditions);
      PageNone(q, docs);
      TakenNone(all, candidateIDs);
      results := [];
      var skipped := 0;
      for i := 0 to |candidateIDs|
        invariant Paging(q, docs, all * Elements(candidateIDs[..i]), skipped, results)
      {
        if q.limit > 0 && |results| >= q.limit {
          PageFull(q, docs, all * Elements(candidateIDs[..i]), all, skipped, results);
          return;
        }
        var id := candidateIDs[i];
        TakenMore(all, candidateIDs, i);
        var doc := Lookup(id);
        if doc.Some? {
          if Matches(doc.value.content.data, q.conditions) {
            PageMore(q, docs, all * Elements(candidateIDs[..i]), skipped, results, doc.value);
            if skipped < q.skip {
              skipped := skipped + 1;
            } else {
              results := results + [doc.value];
            }
          }
        }
      }
      TakenAll(all, candidateIDs);
      PageDone(q, docs, all, skipped, results);
    }

    /** The document of an id, if it is live. */
    method Lookup(id: ID) returns (doc: Option<Document>)
      requires eng.Valid()
      ensures doc == if id in eng.Docs() then Some(Document(id, eng.Docs()[id])) else None
    {
      hide Encode, Decode, EncodeAll, Log.Holds, Extent, EntriesOf, Flatten, Meaning, WellFormed, Mirrors, TermMirrors;
      hide TableEngine.SegsShaped, TableEngine.AllRead, Format.Lawful;
      if id !in eng.idx.locationByID {
        return None;
      }
      doc := Read(id);
    }

    /** The live ids indexed under every term of the text. */
    ghost function Found(text: string): set<ID>
      reads eng, eng.idx
    {
      set id | id in eng.Docs() && eng.idx.tokenize(text) != [] && eng.idx.IndexedUnder(id, eng.idx.tokenize(text))
    }

    lemma FoundIsNaive(text: string)
      requires eng.Valid() && eng.idx.searchFields != {}
      ensures Found(text) == TextMatching(eng.format.tokenize, eng.Docs(), eng.idx.searchFields, text)
    {
      forall id | id in eng.Docs()
        ensures forall t :: t in TermsOf(eng.idx.termsByID, id)
                            <==> t in DataTerms(eng.format.tokenize, eng.Docs()[id].data, eng.idx.searchFields)
      {
        TermsKnown(eng.format.tokenize, eng.idx.searchFields, eng.idx.termsByID, DataOf(eng.Docs()), id);
      }
    }

    /**
     * Search is faithful to the search fields of the index for every text if and only if it has
     * one, or no document is still indexed from the time when it had one.
     */
    lemma IndexFaithfulIff()
      requires eng.Valid()
      ensures (forall text :: Found(text) == TextMatching(eng.format.tokenize, eng.Docs(), eng.idx.searchFields, text))
              <==> eng.idx.searchFields != {} || forall id | id in eng.Docs() :: id !in eng.idx.termsByID
    {
      var idx, docs := eng.idx, eng.Docs();
      var tokenize := eng.format.tokenize;
      if idx.searchFields != {} {
        forall text ensures Found(text) == TextMatching(tokenize, docs, idx.searchFields, text) {
          FoundIsNaive(text);
        }
      } else {
        forall text ensures TextMatching(tokenize, docs, {}, text) == {} {
          NoTextMatches(tokenize, docs, text);
        }
        if id :| id in docs && id in idx.termsByID {
          assert HasText(tokenize, idx.termsByID[id]);
          var text :| tokenize(text) != [] && forall t | t in tokenize(text) :: t in idx.termsByID[id];
          assert id in Found(text);
        } else {
          forall text ensures Found(text) == {} {
            NothingFound(text);
          }
        }
      }
    }

    /**
     * Search is faithful to the fields declared last, for every text, exactly so. While the index
     * has them, if there is one, or no document is still indexed from the time when there was one:
     * withdrawing the last search field leaves old terms behind. When a compaction has dropped
     * them, if no document has text under them: nothing is found then.
     */
    lemma SearchFaithfulIff()
      requires eng.Valid() && Remembers()
      ensures (forall text :: Found(text) == TextMatching(eng.format.tokenize, eng.Docs(), declared, text))
              <==> if eng.idx.searchFields == declared
                   then declared != {} || forall id | id in eng.Docs() :: id !in eng.idx.termsByID
                   else forall id | id in eng.Docs() ::
                          DataTerms(eng.format.tokenize, eng.Docs()[id].data, declared) == {}
    {
      var tokenize, docs := eng.format.tokenize, eng.Docs();
      if eng.idx.searchFields == declared {
        IndexFaithfulIff();
      } else {
        forall text ensures Found(text) == {} {
          NothingFound(text);
        }
        NoTextIff(tokenize, docs, declared);
      }
    }

    lemma NothingFound(text: string)
      requires forall id | id in eng.Docs() :: id !in eng.idx.termsByID
      ensures Found(text) == {}
    {
      var tokens := eng.idx.tokenize(text);
      if tokens != [] {
        assert tokens[0] in tokens && forall id | id in eng.Docs() :: TermsOf(eng.idx.termsByID, id) == [];
      }
    }

    /** Full-text search: under a schema with search fields, the documents whose text has every term. */
    method Search(text: string) returns (docs: seq<Document>)
      requires eng.Valid()
      ensures Lists(docs, eng.Docs(), Found(text)) && |docs| == |Found(text)|
      ensures eng.idx.searchFields != {} ==>
                Found(text) == TextMatching(eng.format.tokenize, eng.Docs(), eng.idx.searchFields, text)
    {
      hide Encode, Decode, EncodeAll, Log.Holds, Extent, EntriesOf, Flatten, Meaning, WellFormed, Mirrors, TermMirrors;
      hide TableEngine.SegsShaped, TableEngine.AllRead, Format.Lawful, TableEngine.Docs, Lists, Distinct, TextMatching;
      if eng.idx.searchFields != {} {
        FoundIsNaive(text);
      }
      var ids := eng.idx.SearchText(text);
      docs := Gather(ids, Found(text));
    }

    /** The live documents of the listed ids. */
    method Gather(ids: seq<ID>, ghost all: set<ID>) returns (docs: seq<Document>)
      requires eng.Valid() && Distinct(ids)
      requires forall id :: id in all <==> id in ids && id in eng.Docs()
      ensures Lists(docs, eng.Docs(), all) && |docs| == |all|
    {
      hide Encode, Decode, EncodeAll, Log.Holds, Extent, EntriesOf, Flatten, Meaning, WellFormed, Mirrors, TermMirrors;
      hide TableEngine.SegsShaped, TableEngine.AllRead, Format.Lawful, TableEngine.Docs, TableEngine.Indexes;
      hide Lists, Distinct, Elements;
      ghost var live := eng.Docs();
      ListsNone(live);
      TakenNone(all, ids);
      docs := [];
      ghost var seen: set<ID> := {};
      for i := 0 to |ids|
        invariant seen == all * Elements(ids[..i])
        invariant Lists(docs, live, seen) && |docs| == |seen|
      {
        TakenMore(all, ids, i);
        var doc := Lookup(ids[i]);
        if doc.Some? {
          assert ids[i] in ids;
          ListsMore(docs, live, seen, doc.value);
          seen := seen + {ids[i]};
          docs := docs + [doc.value];
        }
      }
      TakenAll(all, ids);
    }

    /** Appends the transaction's records between its marks and then applies them to the indexes. */
    method CommitTable(txID: Word64, recs: seq<Record>, begun: Int64, ended: Int64)
      requires eng.Valid() && txID != 0 && |table| < 0x1_0000
      requires AllTxOps(eng.format, txID, recs) && AllFit(recs)
      modifies eng, eng.current, eng.idx
      ensures forall s | s in eng.segs :: s in old(eng.segs) || fresh(s)
      ensures eng.Valid()
      ensures eng.Docs() == DocsAfter(eng.format, old(eng.Docs()), recs)
      ensures LogsBlock(Begin(txID, begun), recs)
      ensures |eng.history| > |old(eng.history)| ==> eng.history[|old(eng.history)|].Block?
      ensures eng.idx == old(eng.idx) && (eng.current == old(eng.current) || fresh(eng.current))
      ensures eng.idx.indexedFields == old(eng.idx.indexedFields) && eng.idx.searchFields == old(eng.idx.searchFields)
      ensures old(Remembers()) ==> Remembers()
    {
      hide Encode, Decode, EncodeAll, Log.Holds, Extent, EntriesOf, Flatten, Meaning, WellFormed, Mirrors, TermMirrors;
      hide TableEngine.LogValid, TableEngine.Hidden, TableEngine.Ready, TableEngine.AllRead, TableEngine.SegsShaped;
      hide TableEngine.Reads, TableEngine.Indexes, DocsAfter;
      ghost var p, live := eng.mem, eng.Live();
      var begin := Begin(txID, begun);
      var commit := Record(REC_TX_COMMIT, txID, table, [], ended, []);
      ghost var logged := eng.LogValid() && eng.Ready(begin);
      if logged {
        eng.LoggedReadable();
      }
      HasDocs();
      var written, step := eng.LogBlock(begin, recs, commit);
      ApplyCommitted(written, recs, txID);
      CommittedDocs(eng.format, txID, p, written, recs);
      if logged {
        LoggedAll(live, txID, written, recs);
      }
    }

    function Begin(txID: Word64, begun: Int64): Record {
      Record(REC_TX_BEGIN, txID, table, [], begun, [])
    }

    lemma LoggedAll(live: Primary, txID: Word64, written: seq<Entry>, recs: seq<Record>)
      requires eng.LogValid() && eng.Live() == ApplyAll(live, written) && eng.format.Readable(live)
      requires |written| == |recs| && (forall i | 0 <= i < |recs| :: written[i].rec == recs[i])
      requires AllTxOps(eng.format, txID, recs)
      ensures eng.Logged() == DocsAfter(eng.format, eng.format.Docs(live), recs)
    {
      hide TableEngine.SegsValid, EntriesOf, Flatten, Meaning, WellFormed, AllTxOps;
      CommittedDocs(eng.format, txID, live, written, recs);
    }

    method ApplyCommitted(written: seq<Entry>, recs: seq<Record>, txID: Word64)
      requires eng.Valid() && |written| == |recs|
      requires forall i | 0 <= i < |recs| :: written[i].rec == recs[i] && eng.Reads(written[i])
      requires AllTxOps(eng.format, txID, recs)
      modifies eng.idx, eng`mem
      ensures eng.Valid() && eng.mem == ApplyAll(old(eng.mem), written) && (old(eng.LogValid()) ==> eng.LogValid())
      ensures eng.idx.indexedFields == old(eng.idx.indexedFields) && eng.idx.searchFields == old(eng.idx.searchFields)
      ensures old(eng.idx.Textless()) ==> eng.idx.Textless()
    {
      hide TableEngine.LogValid, TableEngine.Valid, TableEngine.Reads, Apply;
      assert written[..0] == [];
      for i := 0 to |written|
        invariant eng.Valid() && eng.mem == ApplyAll(old(eng.mem), written[..i])
        invariant old(eng.LogValid()) ==> eng.LogValid()
        invariant forall k | i <= k < |written| :: eng.Reads(written[k])
        invariant eng.idx.indexedFields == old(eng.idx.indexedFields)
        invariant eng.idx.searchFields == old(eng.idx.searchFields)
        invariant old(eng.idx.Textless()) ==> eng.idx.Textless()
      {
        assert recs[i] in recs && TxOp(eng.format, txID, recs[i]);
        assert written[..i + 1][..i] == written[..i];
        var e := written[i];
        if e.rec.rtype == REC_INSERT || e.rec.rtype == REC_UPDATE {
          var content := eng.format.unmarshal(e.rec.payload);
          eng.IndexPut(e.rec.id, e.loc, content.value.data, e);
        } else if e.rec.rtype == REC_DELETE {
          eng.IndexDelete(e.rec.id, e);
        }
      }
      assert written[..|written|] == written;
    }
  }

  lemma CommittedDocs(f: Format, tx: Word64, p: Primary, ops: seq<Entry>, recs: seq<Record>)
    requires f.Readable(p) && |ops| == |recs| && (forall i | 0 <= i < |ops| :: ops[i].rec == recs[i])
    requires AllTxOps(f, tx, recs)
    ensures f.Readable(ApplyAll(p, ops)) && f.Docs(ApplyAll(p, ops)) == DocsAfter(f, f.Docs(p), recs)
  {
    forall r | r in recs ensures IsOp(r) && (IsPut(r) ==> f.HasContent(r)) {
      assert TxOp(f, tx, r);
    }
    DocsOfAll(f, p, ops, recs);
  }

  lemma TermsKnown(tokenize: string -> seq<string>, fields: set<string>, terms: TermLists, docs: map<ID, Data>, id: ID)
    requires TextKnown(tokenize, fields, terms, docs) && fields != {} && id in docs
    ensures forall t :: t in TermsOf(terms, id) <==> t in DataTerms(tokenize, docs[id], fields)
  {
    assert forall t :: t in TermsOf(terms, id) <==> t in Elements(TermsOf(terms, id));
  }

  lemma MeetsEq(data: Data, c: Condition)
    requires c.op == OP_EQ && Meets(data, c)
    ensures c.field in data && data[c.field] == c.value
  {
  }

  lemma Indexed(f: Format, p: Primary, fields: set<string>, fv: FieldValues, id: ID, c: Condition)
    requires f.Readable(p) && FieldsKnown(fields, fv, DataOf(f.Docs(p)))
    requires id in p && c.field in fields
    requires c.field in f.Docs(p)[id].data && f.Docs(p)[id].data[c.field] == c.value
    ensures HasValue(fv, c.field, c.value, id)
  {
  }

  /** A table that was never written to. */
  method NewTable(format: Format, table: Bytes) returns (m: Model)
    requires format.Lawful()
    ensures fresh(m) && fresh(m.eng) && fresh(m.eng.segs) && fresh(m.eng.current) && fresh(m.eng.idx)
    ensures m.table == table && m.eng.format == format && m.eng.Valid() && m.eng.Clean() && m.eng.Docs() == map[]
    ensures m.eng.InStep() && m.eng.history == []
    ensures |m.eng.segs| == 1 && m.eng.current.data == [] && m.eng.current.size == 0
    ensures m.eng.idx.indexedFields == {} && m.eng.idx.searchFields == {}
  {
    hide Encode, Decode, EncodeAll, Log.Holds, Extent, EntriesOf, Flatten, WellFormed;
    hide TableEngine.Valid, TableEngine.LogValid, Loaded, Format.Lawful;
    EmptyLog(format);
    var eng := new TableEngine.Open(format, [], [], [], []);
    m := new Model(table, eng);
  }

  lemma NoTextMatches(tokenize: string -> seq<string>, docs: Documents, text: string)
    ensures TextMatching(tokenize, docs, {}, text) == {}
  {
    forall id | id in docs ensures !TextMatches(tokenize, docs[id].data, {}, tokenize(text)) {
      if tokenize(text) != [] {
        assert tokenize(text)[0] in tokenize(text);
      }
    }
  }

  /** No text matches if and only if no document has text. */
  lemma NoTextIff(tokenize: string -> seq<string>, docs: Documents, fields: set<string>)
    ensures (forall text :: TextMatching(tokenize, docs, fields, text) == {})
            <==> forall id | id in docs :: DataTerms(tokenize, docs[id].data, fields) == {}
  {
    if id :| id in docs && DataTerms(tokenize, docs[id].data, fields) != {} {
      var t :| t in DataTerms(tokenize, docs[id].data, fields);
      var f :| f in fields && f in docs[id].data && t in tokenize(docs[id].data[f]);
      assert id in TextMatching(tokenize, docs, fields, docs[id].data[f]);
    } else {
      forall text ensures TextMatching(tokenize, docs, fields, text) == {} {
        forall id | id in docs ensures !TextMatches(tokenize, docs[id].data, fields, tokenize(text)) {
          if tokenize(text) != [] {
            assert tokenize(text)[0] in tokenize(text);
          }
        }
      }
    }
  }

  /** A document matches its own text. */
  lemma OwnText(tokenize: string -> seq<string>, docs: Documents, id: ID, field: string)
    requires id in docs && field in docs[id].data && tokenize(docs[id].data[field]) != []
    ensures id in TextMatching(tokenize, docs, {field}, docs[id].data[field])
  {
  }

  /** A table with one searched field and one document. */
  method TableWithText(format: Format, table: Bytes, field: string, id: ID, now: Int64, data: Data) returns (m: Model)
    requires format.Lawful() && field in data && format.tokenize(data[field]) != []
    requires Fits(Record(REC_INSERT, 0, table, id, now, format.marshal(Content(now, now, data))))
    ensures fresh(m) && fresh(m.eng) && fresh(m.eng.idx) && m.eng.format == format
    ensures m.eng.Valid() && m.eng.Docs() == map[id := Content(now, now, data)] && m.eng.idx.searchFields == {field}
    ensures m.declared == {field} && m.eng.InStep() && |m.eng.history| == 1 && m.eng.history[0].Plain?
  {
    hide TableEngine.SegsShaped, TableEngine.AllRead, Format.Lawful, TableEngine.Indexes, TableEngine.Docs, Encode;
    m := NewTable(format, table);
    var schema := [FieldSchema(field, false, true)];
    m.Schema(schema);
    assert schema[0] in schema && m.eng.idx.searchFields == {field};
    var _ := m.Create(id, now, data);
  }

  /** Withdrawing the search fields changes nothing about what a search finds, where nothing is searched any more. */
  method Withdraw(m: Model)
    requires m.eng.Valid()
    modifies m.eng.idx, m`declared
    ensures m.eng.Valid() && m.eng.Docs() == old(m.eng.Docs()) && m.eng.idx.searchFields == {}
            && m.eng.idx == old(m.eng.idx)
    ensures forall text :: m.Found(text) == old(m.Found(text))
    ensures forall text :: TextMatching(m.eng.format.tokenize, m.eng.Docs(), {}, text) == {}
  {
    hide TableEngine.SegsShaped, TableEngine.AllRead, Format.Lawful, TableEngine.Docs, TextMatching, Encode;
    ghost var docs := m.eng.Docs();
    m.Schema([]);
    forall text ensures m.Found(text) == old(m.Found(text)) {
    }
    forall text ensures TextMatching(m.eng.format.tokenize, docs, {}, text) == {} {
      NoTextMatches(m.eng.format.tokenize, docs, text);
    }
  }

  /**
   * A search field is declared, a document with text in it is stored, the schema is declared
   * without it: a search for the text still finds the document, where no field is searched.
   */
  method WithdrawnFieldIsFound(format: Format, table: Bytes, field: string, id: ID, now: Int64, data: Data)
    returns (m: Model, docs: seq<Document>)
    requires format.Lawful() && field in data && format.tokenize(data[field]) != []
    requires Fits(Record(REC_INSERT, 0, table, id, now, format.marshal(Content(now, now, data))))
    ensures m.eng.Valid() && m.eng.idx.searchFields == {}
    ensures docs == [Document(id, Content(now, now, data))]
    ensures TextMatching(format.tokenize, m.eng.Docs(), {}, data[field]) == {}
  {
    hide TableEngine.LogValid, TableEngine.Valid, TableEngine.Docs, TextMatching, Format.Lawful, Encode, Model.Found;
    m := TableWithText(format, table, field, id, now, data);
    m.FoundIsNaive(data[field]);
    OwnText(format.tokenize, m.eng.Docs(), id, field);
    FoundAmong(m, data[field]);
    assert m.eng.Docs().Keys == {id} && m.Found(data[field]) == {id};
    Withdraw(m);
    docs := m.Search(data[field]);
    OneListed(docs, m.eng.Docs(), id);
  }

  /**
   * A search field is declared, a document with text in it is stored, the table is compacted: the
   * document is there, and a search for its text finds nothing.
   */
  method CompactedSchemaIsLost(format: Format, table: Bytes, field: string, id: ID, now: Int64, data: Data)
    returns (m: Model, docs: seq<Document>)
    requires format.Lawful() && field in data && format.tokenize(data[field]) != []
    requires Fits(Record(REC_INSERT, 0, table, id, now, format.marshal(Content(now, now, data))))
    ensures m.eng.Valid() && m.declared == {field} && m.eng.Docs() == map[id := Content(now, now, data)]
    ensures docs == [] && id in TextMatching(format.tokenize, m.eng.Docs(), m.declared, data[field])
  {
    hide TableEngine.LogValid, TableEngine.Valid, TableEngine.Docs, TableEngine.Logged, TableEngine.InStep;
    hide Format.Lawful, Encode, Model.Found, Compactable, TextMatching;
    m := TableWithText(format, table, field, id, now, data);
    m.eng.InStepDocs();
    OnlyPlain(m.eng);
    m.Compact();
    OwnText(format.tokenize, m.eng.Docs(), id, field);
    docs := m.Search(data[field]);
  }

  lemma OnlyPlain(eng: TableEngine)
    requires eng.LogValid() && forall s | s in eng.history :: s.Plain?
    ensures Compactable(eng.history)
  {
    hide TableEngine.SegsValid, Compactable;
    WithoutCommits(eng.history);
  }

  lemma FoundAmong(m: Model, text: string)
    ensures m.Found(text) <= m.eng.Docs().Keys
  {
  }

  lemma OneListed(results: seq<Document>, docs: Documents, id: ID)
    requires Lists(results, docs, {id}) && |results| == 1 && id in docs
    ensures results == [Document(id, docs[id])]
  {
    assert results[0] in results;
  }
}
