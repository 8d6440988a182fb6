/** How a document that was stored can be lost: behind what a crash has left of another record. */
module TornTail {
  import opened ByteOrder
  import opened Codec
  import opened Log
  import opened Index
  import opened Collections
  import opened Engine
  import opened Store
  import opened Recovery

  lemma ExtentNotOne(recs: seq<Record>)
    ensures Extent(recs) != 1
  {
  }

  /**
   * One document is stored in a new table, the process dies and one byte of the record is left,
   * the table is opened again and goes on being written: a scan of its files does not find what
   * was written where it was written.
   */
  method WrittenUnseen(format: Format, table: Bytes, id: ID, now: Int64, data: Data, r: Record)
    returns (again: TableEngine, loc: Location)
    requires format.Lawful() && Fits(Record(REC_INSERT, 0, table, id, now, format.marshal(Content(now, now, data))))
    requires Fits(r) && RecordSize(r) < MAX_SEG_SIZE
    ensures Entry(r, loc) !in ScanAll(format.crc, DiskImages(again))
  {
    hide Encode, Decode, EncodeAll, Log.Holds, EntriesOf, Flatten, Meaning, WellFormed, CutRecord, Extent, ScanAll;
    hide TableEngine.Valid, TableEngine.SegsValid;
    var m := NewTable(format, table);
    var doc := m.Create(id, now, data);
    NothingTorn(format.crc);
    ghost var k, cut;
    again, k, cut := RecoverAfterCrash(m.eng, 1);
    ExtentNotOne(cut[|cut| - 1].recs);
    SizeKnown(again);
    loc := WriteBehind(again, r);
  }

  lemma SizeKnown(eng: TableEngine)
    requires eng.SegsValid()
    ensures eng.current.size == |eng.current.data|
  {
    assert eng.current in eng.segs;
  }

  /**
   * A document is created behind torn bytes whose record still lacks bytes then. The table has it
   * and finds it; opened again, the table is what its files held before.
   */
  method LostBehindTear(m: Model, id: ID, now: Int64, data: Data)
    returns (found: Option<Document>, again: TableEngine)
    requires m.eng.Valid() && m.eng.LogValid() && id != []
    requires var r := m.DataRecord(REC_INSERT, id, now, Content(now, now, data)); Fits(r) && m.eng.Hidden(r)
    modifies m.eng, m.eng.current, m.eng.idx
    ensures m.eng.Docs() == old(m.eng.Docs())[id := Content(now, now, data)]
    ensures found == Some(Document(id, Content(now, now, data)))
    ensures again.Valid() && again.Docs() == old(m.eng.Logged())
  {
    hide TableEngine.Valid, TableEngine.LogValid, TableEngine.Hidden, TableEngine.Docs, Fits, Encode;
    ghost var h := m.eng.history;
    var doc := m.Create(id, now, data);
    var status;
    status, found := m.FindByID(id);
    again := Reopen(m.eng);
  }

  /** What the first bytes of a record say about its size. */
  lemma HeaderLeft(crc: Checksum, r: Record)
    requires Fits(r)
    ensures Uint(Encode(crc, r)[..4]) == RecordSize(r) - 4
  {
    Widths();
    assert Encode(crc, r)[..4] == PutUint(4 + |Body(r)|, 4);
    ReadBack(4 + |Body(r)|, 4);
  }

  /** Four bytes of a record are torn, and the table is empty. */
  lemma FourBytes(eng: TableEngine, r0: Record)
    requires eng.InStep() && |eng.segs| == 1 && Fits(r0)
    requires eng.current.data == Encode(eng.format.crc, r0)[..4]
    ensures eng.Logged() == map[] && eng.current.size == 4
    ensures forall n: nat | n + 4 < RecordSize(r0) :: StaysShort(eng.current.torn, n)
  {
    hide Encode, Decode, Meaning, WellFormed, Fits, Format.Stores, Format.Lawful;
    var crc, s := eng.format.crc, eng.current;
    assert s in eng.segs && eng.segs == [s];
    NoRecords(crc, s.recs, s.torn, s.data);
    HeaderLeft(crc, r0);
    assert s.torn[..4] == Encode(crc, r0)[..4];
    assert eng.Files() == [File(s.id, [])] && EntriesOf([File(s.id, [])]) == [] by {
      assert [File(s.id, [])][..0] == [];
    }
    NoCalls(eng.history);
  }

  lemma NoRecords(crc: Checksum, recs: seq<Record>, torn: Bytes, data: Bytes)
    requires data == EncodeAll(crc, recs) + torn && |data| == 4
    ensures recs == [] && torn == data
  {
    hide Encode;
  }

  lemma NoCalls(h: History)
    requires Flatten(h) == []
    ensures h == [] && Meaning(h) == map[]
  {
  }

  /**
   * A document is created in a new table and the process dies when four bytes of its record are
   * written. The table is opened again and a smaller document is created, and found. Opened once
   * more the table is empty, as it was before.
   */
  method StoredAndLost(format: Format, table: Bytes, id: ID, now: Int64, data: Data, id': ID, now': Int64, data': Data)
    returns (found: Option<Document>, again: TableEngine)
    requires format.Lawful() && id' != []
    requires var r0 := Record(REC_INSERT, 0, table, id, now, format.marshal(Content(now, now, data)));
             var r := Record(REC_INSERT, 0, table, id', now', format.marshal(Content(now', now', data')));
             Fits(r0) && Fits(r) && RecordSize(r) + 4 < RecordSize(r0) && RecordSize(r) + 4 <= MAX_SEG_SIZE
    ensures found == Some(Document(id', Content(now', now', data')))
    ensures again.Valid() && again.Docs() == map[]
  {
    hide TableEngine.Valid, TableEngine.LogValid, TableEngine.Docs, Encode, Recovered, Meaning, Flatten, Survives;
    hide OneUnfinished, Extent, StaysShort, EntriesOf, DocsAfter;
    var m := NewTable(format, table);
    ghost var r0 := m.DataRecord(REC_INSERT, id, now, Content(now, now, data));
    var doc := m.Create(id, now, data);
    assert m.eng.current.data == Encode(format.crc, r0);
    ghost var k, cut;
    var eng;
    eng, k, cut := RecoverAfterCrash(m.eng, 4);
    FourLeft(eng, m.eng, cut);
    FourBytes(eng, r0);
    var m' := new Model(table, eng);
    found, again := LostBehindTear(m', id', now', data');
  }

  lemma FourLeft(again: TableEngine, eng: TableEngine, cut: seq<File>)
    requires Recovered(again, eng, 4, cut)
    ensures |again.segs| == |eng.segs| && |eng.current.data| >= 4 && again.current.data == eng.current.data[..4]
  {
  }
}
