/** One table's engine: its segment files, the log in them, and the indexes over it. */
module Engine {
  import opened ByteOrder
  import opened Codec
  import opened Log
  import opened Index
  import opened Collections
  import opened Compaction

  /** 64 << 20 */
  const MAX_SEG_SIZE: nat := 0x400_0000

  /** What a payload carries. */
  datatype Content = Content(createdAt: Int64, updatedAt: Int64, data: Data)

  datatype Document = Document(id: ID, content: Content)

  /** The file format and the text rules the engine is built on. */
  datatype Format = Format(
    crc: Checksum,
    marshal: Content -> Bytes,
    unmarshal: Bytes -> Option<Content>,
    tokenize: string -> seq<string>)
  {
    /** Payloads are never empty and read back as what was written. */
    ghost predicate Lawful() {
      forall c: Content :: |marshal(c)| > 0 && unmarshal(marshal(c)) == Some(c)
    }

    predicate HasContent(r: Record) {
      |r.payload| > 0 && unmarshal(r.payload).Some?
    }

    /** Every document version in the log has a readable payload. */
    ghost predicate Stores(es: seq<Entry>) {
      forall e | e in es && IsPut(e.rec) :: HasContent(e.rec)
    }

    ghost predicate Readable(p: Primary) {
      forall id | id in p :: HasContent(p[id].rec)
    }

    /** The documents that a primary map stands for. */
    ghost function Docs(p: Primary): map<ID, Content> {
      map id | id in p && unmarshal(p[id].rec.payload).Some? :: unmarshal(p[id].rec.payload).value
    }
  }

  ghost function DataOf(docs: map<ID, Content>): map<ID, Data> {
    map id | id in docs :: docs[id].data
  }

  ghost function Locs(p: Primary): map<ID, Location> {
    map id | id in p :: p[id].loc
  }

  /** m at the listed keys. */
  ghost function At<K, V>(m: map<K, V>, keys: seq<K>): map<K, V> {
    map k | k in keys && k in m :: m[k]
  }

  lemma AtNone<K, V>(m: map<K, V>, keys: seq<K>)
    ensures At(m, keys[..0]) == map[]
  {
  }

  lemma AtKeys<K, V>(m: map<K, V>, keys: seq<K>)
    ensures forall k :: k in At(m, keys) <==> k in keys && k in m
  {
  }

  lemma AtMore<K, V>(m: map<K, V>, keys: seq<K>, i: nat)
    requires i < |keys| && keys[i] in m
    ensures At(m, keys[..i + 1]) == At(m, keys[..i])[keys[i] := m[keys[i]]]
  {
    assert forall k :: k in keys[..i + 1] <==> k in keys[..i] || k == keys[i];
  }

  lemma AtAll<K, V>(m: map<K, V>, keys: seq<K>)
    requires Elements(keys) == m.Keys
    ensures At(m, keys[..|keys|]) == m
  {
    assert keys[..|keys|] == keys;
    assert forall k :: k in keys <==> k in Elements(keys);
  }

  // ----- facts about files and histories

  lemma AppendToLast(files: seq<File>, r: Record)
    requires files != []
    ensures var last := files[|files| - 1];
            var files' := files[..|files| - 1] + [File(last.id, last.recs + [r])];
            EntriesOf(files') == EntriesOf(files) + [Entry(r, Location(last.id, Extent(last.recs), RecordSize(r)))]
  {
    hide EntriesOf, Entries, Extent, RecordSize;
    var n := |files| - 1;
    var last := files[n];
    var more := File(last.id, last.recs + [r]);
    assert files == files[..n] + [last];
    OneFileMore(files[..n], last);
    OneFileMore(files[..n], more);
    OneEntryMore(last.id, last.recs, r);
  }

  lemma OneFileMore(files: seq<File>, file: File)
    ensures EntriesOf(files + [file]) == EntriesOf(files) + Entries(file.id, file.recs)
  {
    assert (files + [file])[..|files|] == files;
  }

  lemma OneEntryMore(id: nat, recs: seq<Record>, r: Record)
    ensures Entries(id, recs + [r]) == Entries(id, recs) + [Entry(r, Location(id, Extent(recs), RecordSize(r)))]
  {
    hide Extent, RecordSize;
    assert (recs + [r])[..|recs|] == recs;
  }

  lemma AppendEmpty(files: seq<File>, id: nat)
    ensures EntriesOf(files + [File(id, [])]) == EntriesOf(files)
  {
    OneFileMore(files, File(id, []));
  }

  /** Where an entry of the log stands: the k-th record of the i-th file. */
  lemma {:induction false} FindEntry(files: seq<File>, e: Entry) returns (i: nat, k: nat)
    requires e in EntriesOf(files)
    ensures i < |files| && k < |files[i].recs| && e == Entries(files[i].id, files[i].recs)[k]
  {
    var n := |files| - 1;
    var last := files[n];
    if e in Entries(last.id, last.recs) {
      i := n;
      k :| 0 <= k < |Entries(last.id, last.recs)| && e == Entries(last.id, last.recs)[k];
    } else {
      i, k := FindEntry(files[..n], e);
    }
  }

  /** Everything live stands in the log. */
  lemma {:induction false} LiveInLog(h: History)
    ensures forall id | id in Meaning(h) ::
              Meaning(h)[id] in Flatten(h) && IsPut(Meaning(h)[id].rec) && Meaning(h)[id].rec.id == id
  {
    if h != [] {
      LiveInLog(h[..|h| - 1]);
      var s := h[|h| - 1];
      if s.Block? {
        ApplyAllFrom(Meaning(h[..|h| - 1]), s.ops);
      }
    }
  }

  lemma {:induction false} ApplyAllFrom(p: Primary, ops: seq<Entry>)
    ensures forall id | id in ApplyAll(p, ops) ::
              var e := ApplyAll(p, ops)[id];
              (id in p && e == p[id]) || (e in ops && IsPut(e.rec) && e.rec.id == id)
  {
    if ops != [] {
      ApplyAllFrom(p, ops[..|ops| - 1]);
    }
  }

  lemma LiveReadable(f: Format, h: History)
    requires f.Stores(Flatten(h))
    ensures f.Readable(Meaning(h))
  {
    LiveInLog(h);
  }

  /** A record that a transaction may write. */
  predicate TxOp(f: Format, tx: Word64, r: Record) {
    r.txID == tx && IsOp(r) && (IsPut(r) ==> f.HasContent(r))
  }

  ghost predicate AllTxOps(f: Format, tx: Word64, ops: seq<Record>) {
    forall r | r in ops :: TxOp(f, tx, r)
  }

  lemma BlockEntries(seen: seq<Entry>, first: Entry, ops: seq<Entry>, last: Entry)
    ensures seen + [first] + ops + [last] == seen + StepEntries(Block(first, ops, Committed(last)))
  {
  }

  lemma BlockValid(f: Format, s: Step, tx: Word64, ops: seq<Record>)
    requires s.Block? && s.begin.rec.txID == tx != 0 && s.begin.rec.rtype == REC_TX_BEGIN
    requires s.end.Committed? && s.end.e.rec.txID == tx && s.end.e.rec.rtype == REC_TX_COMMIT
    requires |s.ops| == |ops| && (forall i | 0 <= i < |ops| :: s.ops[i].rec == ops[i])
    requires AllTxOps(f, tx, ops)
    ensures WellFormedStep(s) && f.Stores(StepEntries(s))
  {
    forall e | e in s.ops ensures TxOp(f, tx, e.rec) {
      var i :| 0 <= i < |s.ops| && s.ops[i] == e;
      assert ops[i] in ops;
    }
  }

  /** One more operation, seen as documents. */
  lemma DocsApply(f: Format, p: Primary, e: Entry)
    requires f.Readable(p) && IsOp(e.rec) && (IsPut(e.rec) ==> f.HasContent(e.rec))
    ensures f.Readable(Apply(p, e))
    ensures f.Docs(Apply(p, e))
            == if IsPut(e.rec) then f.Docs(p)[e.rec.id := f.unmarshal(e.rec.payload).value] else f.Docs(p) - {e.rec.id}
  {
  }

  lemma PutDocs(f: Format, p: Primary, e: Entry)
    requires f.Readable(p) && IsPut(e.rec) && f.HasContent(e.rec)
    ensures f.Readable(Apply(p, e)) && Locs(Apply(p, e)) == Locs(p)[e.rec.id := e.loc]
    ensures DataOf(f.Docs(Apply(p, e))) == DataOf(f.Docs(p))[e.rec.id := f.unmarshal(e.rec.payload).value.data]
  {
    DocsApply(f, p, e);
  }

  lemma DeleteDocs(f: Format, p: Primary, e: Entry)
    requires f.Readable(p) && e.rec.rtype == REC_DELETE
    ensures f.Readable(Apply(p, e)) && Locs(Apply(p, e)) == Locs(p) - {e.rec.id}
    ensures DataOf(f.Docs(Apply(p, e))) == DataOf(f.Docs(p)) - {e.rec.id}
  {
    DocsApply(f, p, e);
  }

  /** The log has one record per live id and no other. */
  ghost predicate OnlyLive(h: History) {
    ExactLog(Flatten(h), Meaning(h))
  }

  ghost predicate ExactLog(log: seq<Entry>, live: Primary) {
    |log| == |live| && forall e | e in log :: e.rec.id in live && live[e.rec.id] == e
  }

  ghost predicate Numbered(segs: seq<SegFile>) {
    forall i | 0 <= i < |segs| :: segs[i].id == i
  }

  lemma EmptyLog(f: Format)
    ensures WellFormed([]) && Flatten([]) == [] == EntriesOf([]) && Meaning([]) == map[]
    ensures Found(f.crc, [], [], []) && f.Stores([]) && OnlyLive([]) && CleanTail([], [])
    ensures SameVersions(Meaning([]), map[])
  {
  }

  lemma LocsKeys(p: Primary)
    ensures Locs(p).Keys == p.Keys && forall id | id in p :: Locs(p)[id] == p[id].loc
  {
  }

  lemma NotYet(ids: seq<ID>, i: nat)
    requires i < |ids| && Distinct(ids)
    ensures ids[i] !in ids[..i]
  {
  }

  lemma VersionsThrough(a: Primary, b: Primary, c: Primary)
    requires SameVersions(a, b)
    ensures SameVersions(a, c) <==> SameVersions(b, c)
  {
  }

  /** The same versions are the same documents. */
  lemma SameDocs(f: Format, p: Primary, q: Primary)
    requires SameVersions(p, q) && f.Readable(p) && f.Readable(q)
    ensures f.Docs(p) == f.Docs(q)
  {
  }

  lemma VersionsMore(p: Primary, q: Primary, id: ID, e: Entry, v: Entry)
    requires SameVersions(p, q) && e.rec == v.rec
    ensures SameVersions(p[id := e], q[id := v])
  {
  }

  lemma ExactMore(log: seq<Entry>, live: Primary, e: Entry)
    requires ExactLog(log, live) && e.rec.id !in live
    ensures ExactLog(log + [e], live[e.rec.id := e])
  {
    var live' := live[e.rec.id := e];
    assert live'.Keys == live.Keys + {e.rec.id};
    forall x | x in log + [e] ensures x.rec.id in live' && live'[x.rec.id] == x {
      assert x in log || x == e;
    }
  }

  lemma CopiedOne(h: History, e: Entry, kept: Primary, ids: seq<ID>, i: nat)
    requires i < |ids| && ids[i] in kept && ids[i] !in ids[..i]
    requires e.rec == kept[ids[i]].rec && e.rec.id == ids[i] && IsPut(e.rec)
    requires SameVersions(Meaning(h), At(kept, ids[..i])) && OnlyLive(h)
    ensures SameVersions(Meaning(h + [Plain(e)]), At(kept, ids[..i + 1])) && OnlyLive(h + [Plain(e)])
  {
    FlattenMore(h, Plain(e));
    hide Flatten, Meaning, At, ExactLog;
    AtMore(kept, ids, i);
    AtKeys(kept, ids[..i]);
    var m := Meaning(h);
    assert ids[i] !in m;
    VersionsMore(m, At(kept, ids[..i]), ids[i], e, kept[ids[i]]);
    ExactMore(Flatten(h), m, e);
  }

  method CollectEntries(primary: map<ID, Location>, es: seq<Entry>, ghost p: Primary)
    returns (primary': map<ID, Location>)
    requires primary == Locs(p)
    ensures primary' == Locs(PlainFrom(p, es))
  {
    primary' := primary;
    for i := 0 to |es|
      invariant primary' == Locs(PlainFrom(p, es[..i]))
    {
      assert es[..i + 1][..i] == es[..i];
      ghost var q := PlainFrom(p, es[..i]);
      var r := es[i].rec;
      if r.rtype == REC_INSERT || r.rtype == REC_UPDATE {
        if r.txID == 0 {
          primary' := primary'[r.id := es[i].loc];
        }
      } else if r.rtype == REC_DELETE {
        if r.txID == 0 {
          primary' := primary' - {r.id};
        }
      }
      assert primary' == Locs(PlainStep(q, es[i]));
    }
    assert es[..|es|] == es;
  }

  // ----- segment files

  class SegFile {
    const id: nat
    var data: Bytes
    var size: nat
    /** What a scan of data finds, and the torn bytes behind it. */
    ghost var recs: seq<Record>
    ghost var torn: Bytes

    /** The file starts with the encodings of recs; what stands behind them is not known to end it. */
    ghost predicate Shaped(crc: Checksum)
      reads this
    {
      size == |data| && Starts(crc, data, recs, torn)
    }

    ghost predicate Valid(crc: Checksum)
      reads this
    {
      size == |data| && Log.Holds(crc, data, recs, torn)
    }

    constructor (crc: Checksum, id: nat, data: Bytes, ghost recs: seq<Record>, ghost torn: Bytes)
      requires Log.Holds(crc, data, recs, torn)
      ensures Valid(crc) && this.id == id && this.data == data && this.size == |data|
              && this.recs == recs && this.torn == torn
    {
      this.id, this.data, this.size := id, data, |data|;
      this.recs, this.torn := recs, torn;
    }

    /** Appends bytes to the file; behind whole records, an encoded record is one more. */
    method Write(crc: Checksum, encoded: Bytes, ghost r: Record)
      requires Shaped(crc) && encoded == Encode(crc, r)
      modifies `data, `size, `recs, `torn
      ensures Shaped(crc) && data == old(data) + encoded && size == old(size) + |encoded|
      ensures old(Valid(crc)) && old(torn) == [] && Fits(r) ==> Valid(crc) && torn == [] && recs == old(recs) + [r]
      ensures !(old(torn) == [] && Fits(r)) ==> recs == old(recs) && torn == old(torn) + encoded
      ensures old(Valid(crc)) && StaysShort(old(torn), |encoded|) ==> Valid(crc) && torn != [] && recs == old(recs)
    {
      hide Encode, Decode, EncodeAll, Extent, Fits;
      data := data + encoded;
      size := size + |encoded|;
      if torn == [] && Fits(r) {
        LastOf(crc, recs, r);
        assert EncodeAll(crc, recs) + [] + encoded == EncodeAll(crc, recs + [r]) + [];
        recs := recs + [r];
        NothingTorn(crc);
      } else {
        assert EncodeAll(crc, recs) + torn + encoded == EncodeAll(crc, recs) + (torn + encoded);
        if StaysShort(torn, |encoded|) {
          StillShort(crc, torn, encoded);
        }
        torn := torn + encoded;
      }
    }
  }

  /** A read of the location gives the record. */
  ghost predicate Stands(crc: Checksum, data: Bytes, e: Entry) {
    && e.loc.offset + e.loc.size <= |data|
    && Decode(crc, data[e.loc.offset..e.loc.offset + e.loc.size]) == Ok(e.rec, e.loc.size)
  }

  lemma StandsOn(crc: Checksum, data: Bytes, more: Bytes)
    ensures forall e | Stands(crc, data, e) :: Stands(crc, data + more, e)
  {
    hide Decode;
    forall e | Stands(crc, data, e) ensures Stands(crc, data + more, e) {
      var loc := e.loc;
      assert (data + more)[loc.offset..loc.offset + loc.size] == data[loc.offset..loc.offset + loc.size];
    }
  }

  lemma StandsAtEnd(crc: Checksum, data: Bytes, segID: nat, r: Record)
    requires Fits(r)
    ensures Stands(crc, data + Encode(crc, r), Entry(r, Location(segID, |data|, RecordSize(r))))
  {
    hide Decode, Encode, Fits;
    var encoded := Encode(crc, r);
    RoundTrip(crc, r, []);
    assert encoded + [] == encoded;
    assert (data + encoded)[|data|..|data| + RecordSize(r)] == encoded;
  }

  lemma SizeIsExtent(crc: Checksum, data: Bytes, recs: seq<Record>)
    requires Log.Holds(crc, data, recs, [])
    ensures |data| == Extent(recs)
  {
  }

  /** Reads one location of a file; beyond the end the read fails. */
  method ReadRecordAt(crc: Checksum, seg: SegFile, loc: Location) returns (d: Decoded)
    ensures d == if loc.offset + loc.size > |seg.data| then Corrupt
                 else Decode(crc, seg.data[loc.offset..loc.offset + loc.size])
  {
    if loc.offset + loc.size > |seg.data| {
      return Corrupt;
    }
    d := DecodeRecord(crc, seg.data[loc.offset..loc.offset + loc.size]);
  }

  /** The records of a file with their locations, up to the first that does not decode. */
  method ScanSegFile(crc: Checksum, seg: SegFile) returns (es: seq<Entry>)
    requires seg.Valid(crc)
    ensures es == Entries(seg.id, seg.recs)
  {
    hide Decode, Encode, EncodeAll, Entries, Fits, Extent;
    ScanEncoded(crc, seg.id, seg.recs, seg.torn);
    es := ScanBytes(crc, seg.id, seg.data);
  }

  method ScanBytes(crc: Checksum, segID: nat, data: Bytes) returns (es: seq<Entry>)
    ensures es == Scan(crc, segID, data, 0)
  {
    hide Decode;
    es := [];
    var off := 0;
    while off < |data|
      invariant off <= |data|
      invariant es + Scan(crc, segID, data, off) == Scan(crc, segID, data, 0)
      decreases |data| - off
    {
      var d := DecodeRecord(crc, data[off..]);
      if !d.Ok? {
        return;
      }
      ScanMore(crc, segID, data, off);
      es := es + [Entry(d.rec, Location(segID, off, d.size))];
      off := off + d.size;
    }
    NothingToDecode(crc, data[off..]);
  }

  lemma NothingToDecode(crc: Checksum, b: Bytes)
    requires b == []
    ensures Decode(crc, b).Corrupt?
  {
  }

  /** The next record will not be written behind torn bytes: there are none, or the last file is full. */
  predicate CleanTail(disk: seq<Image>, torns: seq<Bytes>)
    requires |disk| == |torns|
  {
    disk == [] || torns[|disk| - 1] == [] || |disk[|disk| - 1].data| >= MAX_SEG_SIZE
  }

  /** The first segments are the files found. */
  ghost predicate Loaded(crc: Checksum, segs: seq<SegFile>, disk: seq<Image>, files: seq<File>, torns: seq<Bytes>)
    requires |disk| == |files| == |torns| <= |segs|
    reads segs
  {
    forall k | 0 <= k < |disk| ::
      && segs[k].Valid(crc) && segs[k].id == disk[k].id && segs[k].data == disk[k].data
      && segs[k].recs == files[k].recs && segs[k].torn == torns[k]
  }

  /** Opens the files; the last one goes on being written unless it is full. */
  method LoadSegments(crc: Checksum, disk: seq<Image>, ghost files: seq<File>, ghost torns: seq<Bytes>)
    returns (segs: seq<SegFile>, current: SegFile, nextSeg: nat)
    requires Found(crc, disk, files, torns)
    ensures |disk| <= |segs| <= |disk| + 1 && fresh(segs)
    ensures |segs| > 0 && current == segs[|segs| - 1] && current.Valid(crc)
    ensures Loaded(crc, segs, disk, files, torns)
    ensures nextSeg == current.id + 1 && (disk == [] ==> current.id == 0)
    ensures |segs| == |disk| <==> disk != [] && |disk[|disk| - 1].data| < MAX_SEG_SIZE
    ensures current.torn == [] <==> CleanTail(disk, torns)
    ensures |segs| > |disk| ==>
              && current.recs == [] && current.torn == [] && current.data == [] && current.size == 0
              && forall k | 0 <= k < |disk| :: segs[k].id < current.id
  {
    hide Log.Holds;
    segs, nextSeg := OpenFiles(crc, disk, files, torns);
    if |segs| > 0 && segs[|segs| - 1].size < MAX_SEG_SIZE {
      current := segs[|segs| - 1];
    } else {
      NothingHeld(crc);
      current := new SegFile(crc, nextSeg, [], [], []);
      nextSeg := nextSeg + 1;
      segs := segs + [current];
    }
  }

  method OpenFiles(crc: Checksum, disk: seq<Image>, ghost files: seq<File>, ghost torns: seq<Bytes>)
    returns (segs: seq<SegFile>, nextSeg: nat)
    requires Found(crc, disk, files, torns)
    ensures |segs| == |disk| && fresh(segs)
    ensures Loaded(crc, segs, disk, files, torns)
    ensures nextSeg == if disk == [] then 0 else disk[|disk| - 1].id + 1
  {
    hide Log.Holds;
    segs, nextSeg := [], 0;
    for i := 0 to |disk|
      invariant |segs| == i && fresh(segs)
      invariant Loaded(crc, segs, disk[..i], files[..i], torns[..i])
      invariant nextSeg == if i == 0 then 0 else disk[i - 1].id + 1
    {
      var seg := new SegFile(crc, disk[i].id, disk[i].data, files[i].recs, torns[i]);
      segs := segs + [seg];
      if seg.id >= nextSeg {
        nextSeg := seg.id + 1;
      }
    }
    assert disk[..|disk|] == disk && files[..|disk|] == files && torns[..|disk|] == torns;
  }

  lemma NothingHeld(crc: Checksum)
    ensures Log.Holds(crc, [], [], [])
  {
    NothingToDecode(crc, []);
  }

  // ----- the engine

  /** The segments stand in order and the last one is written to. */
  ghost predicate InShape(crc: Checksum, segs: seq<SegFile>, current: SegFile, nextSeg: nat)
    reads segs
  {
    && (forall i, j | 0 <= i < j < |segs| :: segs[i].id < segs[j].id)
    && (forall s | s in segs :: s.id < nextSeg && s.Shaped(crc))
    && |segs| > 0 && current == segs[|segs| - 1]
  }

  /** What stands behind the records of a segment ends its scan. */
  ghost predicate Sound(crc: Checksum, segs: seq<SegFile>)
    reads segs
  {
    forall s | s in segs :: s.Valid(crc)
  }

  class TableEngine {
    const format: Format
    var segs: seq<SegFile>
    var current: SegFile
    var nextSeg: nat
    var idx: TableIndex
    /** The calls whose records the files hold. */
    ghost var history: History
    /** The versions that the indexes point at. */
    ghost var mem: Primary

    /** Opens a table on the files found on disk and rebuilds its index. */
    constructor Open(format: Format, disk: seq<Image>, ghost files: seq<File>, ghost torns: seq<Bytes>,
                     ghost h: History)
      requires format.Lawful() && Found(format.crc, disk, files, torns)
      requires WellFormed(h) && Flatten(h) == EntriesOf(files) && format.Stores(Flatten(h))
      ensures Valid() && InStep() && fresh(segs) && fresh(current) && fresh(idx) && this.format == format
      ensures history == h && idx.indexedFields == {} && idx.Textless()
      ensures Clean() <==> CleanTail(disk, torns)
      ensures |disk| <= |segs| <= |disk| + 1 && 0 < |segs| && current == segs[|segs| - 1]
      ensures |segs| == |disk| <==> disk != [] && |disk[|disk| - 1].data| < MAX_SEG_SIZE
      ensures Loaded(format.crc, segs, disk, files, torns)
      ensures |segs| > |disk| ==> current.torn == [] && current.data == [] && current.size == 0
      ensures nextSeg == current.id + 1 && (disk == [] ==> current.id == 0)
    {
      hide Encode, Decode, EncodeAll, Log.Holds, Fits, Extent, EntriesOf, Flatten, Meaning, WellFormed;
      hide Loaded, Found, CleanTail, Mirrors, TermMirrors, Locs, Valid, InStep, Sound, InShape;
      this.format := format;
      history := h;
      idx := new TableIndex(format.tokenize);
      var segs', current', next' := LoadSegments(format.crc, disk, files, torns);
      segs, current, nextSeg := segs', current', next';
      new;
      FilesFound(disk, files, torns);
      RebuildIndex();
    }

    lemma FilesFound(disk: seq<Image>, files: seq<File>, torns: seq<Bytes>)
      requires Found(format.crc, disk, files, torns)
      requires |disk| <= |segs| <= |disk| + 1 && Loaded(format.crc, segs, disk, files, torns)
      requires |segs| > 0 && current == segs[|segs| - 1] && current.Valid(format.crc) && nextSeg == current.id + 1
      requires |segs| > |disk| ==> current.recs == [] && forall k | 0 <= k < |disk| :: segs[k].id < current.id
      ensures SegsValid() && EntriesOf(Files()) == EntriesOf(files)
    {
      hide Encode, Decode, EncodeAll, Starts, Fits, Extent, EntriesOf;
      if |segs| == |disk| {
        assert Files() == files;
      } else {
        assert Files() == files + [File(current.id, [])];
        AppendEmpty(files, current.id);
      }
    }

    ghost function Files(): (files: seq<File>)
      reads this, segs
      ensures |files| == |segs|
      ensures forall i | 0 <= i < |segs| :: files[i] == File(segs[i].id, segs[i].recs)
    {
      seq(|segs|, i requires 0 <= i < |segs| reads this, segs => File(segs[i].id, segs[i].recs))
    }

    ghost predicate SegsShaped()
      reads this, segs
    {
      InShape(format.crc, segs, current, nextSeg)
    }

    ghost predicate SegsValid()
      reads this, segs
    {
      SegsShaped() && Sound(format.crc, segs)
    }

    /** The log in the files is the log of the history. */
    ghost predicate LogValid()
      reads this, segs
    {
      && SegsValid()
      && format.Lawful()
      && WellFormed(history)
      && Flatten(history) == EntriesOf(Files())
      && format.Stores(Flatten(history))
    }

    ghost function Live(): Primary
      reads this
    {
      Meaning(history)
    }

    /** The documents that opening the files again would find. */
    ghost function Logged(): map<ID, Content>
      reads this
    {
      format.Docs(Live())
    }

    /** Some file has the record at the location. */
    ghost predicate Reads(e: Entry)
      reads this, segs
    {
      exists s | s in segs :: s.id == e.loc.segID && Stands(format.crc, s.data, e)
    }

    /** What reads back has fields that fit. */
    lemma ReadFits(e: Entry)
      requires Reads(e)
      ensures Fits(e.rec)
    {
      hide Decode;
      var s :| s in segs && s.id == e.loc.segID && Stands(format.crc, s.data, e);
      DecodeIff(format.crc, s.data[e.loc.offset..e.loc.offset + e.loc.size], e.rec, e.loc.size);
    }

    ghost predicate AllRead(p: Primary)
      reads this, segs
    {
      forall id | id in p :: Reads(p[id]) && IsPut(p[id].rec) && p[id].rec.id == id
    }

    /** The documents of the table as it stands. */
    ghost function Docs(): map<ID, Content>
      reads this
    {
      format.Docs(mem)
    }

    /** The indexes are those of the documents in p. */
    ghost predicate Indexes(p: Primary)
      reads this, idx
    {
      && format.Readable(p)
      && idx.Valid() && idx.tokenize == format.tokenize
      && idx.locationByID == Locs(p)
      && FieldsKnown(idx.indexedFields, idx.fieldValuesByID, DataOf(format.Docs(p)))
      && TextKnown(format.tokenize, idx.searchFields, idx.termsByID, DataOf(format.Docs(p)))
    }

    ghost predicate Valid()
      reads this, segs, idx
    {
      SegsShaped() && format.Lawful() && AllRead(mem) && Indexes(mem)
    }

    /** And the log has exactly what the indexes have. */
    ghost predicate InStep()
      reads this, segs
    {
      LogValid() && mem == Live()
    }

    lemma InStepDocs()
      requires InStep()
      ensures LogValid() && format.Readable(mem) && Docs() == Logged()
    {
      hide SegsValid, EntriesOf, Flatten, Meaning, WellFormed;
      LiveReadable(format, history);
    }

    /** Nothing torn stands where the next record would go. */
    ghost predicate Clean()
      reads this, current
    {
      current.torn == []
    }

    method NewSegment()
      requires forall i, j | 0 <= i < j < |segs| :: segs[i].id < segs[j].id
      requires forall s | s in segs :: s.id < nextSeg && s.Shaped(format.crc)
      modifies `segs, `current, `nextSeg
      ensures SegsShaped() && fresh(current) && segs == old(segs) + [current] && nextSeg == old(nextSeg) + 1
      ensures current.id == old(nextSeg) && current.data == [] && current.size == 0 && current.recs == [] && Clean()
      ensures old(Sound(format.crc, segs)) ==> SegsValid()
    {
      var id := nextSeg;
      nextSeg := nextSeg + 1;
      NothingHeld(format.crc);
      var seg := new SegFile(format.crc, id, [], [], []);
      segs := segs + [seg];
      current := seg;
    }

    /** Whether a record would overflow a segment that holds something. */
    predicate Rotates(r: Record)
      reads this, current
    {
      current.size + RecordSize(r) > MAX_SEG_SIZE && current.size > 0
    }

    /** The files hold what the indexes have, and end with a whole record. */
    ghost predicate Settled()
      reads this, segs, current
    {
      InStep() && Clean()
    }

    /** The log is whole, and has one call more than h. */
    ghost predicate OneCallMore(h: History)
      reads this, segs, current
    {
      LogValid() && Clean() && |history| == |h| + 1 && history[..|h|] == h
    }

    /** Nothing torn will stand in front of the record. */
    ghost predicate Ready(r: Record)
      reads this, current
    {
      Clean() || Rotates(r)
    }

    /** The record will stand behind torn bytes that end every scan. */
    ghost predicate Hidden(r: Record)
      reads this, current
    {
      !Rotates(r) && StaysShort(current.torn, RecordSize(r))
    }

    /**
     * Appends the bytes of a record to the current segment, or to a new one when they would
     * overflow one that holds something. Behind whole records a record that fits is one more
     * entry of the log.
     */
    method WriteRecord(r: Record) returns (loc: Location)
      requires SegsShaped()
      modifies `segs, `current, `nextSeg, current
      ensures SegsShaped() && (current == old(current) || fresh(current))
      ensures segs == old(segs) || (segs == old(segs) + [current] && fresh(current) && current.id == old(nextSeg))
      ensures nextSeg == old(nextSeg) + |segs| - |old(segs)| && (|segs| > |old(segs)| <==> old(Rotates(r)))
      ensures current.data == (if old(Rotates(r)) then [] else old(current.data)) + Encode(format.crc, r)
      ensures old(Rotates(r)) ==> old(current).data == old(current.data)
      ensures loc == if old(Rotates(r)) then Location(old(nextSeg), 0, RecordSize(r))
                     else Location(old(current.id), old(current.size), RecordSize(r))
      ensures old(SegsValid() && Ready(r)) && Fits(r) ==>
                SegsValid() && Clean() && EntriesOf(Files()) == old(EntriesOf(Files())) + [Entry(r, loc)]
      ensures old(SegsValid() && Hidden(r)) ==>
                SegsValid() && !Clean() && segs == old(segs) && EntriesOf(Files()) == old(EntriesOf(Files()))
      ensures (forall e :: old(Reads(e)) ==> Reads(e)) && (Fits(r) ==> Reads(Entry(r, loc)))
    {
      hide Encode, Decode, EncodeAll, Log.Holds, Starts, Fits, Extent, EntriesOf, SegFile.Valid, SegFile.Shaped, Stands;
      hide SegsValid, InShape, Reads, StaysShort;
      var data := EncodeRecord(format.crc, r);
      ghost var before := if Rotates(r) then [] else current.data;
      SizeIsLength();
      MakeRoom(r, |data|);
      loc := WriteCurrent(data, r);
      StillReads(data);
      if Fits(r) {
        StandsAtEnd(format.crc, before, current.id, r);
        CurrentReads(Entry(r, loc));
      }
    }

    method MakeRoom(r: Record, size: nat)
      requires SegsShaped() && size == RecordSize(r)
      modifies `segs, `current, `nextSeg
      ensures SegsShaped()
      ensures if old(Rotates(r))
              then segs == old(segs) + [current] && fresh(current) && current.id == old(nextSeg)
                   && current.data == [] && current.size == 0 && nextSeg == old(nextSeg) + 1
              else segs == old(segs) && current == old(current) && nextSeg == old(nextSeg)
      ensures old(SegsValid() && Ready(r)) ==> SegsValid() && Clean() && EntriesOf(Files()) == old(EntriesOf(Files()))
    {
      hide Encode, Decode, EncodeAll, Log.Holds, Starts, Fits, Extent, EntriesOf, SegFile.Valid, SegFile.Shaped;
      if current.size + size > MAX_SEG_SIZE && current.size > 0 {
        ghost var files := Files();
        NewSegment();
        assert Files() == files + [File(current.id, [])];
        AppendEmpty(files, current.id);
      }
    }

    /** Files only grow. */
    twostate lemma StillReads(more: Bytes)
      requires |old(segs)| <= |segs| && old(segs) == segs[..|old(segs)|]
      requires forall s | s in old(segs) :: s.data == old(s.data) || s.data == old(s.data) + more
      ensures forall e :: old(Reads(e)) ==> Reads(e)
    {
      hide Stands;
      forall e | old(Reads(e)) ensures Reads(e) {
        var s :| s in old(segs) && s.id == e.loc.segID && Stands(format.crc, old(s.data), e);
        StandsOn(format.crc, old(s.data), more);
        assert s in segs;
      }
    }

    /** A new segment is begun when 64 MiB would be exceeded, unless the current one has nothing yet. */
    lemma RotatesIff(r: Record)
      requires SegsShaped()
      ensures Rotates(r) <==> current.data != [] && |current.data + Encode(format.crc, r)| > 64 * 1024 * 1024
    {
      hide Encode;
      SizeIsLength();
    }

    lemma SizeIsLength()
      requires SegsShaped()
      ensures current in segs && current.size == |current.data|
    {
      assert current in segs;
    }

    method WriteCurrent(data: Bytes, ghost r: Record) returns (loc: Location)
      requires SegsShaped() && data == Encode(format.crc, r)
      modifies current
      ensures SegsShaped() && current.data == old(current.data) + data
      ensures loc == Location(current.id, old(current.size), RecordSize(r))
      ensures old(SegsValid() && Clean()) && Fits(r) ==>
                SegsValid() && Clean() && EntriesOf(Files()) == old(EntriesOf(Files())) + [Entry(r, loc)]
      ensures old(SegsValid() && StaysShort(current.torn, RecordSize(r))) ==>
                SegsValid() && !Clean() && EntriesOf(Files()) == old(EntriesOf(Files()))
    {
      hide Encode, Decode, EncodeAll, Log.Holds, Starts, Fits, Extent, EntriesOf, StaysShort;
      ghost var files, sound := Files(), SegsValid() && Clean() && Fits(r);
      ghost var hidden := SegsValid() && StaysShort(current.torn, RecordSize(r));
      var offset := current.size;
      assert current in segs;
      if sound {
        assert current.Valid(format.crc);
        SizeIsExtent(format.crc, current.data, current.recs);
        AppendToLast(files, r);
      }
      current.Write(format.crc, data, r);
      loc := Location(current.id, offset, |data|);
      if sound {
        assert Files() == files[..|files| - 1] + [File(current.id, files[|files| - 1].recs + [r])];
      }
      if hidden {
        assert Files() == files;
      }
    }

    lemma CurrentReads(e: Entry)
      requires current in segs && e.loc.segID == current.id && Stands(format.crc, current.data, e)
      ensures Reads(e)
    {
    }

    /** Counts the call whose entries were just written. */
    ghost method Complete(step: Step)
      requires SegsValid() && format.Lawful() && WellFormed(history) && format.Stores(Flatten(history))
      requires EntriesOf(Files()) == Flatten(history) + StepEntries(step)
      requires WellFormedStep(step) && format.Stores(StepEntries(step))
      modifies `history
      ensures LogValid() && history == old(history) + [step]
      ensures Live() == StepMeaning(old(Live()), step)
      ensures SegsShaped() && Clean() == old(Clean()) && forall e :: old(Reads(e)) ==> Reads(e)
    {
      hide Encode, Decode, EncodeAll, Log.Holds, Fits, Extent, EntriesOf, Flatten, Meaning, WellFormed;
      hide WellFormedStep, StepEntries;
      FlattenMore(history, step);
      ghost var files := Files();
      history := history + [step];
      assert Files() == files;
    }

    /**
     * A plain call's record. Its location reads back; the log then is the log of one more call if
     * nothing torn was in front, and that of the same calls if torn bytes hide it.
     */
    method LogPlain(r: Record) returns (loc: Location)
      requires SegsShaped() && format.Lawful() && Fits(r)
      requires r.txID == 0 && IsOp(r) && (IsPut(r) ==> format.HasContent(r))
      modifies `segs, `current, `nextSeg, `history, current
      ensures SegsShaped() && (current == old(current) || fresh(current))
      ensures segs == old(segs) || (segs == old(segs) + [current] && fresh(current) && current.id == old(nextSeg))
      ensures nextSeg == old(nextSeg) + |segs| - |old(segs)| && (!old(Rotates(r)) ==> segs == old(segs))
      ensures current.data == (if old(Rotates(r)) then [] else old(current.data)) + Encode(format.crc, r)
      ensures (forall e :: old(Reads(e)) ==> Reads(e)) && Reads(Entry(r, loc)) && (old(Valid()) ==> Valid())
      ensures if old(LogValid() && Ready(r))
              then LogValid() && Clean() && history == old(history) + [Plain(Entry(r, loc))]
                   && Live() == Apply(old(Live()), Entry(r, loc))
              else history == old(history)
      ensures old(LogValid() && Hidden(r)) ==> LogValid() && !Clean()
    {
      hide Encode, Decode, EncodeAll, Log.Holds, Fits, Extent, EntriesOf, Flatten, Meaning, WellFormed;
      hide SegsShaped, SegsValid, Reads, Hidden;
      ghost var ready, hidden := LogValid() && Ready(r), LogValid() && Hidden(r);
      NotBoth(r);
      loc := WriteRecord(r);
      if ready {
        Complete(Plain(Entry(r, loc)));
      }
      StillValid();
    }

    /** More in the files, and the same indexes. */
    twostate lemma StillValid()
      requires SegsShaped() && mem == old(mem) && idx == old(idx) && unchanged(idx)
      requires forall e :: old(Reads(e)) ==> Reads(e)
      ensures old(Valid()) ==> Valid()
    {
      hide Reads, InShape, Format.Lawful, Mirrors, TermMirrors, FieldsKnown, TextKnown, Locs, DataOf;
    }

    lemma NotBoth(r: Record)
      ensures !(Ready(r) && Hidden(r))
    {
    }

    /**
     * The framed records of a committed transaction, each at its own location, which reads back.
     * The log is that of one more transaction if nothing torn was in front.
     */
    method LogBlock(begin: Record, ops: seq<Record>, commit: Record) returns (written: seq<Entry>, ghost step: Step)
      requires SegsShaped() && format.Lawful()
      requires begin.rtype == REC_TX_BEGIN && begin.txID != 0 && Fits(begin)
      requires commit.rtype == REC_TX_COMMIT && commit.txID == begin.txID && Fits(commit)
      requires AllTxOps(format, begin.txID, ops) && AllFit(ops)
      modifies `segs, `current, `nextSeg, `history, current
      ensures SegsShaped()
      ensures |written| == |ops| && forall i | 0 <= i < |ops| :: written[i].rec == ops[i] && Reads(written[i])
      ensures (forall e :: old(Reads(e)) ==> Reads(e)) && (old(Valid()) ==> Valid())
      ensures (current == old(current) || fresh(current)) && forall s | s in segs :: s in old(segs) || fresh(s)
      ensures if old(LogValid() && Ready(begin))
              then LogValid() && Clean() && history == old(history) + [step] && Live() == ApplyAll(old(Live()), written)
              else history == old(history)
      ensures step.Block? && step.begin.rec == begin && step.ops == written
      ensures step.end.Committed? && step.end.e.rec == commit
    {
      hide Encode, Decode, EncodeAll, Log.Holds, Fits, Extent, EntriesOf, Flatten, Meaning, WellFormed, WellFormedStep;
      hide StepEntries, ApplyAll, SegFile.Valid, Format.Stores, Format.Lawful, AllTxOps;
      hide SegsValid, SegsShaped, Reads;
      ghost var seen, ready := EntriesOf(Files()), LogValid() && Ready(begin);
      ghost var first, last;
      written, first, last := WriteBlock(begin, ops, commit);
      step := Block(first, written, Committed(last));
      BlockEntries(seen, first, written, last);
      BlockValid(format, step, begin.txID, ops);
      if ready {
        Complete(step);
      }
      StillValid();
    }

    method WriteBlock(begin: Record, ops: seq<Record>, commit: Record)
        returns (written: seq<Entry>, ghost first: Entry, ghost last: Entry)
      requires SegsShaped() && Fits(begin) && AllFit(ops) && Fits(commit)
      modifies `segs, `current, `nextSeg, current
      ensures SegsShaped()
      ensures |written| == |ops| && forall i | 0 <= i < |ops| :: written[i].rec == ops[i] && Reads(written[i])
      ensures forall e :: old(Reads(e)) ==> Reads(e)
      ensures first.rec == begin && last.rec == commit
      ensures old(SegsValid() && Ready(begin)) ==>
                SegsValid() && Clean() && EntriesOf(Files()) == old(EntriesOf(Files())) + [first] + written + [last]
      ensures (current == old(current) || fresh(current)) && forall s | s in segs :: s in old(segs) || fresh(s)
    {
      hide Encode, Decode, EncodeAll, Log.Holds, Fits, Extent, EntriesOf, SegsValid, SegsShaped, Clean, Reads;
      var loc := WriteRecord(begin);
      first := Entry(begin, loc);
      written := WriteOps(ops);
      CleanIsReady(commit);
      loc := WriteRecord(commit);
      last := Entry(commit, loc);
    }

    lemma CleanIsReady(r: Record)
      ensures Clean() ==> Ready(r)
    {
    }

    method WriteOps(ops: seq<Record>) returns (written: seq<Entry>)
      requires SegsShaped() && AllFit(ops)
      modifies `segs, `current, `nextSeg, current
      ensures SegsShaped()
      ensures |written| == |ops| && forall i | 0 <= i < |ops| :: written[i].rec == ops[i] && Reads(written[i])
      ensures forall e :: old(Reads(e)) ==> Reads(e)
      ensures old(SegsValid() && Clean()) ==>
                SegsValid() && Clean() && EntriesOf(Files()) == old(EntriesOf(Files())) + written
      ensures (current == old(current) || fresh(current)) && forall s | s in segs :: s in old(segs) || fresh(s)
    {
      hide Encode, Decode, EncodeAll, Log.Holds, Fits, Extent, EntriesOf, SegsValid, SegsShaped, Clean, Reads;
      written := [];
      for i := 0 to |ops|
        invariant SegsShaped() && (current == old(current) || fresh(current))
        invariant forall s | s in segs :: s in old(segs) || fresh(s)
        invariant |written| == i && forall k | 0 <= k < i :: written[k].rec == ops[k] && Reads(written[k])
        invariant forall e :: old(Reads(e)) ==> Reads(e)
        invariant old(SegsValid() && Clean()) ==>
                    SegsValid() && Clean() && EntriesOf(Files()) == old(EntriesOf(Files())) + written
      {
        assert ops[i] in ops;
        CleanIsReady(ops[i]);
        var loc := WriteRecord(ops[i]);
        written := written + [Entry(ops[i], loc)];
      }
    }

    /** Points id at its new version and indexes it. */
    method IndexPut(id: ID, loc: Location, data: Data, ghost e: Entry)
      requires Valid() && Reads(e) && e.loc == loc && e.rec.id == id && IsPut(e.rec) && format.HasContent(e.rec)
      requires data == format.unmarshal(e.rec.payload).value.data
      modifies idx, `mem
      ensures Valid() && mem == Apply(old(mem), e) && (old(LogValid()) ==> LogValid())
      ensures idx.indexedFields == old(idx.indexedFields) && idx.searchFields == old(idx.searchFields)
      ensures old(idx.Textless()) ==> idx.Textless()
      ensures forall x :: old(Reads(x)) ==> Reads(x)
    {
      hide Mirrors, TermMirrors, FieldsKnown, FieldsUpdated, TextKnown, TextUpdated, Apply, Locs, DataOf;
      hide LogValid, SegsShaped, AllRead, Reads, Format.Lawful;
      PutDocs(format, mem, e);
      ghost var docs := DataOf(format.Docs(mem));
      idx.SetPrimary(id, loc);
      idx.UpdateSecondary(id, data);
      FieldsAfterUpdate(idx.indexedFields, old(idx.fieldValuesByID), idx.fieldValuesByID, id, data, docs);
      idx.UpdateText(id, data);
      TextAfterUpdate(format.tokenize, idx.searchFields, old(idx.termsByID), idx.termsByID, id, data, docs);
      NoTextUpdated(format.tokenize, idx.searchFields, old(idx.termsByID), idx.termsByID, id, data);
      Point(e);
    }

    /** The indexes stand at the next version. */
    ghost method Point(e: Entry)
      requires SegsShaped() && format.Lawful() && AllRead(mem) && Indexes(Apply(mem, e))
      requires IsPut(e.rec) ==> Reads(e)
      modifies `mem
      ensures forall x :: old(Reads(x)) ==> Reads(x)
      ensures Valid() && mem == Apply(old(mem), e) && (old(LogValid()) ==> LogValid())
    {
      hide Mirrors, TermMirrors, FieldsKnown, TextKnown, Locs, DataOf, Format.Lawful, InShape, Sound, Stands;
      hide Flatten, EntriesOf, WellFormed, Format.Stores;
      ghost var files := Files();
      mem := Apply(mem, e);
      assert Files() == files;
    }

    method IndexDelete(id: ID, ghost e: Entry)
      requires Valid() && e.rec.id == id && e.rec.rtype == REC_DELETE
      modifies idx, `mem
      ensures Valid() && mem == Apply(old(mem), e) && (old(LogValid()) ==> LogValid())
      ensures idx.indexedFields == old(idx.indexedFields) && idx.searchFields == old(idx.searchFields)
      ensures old(idx.Textless()) ==> idx.Textless()
      ensures forall x :: old(Reads(x)) ==> Reads(x)
    {
      hide Mirrors, TermMirrors, FieldsKnown, FieldsUpdated, TextKnown, TextUpdated, Apply, Locs, DataOf;
      hide LogValid, SegsShaped, AllRead, Reads, Format.Lawful;
      DeleteDocs(format, mem, e);
      ghost var docs := DataOf(format.Docs(mem));
      idx.DeletePrimary(id);
      idx.RemoveSecondary(id);
      FieldsAfterUpdate(idx.indexedFields, old(idx.fieldValuesByID), idx.fieldValuesByID, id, map[], docs);
      idx.RemoveText(id);
      TextAfterUpdate(format.tokenize, idx.searchFields, old(idx.termsByID), idx.termsByID, id, map[], docs);
      NoTextUpdated(format.tokenize, idx.searchFields, old(idx.termsByID), idx.termsByID, id, map[]);
      Point(e);
    }

    /** Rewrites the table to one record per id, counting only records without a transaction. */
    method Compact()
      requires LogValid()
      modifies this
      ensures Valid() && InStep() && Clean() && fresh(segs) && fresh(idx)
      ensures idx.indexedFields == {} && idx.Textless()
      ensures SameVersions(Live(), PlainPrimary(old(Flatten(history))))
      ensures OnlyLive(history) && Numbered(segs) && nextSeg == |segs|
      ensures SameVersions(Live(), old(Live())) <==> Compactable(old(history))
      ensures Compactable(old(history)) ==> Docs() == old(Logged())
    {
      hide Encode, Decode, EncodeAll, Log.Holds, Fits, Extent, EntriesOf, Flatten, Meaning, WellFormed, PlainFrom;
      hide Compactable, Format.Docs, SameVersions, Valid, LogValid, SegsValid, Format.Stores, Format.Lawful;
      LogFacts();
      CompactionKeepsIff(history);
      LiveReadable(format, history);
      ghost var before, p := Meaning(history), PlainPrimary(Flatten(history));
      var primary := CollectPlain();
      var scratch := Rewrite(primary);
      Adopt(scratch);
      RebuildIndex();
      LogFacts();
      LiveReadable(format, history);
      VersionsThrough(Live(), p, before);
      if SameVersions(Live(), before) {
        SameDocs(format, Live(), before);
      }
    }

    /** The rewritten files take the place of the old ones, under an empty index. */
    method Adopt(scratch: TableEngine)
      requires scratch != this && scratch.LogValid() && scratch.Clean() && scratch.format == format
      modifies this
      ensures LogValid() && Clean() && history == scratch.history
      ensures segs == scratch.segs && nextSeg == scratch.nextSeg
      ensures fresh(idx) && idx.Valid() && idx.tokenize == format.tokenize
      ensures idx.locationByID == map[] && idx.indexedFields == {} && idx.Textless()
    {
      hide Encode, Decode, EncodeAll, Log.Holds, Fits, Extent, EntriesOf, Flatten, Meaning, WellFormed;
      hide Mirrors, TermMirrors, InShape, Sound, Format.Lawful, Format.Stores;
      ghost var files := scratch.Files();
      idx := new TableIndex(format.tokenize);
      segs, current, nextSeg := scratch.segs, scratch.current, scratch.nextSeg;
      history := scratch.history;
      assert Files() == files;
    }

    method CollectPlain() returns (primary: map<ID, Location>)
      requires LogValid()
      ensures primary == Locs(PlainPrimary(Flatten(history)))
    {
      hide Decode, Encode, EncodeAll, Extent, Log.Holds, Fits, Flatten, WellFormed;
      primary := map[];
      ghost var p: Primary := map[];
      ghost var files := Files();
      for i := 0 to |segs|
        invariant p == PlainPrimary(EntriesOf(files[..i])) && primary == Locs(p)
      {
        assert segs[i] in segs;
        var es := ScanSegFile(format.crc, segs[i]);
        EntriesMore(files, i);
        PlainConcat(map[], EntriesOf(files[..i]), es);
        primary := CollectEntries(primary, es, p);
        p := PlainFrom(p, es);
      }
      assert files[..|segs|] == files;
    }

    /** Copies what the locations hold into a log of its own, rotating as it goes. */
    method Rewrite(primary: map<ID, Location>) returns (scratch: TableEngine)
      requires LogValid() && primary == Locs(PlainPrimary(Flatten(history)))
      ensures fresh(scratch) && fresh(scratch.segs) && scratch.format == format
      ensures scratch.LogValid() && scratch.Clean()
      ensures SameVersions(scratch.Live(), PlainPrimary(Flatten(history)))
      ensures OnlyLive(scratch.history)
      ensures Numbered(scratch.segs) && scratch.nextSeg == |scratch.segs|
    {
      hide Encode, Decode, EncodeAll, Log.Holds, Fits, Extent, EntriesOf, Flatten, Meaning, WellFormed, PlainFrom, At;
      hide LogValid, SegsValid, SameVersions, OnlyLive, Locs, Valid;
      LogFacts();
      ghost var kept := PlainPrimary(Flatten(history));
      PlainInLog(Flatten(history));
      LocsKeys(kept);
      scratch := Scratch();
      var ids := List(primary.Keys);
      AtNone(kept, ids);
      for i := 0 to |ids|
        invariant LogValid() && fresh(scratch) && fresh(scratch.segs) && scratch.format == format
        invariant scratch.LogValid() && scratch.Clean() && fresh(scratch.current)
        invariant Numbered(scratch.segs) && scratch.nextSeg == |scratch.segs|
        invariant SameVersions(scratch.Live(), At(kept, ids[..i])) && OnlyLive(scratch.history)
      {
        assert ids[i] in Elements(ids);
        NotYet(ids, i);
        CopyOne(scratch, primary[ids[i]], kept, ids, i);
      }
      AtAll(kept, ids);
    }

    /** An engine with a log of its own that holds nothing. */
    method Scratch() returns (scratch: TableEngine)
      requires format.Lawful()
      ensures fresh(scratch) && fresh(scratch.segs) && fresh(scratch.current) && scratch.format == format
      ensures scratch.LogValid() && scratch.Clean() && Numbered(scratch.segs) && scratch.nextSeg == |scratch.segs|
      ensures SameVersions(scratch.Live(), map[]) && OnlyLive(scratch.history)
    {
      hide Encode, Decode, EncodeAll, Log.Holds, Fits, Extent, EntriesOf, Flatten, Meaning, WellFormed;
      hide SegsValid, SameVersions, OnlyLive, Valid, Loaded, Found;
      EmptyLog(format);
      scratch := new TableEngine.Open(format, [], [], [], []);
    }

    method CopyOne(scratch: TableEngine, loc: Location, ghost kept: Primary, ghost ids: seq<ID>, ghost i: nat)
      requires LogValid() && scratch != this && scratch.format == format && scratch.current !in segs
      requires scratch.LogValid() && scratch.Clean() && Numbered(scratch.segs) && scratch.nextSeg == |scratch.segs|
      requires i < |ids| && ids[i] in kept && ids[i] !in ids[..i]
      requires var e := kept[ids[i]];
               e in Flatten(history) && e.loc == loc && IsPut(e.rec) && e.rec.id == ids[i] && e.rec.txID == 0
      requires SameVersions(scratch.Live(), At(kept, ids[..i])) && OnlyLive(scratch.history)
      modifies scratch, scratch.current
      ensures LogValid() && history == old(history) && segs == old(segs)
      ensures scratch.LogValid() && scratch.Clean() && Numbered(scratch.segs) && scratch.nextSeg == |scratch.segs|
      ensures scratch.segs == old(scratch.segs)
              || (scratch.segs == old(scratch.segs) + [scratch.current] && fresh(scratch.current))
      ensures scratch.current == old(scratch.current) || fresh(scratch.current)
      ensures SameVersions(scratch.Live(), At(kept, ids[..i + 1])) && OnlyLive(scratch.history)
    {
      hide Encode, Decode, EncodeAll, Log.Holds, Fits, Extent, EntriesOf, Flatten, Meaning, WellFormed, At;
      hide SameVersions, OnlyLive, LogValid, Valid, Reads, InShape, Sound, Format.Lawful, Format.Stores, Hidden;
      LogFacts();
      ghost var e := kept[ids[i]];
      LoggedReads(e);
      var r := ReadAt(loc, e);
      ghost var before := scratch.history;
      scratch.CleanIsReady(r.value);
      scratch.LogFacts();
      var copied := scratch.LogPlain(r.value);
      CopiedOne(before, Entry(r.value, copied), kept, ids, i);
    }

    lemma LogFacts()
      requires LogValid()
      ensures SegsValid() && Flatten(history) == EntriesOf(Files()) && format.Stores(Flatten(history))
              && format.Lawful() && WellFormed(history)
    {
    }

    method SegByID(id: nat) returns (s: SegFile?)
      ensures s != null ==> s in segs && s.id == id
      ensures s == null ==> forall t | t in segs :: t.id != id
    {
      for i := 0 to |segs|
        invariant forall k | 0 <= k < i :: segs[k].id != id
      {
        if segs[i].id == id {
          return segs[i];
        }
      }
      return null;
    }

    /** The record that stands at a location is what a read of that location returns. */
    method ReadAt(loc: Location, ghost e: Entry) returns (r: Option<Record>)
      requires SegsShaped() && Reads(e) && loc == e.loc
      ensures r == Some(e.rec)
    {
      hide Decode, Encode, EncodeAll, Extent, EntriesOf, SegFile.Shaped;
      ghost var s :| s in segs && s.id == e.loc.segID && Stands(format.crc, s.data, e);
      var seg := SegByID(loc.segID);
      if seg == null {
        return None;
      }
      assert seg == s;
      var d := ReadRecordAt(format.crc, seg, loc);
      r := if d.Ok? then Some(d.rec) else None;
    }

    method ReadDoc(id: ID, loc: Location, ghost e: Entry) returns (doc: Option<Document>)
      requires SegsShaped() && Reads(e) && loc == e.loc && format.HasContent(e.rec)
      ensures doc == Some(Document(id, format.unmarshal(e.rec.payload).value))
    {
      var r := ReadAt(loc, e);
      if r.None? {
        return None;
      }
      var content := format.unmarshal(r.value.payload);
      if content.None? {
        return None;
      }
      return Some(Document(id, content.value));
    }

    /** Replays the whole log and then indexes what is live. */
    method RebuildIndex()
      requires LogValid()
      requires idx.Valid() && idx.tokenize == format.tokenize
      requires idx.locationByID == map[] && idx.indexedFields == {} && idx.Textless()
      modifies idx, `mem
      ensures Valid() && InStep() && idx.indexedFields == {} && idx.Textless()
    {
      hide Decode, Encode, EncodeAll, Extent, Log.Holds, Fits, Meaning, Flatten, EntriesOf, WellFormed, ReplayFrom;
      hide Mirrors, TermMirrors, At, SegsValid;
      ghost var live := Live();
      var primary := ReplaySegments();
      ReplayIsMeaning(history);
      LiveInLog(history);
      var ids := List(primary.Keys);
      AtNone(primary, ids);
      for i := 0 to |ids|
        invariant LogValid() && Live() == live
        invariant idx.Valid() && idx.indexedFields == {} && idx.Textless()
        invariant idx.locationByID == At(primary, ids[..i])
      {
        var id := ids[i];
        assert id in Elements(ids);
        AtMore(primary, ids, i);
        IndexOne(id, primary[id], live[id]);
      }
      AtAll(primary, ids);
      NothingDeclared();
      Refresh();
    }

    lemma NothingDeclared()
      requires LogValid() && idx.Valid() && idx.tokenize == format.tokenize
      requires idx.indexedFields == {} && idx.searchFields == {} && idx.locationByID == Locs(Live())
      ensures Indexes(Live())
    {
      hide SegsValid, Meaning, Flatten, EntriesOf, WellFormed;
      LiveReadable(format, history);
    }

    /** The indexes point at what the log has. */
    ghost method Refresh()
      requires LogValid() && Indexes(Live())
      modifies `mem
      ensures Valid() && InStep()
    {
      hide Meaning, Flatten, EntriesOf, WellFormed, Mirrors, TermMirrors, Locs, FieldsKnown, TextKnown, AllRead;
      hide Sound, InShape, Format.Stores;
      ghost var files := Files();
      mem := Live();
      assert Files() == files;
      AllLogged();
    }

    /** What the log has reads back. */
    lemma LoggedReads(e: Entry)
      requires SegsValid() && e in EntriesOf(Files())
      ensures Reads(e) && Fits(e.rec)
    {
      hide Decode, Encode, EncodeAll, Extent, EntriesOf;
      var i, k := FindEntry(Files(), e);
      ReadBackAt(format.crc, segs[i].id, segs[i].recs, segs[i].torn, k);
      assert segs[i] in segs;
      assert Stands(format.crc, segs[i].data, e);
    }

    lemma LoggedReadable()
      requires LogValid()
      ensures format.Readable(Live())
    {
      hide SegsValid, EntriesOf, Flatten, Meaning, WellFormed;
      LiveReadable(format, history);
    }

    lemma AllLogged()
      requires LogValid()
      ensures AllRead(Live())
    {
      hide Reads, SegsValid, EntriesOf, Flatten, Meaning, WellFormed, Format.Lawful;
      LogFacts();
      LiveInLog(history);
      forall id | id in Live() ensures Reads(Live()[id]) {
        LoggedReads(Live()[id]);
      }
    }

    method IndexOne(id: ID, loc: Location, ghost e: Entry)
      requires LogValid() && e in EntriesOf(Files()) && e.loc == loc
      requires idx.Valid() && idx.indexedFields == {} && idx.Textless()
      modifies idx
      ensures idx.Valid() && idx.indexedFields == {} && idx.Textless()
      ensures idx.locationByID == old(idx.locationByID)[id := loc]
      ensures LogValid() && EntriesOf(Files()) == old(EntriesOf(Files()))
    {
      hide Decode, Encode, EncodeAll, Extent, Log.Holds, Fits, Meaning, Flatten, EntriesOf, WellFormed;
      hide Mirrors, TermMirrors, Reads;
      LoggedReads(e);
      var r := ReadAt(loc, e);
      if r.Some? {
        idx.SetPrimary(id, loc);
        if |r.value.payload| > 0 {
          var content := format.unmarshal(r.value.payload);
          if content.Some? {
            idx.UpdateSecondary(id, content.value.data);
            idx.UpdateText(id, content.value.data);
          }
        }
      }
    }

    /** The replay loop: the primary map of the log, transactions buffered by their last operation per id. */
    method ReplaySegments() returns (primary: map<ID, Location>)
      requires LogValid()
      ensures primary == Locs(Replay(Flatten(history)).primary)
    {
      hide Decode, Encode, EncodeAll, Extent, Log.Holds, Fits, Flatten, WellFormed;
      primary := map[];
      var txs: map<Word64, Primary> := map[];
      ghost var st := Replayed(map[], map[]);
      ghost var files := Files();
      for i := 0 to |segs|
        invariant st == Replay(EntriesOf(files[..i])) && primary == Locs(st.primary) && txs == st.txs
        invariant KeyedAll(txs)
      {
        assert segs[i] in segs;
        var es := ScanSegFile(format.crc, segs[i]);
        EntriesMore(files, i);
        ReplayConcat(Replayed(map[], map[]), EntriesOf(files[..i]), es);
        primary, txs := ReplayEntries(primary, txs, es, st);
        st := ReplayFrom(st, es);
      }
      assert files[..|segs|] == files;
    }
  }

  lemma EntriesMore(files: seq<File>, i: nat)
    requires i < |files|
    ensures EntriesOf(files[..i + 1]) == EntriesOf(files[..i]) + Entries(files[i].id, files[i].recs)
  {
    assert files[..i + 1][..i] == files[..i];
  }

  method ReplayEntries(primary: map<ID, Location>, txs: map<Word64, Primary>, es: seq<Entry>, ghost st: Replayed)
    returns (primary': map<ID, Location>, txs': map<Word64, Primary>)
    requires primary == Locs(st.primary) && txs == st.txs && KeyedAll(txs)
    ensures primary' == Locs(ReplayFrom(st, es).primary) && txs' == ReplayFrom(st, es).txs && KeyedAll(txs')
  {
    hide ReplayStep, Locs;
    primary', txs' := primary, txs;
    ghost var cur := st;
    for j := 0 to |es|
      invariant cur == ReplayFrom(st, es[..j]) && primary' == Locs(cur.primary) && txs' == cur.txs
      invariant KeyedAll(txs')
    {
      assert es[..j + 1][..j] == es[..j];
      primary', txs' := ReplayRecord(primary', txs', es[j], cur);
      cur := ReplayStep(cur, es[j]);
    }
    assert es[..|es|] == es;
  }

  /** Buffered operations are stored under their own ids. */
  ghost predicate Keyed(buf: Primary) {
    forall id | id in buf :: buf[id].rec.id == id
  }

  ghost predicate KeyedAll(txs: map<Word64, Primary>) {
    forall tx | tx in txs :: Keyed(txs[tx])
  }

  /** What the scan callback does with one record. */
  method ReplayRecord(primary: map<ID, Location>, txs: map<Word64, Primary>, e: Entry, ghost st: Replayed)
    returns (primary': map<ID, Location>, txs': map<Word64, Primary>)
    requires primary == Locs(st.primary) && txs == st.txs && KeyedAll(txs)
    ensures primary' == Locs(ReplayStep(st, e).primary) && txs' == ReplayStep(st, e).txs && KeyedAll(txs')
  {
    primary', txs' := primary, txs;
    var r := e.rec;
    if r.rtype == REC_TX_BEGIN {
      txs' := txs[r.txID := map[]];
    } else if r.rtype == REC_TX_COMMIT {
      if r.txID in txs {
        primary' := ApplyInAnyOrder(primary, txs[r.txID], st.primary);
        txs' := txs - {r.txID};
      }
    } else if r.rtype == REC_TX_ROLLBACK {
      txs' := txs - {r.txID};
    } else if r.txID != 0 {
      if r.txID in txs {
        txs' := txs[r.txID := txs[r.txID][r.id := e]];
      }
    } else {
      primary' := ApplyRecord(primary, e, st.primary);
    }
  }

  method ApplyRecord(primary: map<ID, Location>, e: Entry, ghost p: Primary) returns (primary': map<ID, Location>)
    requires primary == Locs(p)
    ensures primary' == Locs(Apply(p, e))
  {
    primary' := primary;
    if e.rec.rtype == REC_INSERT || e.rec.rtype == REC_UPDATE {
      primary' := primary[e.rec.id := e.loc];
    } else if e.rec.rtype == REC_DELETE {
      primary' := primary - {e.rec.id};
    }
  }

  /** Ranges over the buffer in whatever order the language picks; the outcome is always the same. */
  method ApplyInAnyOrder(primary: map<ID, Location>, buf: Primary, ghost p: Primary)
    returns (primary': map<ID, Location>)
    requires primary == Locs(p) && Keyed(buf)
    ensures primary' == Locs(ApplyBuffer(p, buf))
  {
    primary' := primary;
    var rest := buf;
    ghost var done: Primary := map[];
    assert ApplyBuffer(p, done) == p;
    while rest.Keys != {}
      invariant rest.Keys + done.Keys == buf.Keys && rest.Keys !! done.Keys
      invariant (forall id | id in rest :: rest[id] == buf[id]) && (forall id | id in done :: done[id] == buf[id])
      invariant primary' == Locs(ApplyBuffer(p, done))
      decreases rest.Keys
    {
      var id :| id in rest.Keys;
      ghost var q := ApplyBuffer(p, done);
      primary' := ApplyRecord(primary', rest[id], q);
      ApplyOneMore(p, done, buf[id]);
      done := done[id := buf[id]];
      rest := rest - {id};
    }
    assert done == buf;
  }

  lemma ApplyOneMore(p: Primary, buf: Primary, e: Entry)
    requires e.rec.id !in buf
    ensures ApplyBuffer(p, buf[e.rec.id := e]) == Apply(ApplyBuffer(p, buf), e)
  {
    if IsOp(e.rec) {
      ApplyBufferPut(p, buf, e);
    } else {
      assert ApplyBuffer(p, buf[e.rec.id := e]).Keys == ApplyBuffer(p, buf).Keys;
    }
  }
}
