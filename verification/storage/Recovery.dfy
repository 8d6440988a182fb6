/** Closing and opening a table again, with and without a crash in between. */
module Recovery {
  import opened ByteOrder
  import opened Codec
  import opened Log
  import opened Index
  import opened Engine

  /** What is on disk under an engine. */
  ghost function DiskImages(eng: TableEngine): (disk: seq<Image>)
    reads eng, eng.segs
    ensures |disk| == |eng.segs|
  {
    seq(|eng.segs|, i requires 0 <= i < |eng.segs| reads eng, eng.segs => Image(eng.segs[i].id, eng.segs[i].data))
  }

  method DiskOf(eng: TableEngine) returns (disk: seq<Image>)
    ensures disk == DiskImages(eng)
  {
    disk := seq(|eng.segs|, i requires 0 <= i < |eng.segs| reads eng, eng.segs =>
      Image(eng.segs[i].id, eng.segs[i].data));
  }

  ghost function Torns(eng: TableEngine): seq<Bytes>
    reads eng, eng.segs
  {
    seq(|eng.segs|, i requires 0 <= i < |eng.segs| reads eng, eng.segs => eng.segs[i].torn)
  }

  lemma DiskFound(eng: TableEngine)
    requires eng.SegsValid()
    ensures Found(eng.format.crc, DiskImages(eng), eng.Files(), Torns(eng))
    ensures DiskImages(eng) != [] && DiskImages(eng)[|eng.segs| - 1] == Image(eng.current.id, eng.current.data)
    ensures Torns(eng)[|eng.segs| - 1] == eng.current.torn
  {
    hide Log.Holds;
    forall i | 0 <= i < |eng.segs|
      ensures Log.Holds(eng.format.crc, DiskImages(eng)[i].data, eng.Files()[i].recs, Torns(eng)[i])
    {
      assert eng.segs[i] in eng.segs;
    }
  }

  /**
   * Opening a table again on the files of a running one finds what is in its log: the very same
   * documents if the two are in step.
   */
  method Reopen(eng: TableEngine) returns (again: TableEngine)
    requires eng.LogValid()
    ensures fresh(again) && again.Valid() && again.InStep() && again.format == eng.format
    ensures again.Docs() == eng.Logged() && again.history == eng.history
    ensures eng.InStep() ==> again.Docs() == eng.Docs()
  {
    hide Encode, Decode, EncodeAll, Log.Holds, Extent, EntriesOf, Flatten, Meaning, WellFormed, Mirrors, TermMirrors;
    hide Found, CleanTail, Loaded, TableEngine.Valid, TableEngine.SegsValid, TableEngine.Docs, TableEngine.Logged;
    eng.LogFacts();
    if eng.InStep() {
      eng.InStepDocs();
    }
    var disk := DiskOf(eng);
    DiskFound(eng);
    again := new TableEngine.Open(eng.format, disk, eng.Files(), Torns(eng), eng.history);
    again.InStepDocs();
    SameLogged(again, eng);
  }

  lemma SameLogged(a: TableEngine, b: TableEngine)
    requires a.history == b.history && a.format == b.format
    ensures a.Logged() == b.Logged()
  {
  }

  lemma SurvivorsStored(f: Format, all: seq<Entry>, some: seq<Entry>)
    requires f.Stores(all) && some <= all
    ensures f.Stores(some)
  {
    forall e | e in some ensures e in all {
      var i :| 0 <= i < |some| && some[i] == e;
      assert all[i] == e;
    }
  }

  /**
   * The segments of a recovered engine are the files after the crash, and a new one if the
   * last was full. What is torn at the end is a part of one record if it was before.
   */
  ghost predicate Recovered(again: TableEngine, eng: TableEngine, n: nat, cut: seq<File>)
    reads again, again.segs, again.current, eng, eng.current
  {
    && again.segs != [] && cut != [] && again.current == again.segs[|again.segs| - 1]
    && (n < MAX_SEG_SIZE ==>
          && |again.segs| == |eng.segs| && |again.current.data| == n
          && n <= |eng.current.data| && again.current.data == eng.current.data[..n])
    && (n >= MAX_SEG_SIZE ==> |again.segs| == |eng.segs| + 1)
    && (again.current.torn == [] <==> n == Extent(cut[|cut| - 1].recs) || n >= MAX_SEG_SIZE)
    && (CutRecord(eng.format.crc, eng.current.torn) ==> CutRecord(eng.format.crc, again.current.torn))
  }

  /**
   * The process dies and the last segment keeps only its first n bytes. Opening the
   * table again finds the documents of the first k calls of the history, where k
   * counts every call all of whose records lie before the cut. Writing can go on
   * safely behind the recovered log exactly when the cut fell between two records
   * or the segment is full.
   */
  method RecoverAfterCrash(eng: TableEngine, n: nat) returns (again: TableEngine, ghost k: nat, ghost cut: seq<File>)
    requires eng.LogValid() && n <= |eng.current.data|
    ensures fresh(again) && fresh(again.segs) && fresh(again.current) && fresh(again.idx)
    ensures again.Valid() && again.InStep() && again.format == eng.format
    ensures k <= |eng.history| && again.Live() == Meaning(eng.history[..k])
    ensures again.history == eng.history[..k] || OneUnfinished(eng.history[..k], again.history)
    ensures |EntriesOf(cut)| <= |Flatten(eng.history)|
    ensures forall i | 0 <= i < |Flatten(eng.history)| ::
              i < |EntriesOf(cut)| <==> Survives(Flatten(eng.history)[i], eng.current.id, n)
    ensures |Flatten(eng.history[..k])| <= |EntriesOf(cut)|
    ensures k < |eng.history| ==> |EntriesOf(cut)| < |Flatten(eng.history[..k + 1])|
    ensures Recovered(again, eng, n, cut)
    ensures again.Clean() <==> n == Extent(cut[|cut| - 1].recs) || n >= MAX_SEG_SIZE
  {
    hide Encode, Decode, EncodeAll, Log.Holds, EntriesOf, Flatten, Meaning, WellFormed, Mirrors, TermMirrors;
    hide Found, Crashed, Growing, Survives, OneUnfinished, Extent, Recovered, Loaded, CrashAt;
    hide Format.Stores, Format.Lawful, TableEngine.SegsValid, TableEngine.Valid, TableEngine.LogValid, CleanTail;
    eng.LogFacts();
    var disk := DiskOf(eng);
    DiskFound(eng);
    ghost var torns, h;
    cut, torns, k, h := CrashConsistency(eng.format.crc, disk, eng.Files(), Torns(eng), eng.history, n);
    SurvivorsStored(eng.format, Flatten(eng.history), EntriesOf(cut));
    CrashFound(eng.format.crc, disk, eng.Files(), Torns(eng), n, cut, torns);
    again := new TableEngine.Open(eng.format, CrashAt(disk, n), cut, torns, h);
    IsRecovered(again, eng, eng.format.crc, disk, eng.Files(), Torns(eng), n, cut, torns);
  }

  lemma CrashFound(crc: Checksum, disk: seq<Image>, files: seq<File>, before: seq<Bytes>, n: nat,
                   cut: seq<File>, torns: seq<Bytes>)
    requires disk != [] && |disk| == |files| == |before| && n <= |disk[|disk| - 1].data|
    requires Crashed(crc, disk, files, before, n, cut, torns)
    ensures Found(crc, CrashAt(disk, n), cut, torns) && |cut| == |torns| == |disk| == |CrashAt(disk, n)|
    ensures |CrashAt(disk, n)[|disk| - 1].data| == n && CrashAt(disk, n)[|disk| - 1].id == disk[|disk| - 1].id
    ensures torns[|disk| - 1] == [] <==> n == Extent(cut[|disk| - 1].recs)
    ensures CutRecord(crc, before[|disk| - 1]) ==> CutRecord(crc, torns[|disk| - 1])
  {
    hide Log.Holds, Extent, CutRecord;
  }

  lemma IsRecovered(again: TableEngine, eng: TableEngine, crc: Checksum, disk: seq<Image>, files: seq<File>,
                    before: seq<Bytes>, n: nat, cut: seq<File>, torns: seq<Bytes>)
    requires crc == eng.format.crc && disk != [] && |disk| == |files| == |before| == |eng.segs|
    requires before[|disk| - 1] == eng.current.torn && disk[|disk| - 1].data == eng.current.data
    requires n <= |eng.current.data|
    requires Crashed(crc, disk, files, before, n, cut, torns)
    requires |CrashAt(disk, n)| == |disk| == |cut| == |torns|
    requires |disk| <= |again.segs| <= |disk| + 1 && (|again.segs| == |disk| <==> n < MAX_SEG_SIZE)
    requires Loaded(crc, again.segs, CrashAt(disk, n), cut, torns)
    requires again.current == again.segs[|again.segs| - 1]
    requires |again.segs| > |disk| ==> again.current.torn == []
    ensures Recovered(again, eng, n, cut)
    ensures again.Clean() <==> n == Extent(cut[|cut| - 1].recs) || n >= MAX_SEG_SIZE
  {
    hide Log.Holds, Extent, EncodeAll, CutRecord, SegFile.Valid;
    CrashFound(crc, disk, files, before, n, cut, torns);
    hide Crashed, CrashAt;
    NothingTorn(crc);
    var last := |disk| - 1;
    assert again.segs[last].torn == torns[last] && again.segs[last].data == CrashAt(disk, n)[last].data;
  }

  ghost predicate MeansFirst(p: Primary, h: History) {
    exists i | 0 <= i <= |h| :: p == Meaning(h[..i])
  }

  /** What a prefix of h' means is what a prefix of h means. */
  ghost predicate MeansPrefixes(h': History, h: History) {
    forall j | 0 <= j <= |h'| :: MeansFirst(Meaning(h'[..j]), h)
  }

  lemma PrefixesOfCut(h: History, k: nat, h': History)
    requires k <= |h| && (h' == h[..k] || OneUnfinished(h[..k], h'))
    ensures MeansPrefixes(h', h)
  {
    hide Meaning;
    forall j | 0 <= j <= |h'| ensures MeansFirst(Meaning(h'[..j]), h) {
      if j <= k {
        assert h'[..j] == h[..j] by {
          assert h'[..k] == h[..k];
        }
      } else {
        assert h'[..j] == h'[..k] + [h'[k]] && h'[..k] == h[..k];
        FlattenMore(h[..k], h'[k]);
      }
    }
  }

  lemma PrefixesOfPrefixes(a: History, b: History, c: History)
    requires MeansPrefixes(a, b) && MeansPrefixes(b, c)
    ensures MeansPrefixes(a, c)
  {
    hide Meaning;
    forall j | 0 <= j <= |a| ensures MeansFirst(Meaning(a[..j]), c) {
      assert MeansFirst(Meaning(a[..j]), b);
      var i :| 0 <= i <= |b| && Meaning(a[..j]) == Meaning(b[..i]);
      assert MeansFirst(Meaning(b[..i]), c);
    }
  }

  /** Any number of crashes, each at any byte: the documents are still those of some first calls of the history. */
  method CrashRepeatedly(eng: TableEngine, cuts: seq<nat>) returns (again: TableEngine, ghost k: nat)
    requires eng.LogValid()
    ensures again.LogValid() && again.format == eng.format
    ensures again == eng || (fresh(again) && again.Valid() && again.InStep())
    ensures k <= |eng.history| && again.Live() == Meaning(eng.history[..k])
    ensures CutRecord(eng.format.crc, eng.current.torn) ==> CutRecord(eng.format.crc, again.current.torn)
  {
    hide Encode, Decode, EncodeAll, Log.Holds, EntriesOf, Flatten, Meaning, WellFormed, TableEngine.Valid;
    hide Survives, Extent, MeansPrefixes, CutRecord, OneUnfinished;
    again, k := eng, |eng.history|;
    assert eng.history[..k] == eng.history;
    PrefixesOfCut(eng.history, k, eng.history);
    for i := 0 to |cuts|
      invariant again.LogValid() && again.format == eng.format
      invariant again == eng || (fresh(again) && again.Valid() && again.InStep())
      invariant MeansPrefixes(again.history, eng.history)
      invariant k <= |eng.history| && again.Live() == Meaning(eng.history[..k])
      invariant CutRecord(eng.format.crc, eng.current.torn) ==> CutRecord(eng.format.crc, again.current.torn)
    {
      if cuts[i] <= |again.current.data| {
        ghost var before := again.history;
        ghost var j, cut;
        again, j, cut := RecoverAfterCrash(again, cuts[i]);
        PrefixesOfCut(before, j, again.history);
        PrefixesOfPrefixes(again.history, before, eng.history);
        k := LivePrefix(again.history, eng.history);
      }
    }
  }

  lemma LivePrefix(h': History, h: History) returns (k: nat)
    requires MeansPrefixes(h', h)
    ensures k <= |h| && Meaning(h') == Meaning(h[..k])
  {
    hide Meaning;
    assert h'[..|h'|] == h' && MeansFirst(Meaning(h'[..|h'|]), h);
    k :| 0 <= k <= |h| && Meaning(h') == Meaning(h[..k]);
  }

  // ----- writing behind what a crash has left

  /** Of all segments the last decides about entries that name it. */
  lemma {:induction false} OtherImages(crc: Checksum, disk: seq<Image>, id: nat)
    requires forall i | 0 <= i < |disk| :: disk[i].id != id
    ensures forall e | e in ScanAll(crc, disk) :: e.loc.segID != id
  {
    hide Scan;
    if disk != [] {
      var last := disk[|disk| - 1];
      OtherImages(crc, disk[..|disk| - 1], id);
      ScanGoesOn(crc, last.id, last.data, 0);
    }
  }

  lemma LastDecides(crc: Checksum, disk: seq<Image>, e: Entry)
    requires disk != [] && disk[|disk| - 1].id == e.loc.segID
    requires forall i | 0 <= i < |disk| - 1 :: disk[i].id != e.loc.segID
    ensures e in ScanAll(crc, disk) <==> e in Scan(crc, e.loc.segID, disk[|disk| - 1].data, 0)
  {
    hide Scan;
    OtherImages(crc, disk[..|disk| - 1], e.loc.segID);
  }

  /**
   * A record is written behind whatever crashes have left. A scan of the files finds it where
   * it was written if and only if nothing torn was in front of it: the log ended with a whole
   * record, or the record went into a segment of its own.
   */
  method WriteBehind(eng: TableEngine, r: Record) returns (loc: Location)
    requires eng.SegsValid() && CutRecord(eng.format.crc, eng.current.torn) && Fits(r)
    modifies eng, eng.current
    ensures Entry(r, loc) in ScanAll(eng.format.crc, DiskImages(eng)) <==> old(eng.Clean() || eng.Rotates(r))
  {
    hide Encode, Decode, EncodeAll, Log.Holds, Starts, Extent, Fits, CutRecord, Scan, ScanAll;
    ghost var crc, data, recs, torn := eng.format.crc, eng.current.data, eng.current.recs, eng.current.torn;
    ghost var rotates := eng.Rotates(r);
    assert Starts(crc, data, recs, torn) && eng.current.size == |data| by {
      assert eng.current in eng.segs;
    }
    loc := eng.WriteRecord(r);
    LastImage(eng);
    LastDecides(crc, DiskImages(eng), Entry(r, loc));
    BehindTear(crc, loc.segID, data, recs, torn, r);
  }

  lemma LastImage(eng: TableEngine)
    requires eng.SegsShaped()
    ensures var disk := DiskImages(eng);
            && disk != [] && disk[|disk| - 1] == Image(eng.current.id, eng.current.data)
            && forall i | 0 <= i < |disk| - 1 :: disk[i].id != eng.current.id
  {
  }

  lemma BehindTear(crc: Checksum, segID: nat, data: Bytes, recs: seq<Record>, torn: Bytes, r: Record)
    requires Starts(crc, data, recs, torn) && CutRecord(crc, torn) && Fits(r)
    ensures Entry(r, Location(segID, |data|, RecordSize(r))) in Scan(crc, segID, data + Encode(crc, r), 0)
            <==> torn == []
    ensures Entry(r, Location(segID, 0, RecordSize(r))) in Scan(crc, segID, [] + Encode(crc, r), 0)
  {
    hide Encode, Decode, EncodeAll, Fits, Scan;
    var r0 :| Fits(r0) && |torn| < RecordSize(r0) && torn == Encode(crc, r0)[..|torn|];
    TornTailHides(crc, segID, recs, r0, |torn|, r);
    assert data + Encode(crc, r) == EncodeAll(crc, recs) + (Encode(crc, r0)[..|torn|] + Encode(crc, r));
    TornTailHides(crc, segID, [], r0, 0, r);
    NoExtent();
    assert [] + Encode(crc, r) == EncodeAll(crc, []) + (Encode(crc, r0)[..0] + Encode(crc, r));
  }
}
