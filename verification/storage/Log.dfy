/**
 * The segmented log: what a scan sees, what replaying it means, and what is left
 * of it after a crash.
 */
module Log {
  import opened ByteOrder
  import opened Codec

  datatype Location = Location(segID: nat, offset: nat, size: nat)

  /** A record together with the place it stands at. */
  datatype Entry = Entry(rec: Record, loc: Location)

  // ----- scanning one segment

  /** Reads records from off on and stops at the first one that does not decode. */
  function Scan(crc: Checksum, segID: nat, data: Bytes, off: nat): seq<Entry>
    requires off <= |data|
    decreases |data| - off
  {
    match Decode(crc, data[off..])
    case Ok(r, n) =>
      DecodeIsFrame(crc, data[off..]);
      [Entry(r, Location(segID, off, n))] + Scan(crc, segID, data, off + n)
    case _ => []
  }

  /** Where that scan stops. */
  function ScanEnd(crc: Checksum, data: Bytes, off: nat): (end: nat)
    requires off <= |data|
    ensures off <= end <= |data|
    ensures !Decode(crc, data[end..]).Ok?
    decreases |data| - off
  {
    match Decode(crc, data[off..])
    case Ok(r, n) =>
      DecodeIsFrame(crc, data[off..]);
      ScanEnd(crc, data, off + n)
    case _ => off
  }

  lemma ScanMore(crc: Checksum, segID: nat, data: Bytes, off: nat)
    requires off <= |data|
    ensures var d := Decode(crc, data[off..]);
            if d.Ok? then
              && d.size > 0 && off + d.size <= |data|
              && Scan(crc, segID, data, off)
                 == [Entry(d.rec, Location(segID, off, d.size))] + Scan(crc, segID, data, off + d.size)
            else Scan(crc, segID, data, off) == []
  {
    hide Decode;
    if Decode(crc, data[off..]).Ok? {
      DecodeIsFrame(crc, data[off..]);
    }
  }

  predicate AllFit(recs: seq<Record>) {
    forall r | r in recs :: Fits(r)
  }

  function EncodeAll(crc: Checksum, recs: seq<Record>): (b: Bytes)
    ensures |b| == Extent(recs)
  {
    if recs == [] then [] else EncodeAll(crc, recs[..|recs| - 1]) + Encode(crc, recs[|recs| - 1])
  }

  function Extent(recs: seq<Record>): nat {
    if recs == [] then 0 else Extent(recs[..|recs| - 1]) + RecordSize(recs[|recs| - 1])
  }

  /** The records of a segment at their cumulative offsets. */
  function Entries(segID: nat, recs: seq<Record>): (es: seq<Entry>)
    ensures |es| == |recs|
    ensures forall k | 0 <= k < |es| :: es[k].rec == recs[k]
  {
    if recs == [] then [] else
    var front, last := recs[..|recs| - 1], recs[|recs| - 1];
    Entries(segID, front) + [Entry(last, Location(segID, Extent(front), RecordSize(last)))]
  }

  lemma {:induction false} EncodeAllTake(crc: Checksum, recs: seq<Record>, k: nat)
    requires k < |recs|
    ensures EncodeAll(crc, recs[..k]) + Encode(crc, recs[k]) <= EncodeAll(crc, recs)
    ensures Extent(recs[..k + 1]) == Extent(recs[..k]) + RecordSize(recs[k])
  {
    hide Encode, RecordSize;
    assert recs[..k + 1][..k] == recs[..k];
    assert EncodeAll(crc, recs[..k + 1]) == EncodeAll(crc, recs[..k]) + Encode(crc, recs[k]);
    if k + 1 < |recs| {
      var front := recs[..|recs| - 1];
      EncodeAllTake(crc, front, k);
      assert front[..k] == recs[..k];
      assert EncodeAll(crc, front) <= EncodeAll(crc, recs);
    } else {
      assert recs[..k + 1] == recs;
    }
  }

  lemma {:induction false} EntriesTake(segID: nat, recs: seq<Record>, k: nat)
    requires k <= |recs|
    ensures Entries(segID, recs)[..k] == Entries(segID, recs[..k])
  {
    if k < |recs| {
      var front := recs[..|recs| - 1];
      EntriesTake(segID, front, k);
      assert front[..k] == recs[..k];
      assert Entries(segID, recs)[..k] == Entries(segID, front)[..k];
    } else {
      assert recs[..k] == recs;
    }
  }

  lemma EntryAt(segID: nat, recs: seq<Record>, k: nat)
    requires k < |recs|
    ensures Entries(segID, recs)[k]
            == Entry(recs[k], Location(segID, Extent(recs[..k]), RecordSize(recs[k])))
  {
    EntriesTake(segID, recs, k + 1);
    assert recs[..k + 1][..k] == recs[..k];
    assert Entries(segID, recs)[k] == Entries(segID, recs)[..k + 1][k];
  }

  /** data has the encoding of r at off. */
  ghost predicate EncodedAt(crc: Checksum, data: Bytes, off: nat, r: Record) {
    && Fits(r)
    && off + RecordSize(r) <= |data|
    && data[off..off + RecordSize(r)] == Encode(crc, r)
  }

  lemma DecodeAt(crc: Checksum, data: Bytes, off: nat, r: Record)
    requires EncodedAt(crc, data, off, r)
    ensures Decode(crc, data[off..]) == Ok(r, RecordSize(r))
    ensures Decode(crc, data[off..off + RecordSize(r)]) == Ok(r, RecordSize(r))
  {
    hide Body, Frame, Encode, Decode;
    var enc, n := Encode(crc, r), RecordSize(r);
    assert data[off..] == enc + data[off + n..];
    assert data[off..off + n] == enc + [];
    RoundTrip(crc, r, data[off + n..]);
    RoundTrip(crc, r, []);
  }

  lemma PrefixOfLonger(a: Bytes, b: Bytes, c: Bytes)
    requires a <= b
    ensures a <= b + c
  {
  }

  lemma RecordsAt(crc: Checksum, recs: seq<Record>, torn: Bytes, k: nat)
    requires k < |recs| && AllFit(recs)
    ensures EncodedAt(crc, EncodeAll(crc, recs) + torn, Extent(recs[..k]), recs[k])
    ensures Extent(recs[..k + 1]) == Extent(recs[..k]) + RecordSize(recs[k])
  {
    hide Encode, Body, Frame, EncodeAll, Extent;
    EncodeAllTake(crc, recs, k);
    PrefixOfLonger(EncodeAll(crc, recs[..k]) + Encode(crc, recs[k]), EncodeAll(crc, recs), torn);
    SplitAt(EncodeAll(crc, recs) + torn, EncodeAll(crc, recs[..k]), Encode(crc, recs[k]));
  }

  /** Whatever stands behind the records, the scan gets past them and goes on from there. */
  lemma {:induction false} ScanPast(crc: Checksum, segID: nat, recs: seq<Record>, rest: Bytes, k: nat)
    requires k <= |recs| && AllFit(recs)
    ensures Extent(recs[..k]) <= Extent(recs)
    ensures var data := EncodeAll(crc, recs) + rest;
            && Scan(crc, segID, data, Extent(recs[..k]))
               == Entries(segID, recs)[k..] + Scan(crc, segID, data, Extent(recs))
            && ScanEnd(crc, data, Extent(recs[..k])) == ScanEnd(crc, data, Extent(recs))
    decreases |recs| - k
  {
    hide Body, Frame, Encode, Decode, EncodeAll, Extent;
    var data := EncodeAll(crc, recs) + rest;
    if k == |recs| {
      assert recs[..k] == recs;
    } else {
      RecordsAt(crc, recs, rest, k);
      DecodeAt(crc, data, Extent(recs[..k]), recs[k]);
      EntryAt(segID, recs, k);
      ScanPast(crc, segID, recs, rest, k + 1);
      assert Entries(segID, recs)[k..] == [Entries(segID, recs)[k]] + Entries(segID, recs)[k + 1..];
    }
  }

  lemma SplitAt(data: Bytes, a: Bytes, b: Bytes)
    requires a + b <= data
    ensures |a| + |b| <= |data|
    ensures data[|a|..] == b + data[|a| + |b|..]
    ensures data[|a|..|a| + |b|] == b
  {
    assert data[..|a| + |b|] == a + b;
  }

  /**
   * Scanning the encodings of records, with torn bytes behind them that do not
   * decode, visits exactly those records at their cumulative offsets.
   */
  lemma ScanEncoded(crc: Checksum, segID: nat, recs: seq<Record>, torn: Bytes)
    requires AllFit(recs) && !Decode(crc, torn).Ok?
    ensures Scan(crc, segID, EncodeAll(crc, recs) + torn, 0) == Entries(segID, recs)
    ensures ScanEnd(crc, EncodeAll(crc, recs) + torn, 0) == Extent(recs)
  {
    hide Decode, EncodeAll;
    ScanPast(crc, segID, recs, torn, 0);
    assert recs[..0] == [];
    assert (EncodeAll(crc, recs) + torn)[Extent(recs)..] == torn;
  }

  /** Every location a scan reports reads its own record back. */
  lemma ReadBackAt(crc: Checksum, segID: nat, recs: seq<Record>, torn: Bytes, k: nat)
    requires k < |recs| && AllFit(recs)
    ensures var e := Entries(segID, recs)[k];
            var data := EncodeAll(crc, recs) + torn;
            && e.loc.segID == segID
            && e.loc.offset + e.loc.size <= |data|
            && Decode(crc, data[e.loc.offset..e.loc.offset + e.loc.size]) == Ok(e.rec, e.loc.size)
  {
    hide Body, Frame, Encode, Decode, EncodeAll;
    EntryAt(segID, recs, k);
    RecordsAt(crc, recs, torn, k);
    DecodeAt(crc, EncodeAll(crc, recs) + torn, Extent(recs[..k]), recs[k]);
  }

  // ----- replay

  type Primary = map<Bytes, Entry>

  /** The primary map and the open transactions' last operation per id. */
  datatype Replayed = Replayed(primary: Primary, txs: map<Word64, Primary>)

  predicate IsPut(r: Record) {
    r.rtype == REC_INSERT || r.rtype == REC_UPDATE
  }

  predicate IsOp(r: Record) {
    IsPut(r) || r.rtype == REC_DELETE
  }

  function Apply(p: Primary, e: Entry): Primary {
    if IsPut(e.rec) then p[e.rec.id := e]
    else if e.rec.rtype == REC_DELETE then p - {e.rec.id}
    else p
  }

  /** What applying the entries of a buffer leaves, in whatever order they are taken. */
  function ApplyBuffer(p: Primary, buf: Primary): Primary {
    map id | id in p.Keys + buf.Keys && (if id in buf && IsOp(buf[id].rec) then IsPut(buf[id].rec) else id in p)
      :: if id in buf && IsPut(buf[id].rec) then buf[id] else p[id]
  }

  function ReplayStep(s: Replayed, e: Entry): Replayed {
    var tx := e.rec.txID;
    if e.rec.rtype == REC_TX_BEGIN then s.(txs := s.txs[tx := map[]])
    else if e.rec.rtype == REC_TX_COMMIT then
      if tx in s.txs then Replayed(ApplyBuffer(s.primary, s.txs[tx]), s.txs - {tx}) else s
    else if e.rec.rtype == REC_TX_ROLLBACK then s.(txs := s.txs - {tx})
    else if tx != 0 then
      if tx in s.txs then s.(txs := s.txs[tx := s.txs[tx][e.rec.id := e]]) else s
    else s.(primary := Apply(s.primary, e))
  }

  function ReplayFrom(s: Replayed, es: seq<Entry>): Replayed {
    if es == [] then s else ReplayStep(ReplayFrom(s, es[..|es| - 1]), es[|es| - 1])
  }

  function Replay(es: seq<Entry>): Replayed {
    ReplayFrom(Replayed(map[], map[]), es)
  }

  lemma {:induction false} ReplayConcat(s: Replayed, a: seq<Entry>, b: seq<Entry>)
    ensures ReplayFrom(s, a + b) == ReplayFrom(ReplayFrom(s, a), b)
  {
    if b == [] {
      assert a + b == a;
    } else {
      var front := b[..|b| - 1];
      ReplayConcat(s, a, front);
      assert (a + b)[..|a + b| - 1] == a + front;
    }
  }

  // ----- the history a log records

  datatype End = Unfinished | Committed(e: Entry) | RolledBack(e: Entry)

  /** One completed call: a plain operation, or a transaction's run of records in one table. */
  datatype Step = Plain(op: Entry) | Block(begin: Entry, ops: seq<Entry>, end: End)

  type History = seq<Step>

  function EndEntries(end: End): seq<Entry> {
    match end
    case Unfinished => []
    case Committed(e) => [e]
    case RolledBack(e) => [e]
  }

  function StepEntries(s: Step): (es: seq<Entry>)
    ensures |es| >= 1
  {
    match s
    case Plain(op) => [op]
    case Block(begin, ops, end) => [begin] + ops + EndEntries(end)
  }

  function Flatten(h: History): seq<Entry> {
    if h == [] then [] else Flatten(h[..|h| - 1]) + StepEntries(h[|h| - 1])
  }

  ghost predicate WellFormedStep(s: Step) {
    match s
    case Plain(op) => op.rec.txID == 0 && IsOp(op.rec)
    case Block(begin, ops, end) =>
      var tx := begin.rec.txID;
      && tx != 0 && begin.rec.rtype == REC_TX_BEGIN
      && (forall e | e in ops :: e.rec.txID == tx && IsOp(e.rec))
      && (end.Committed? ==> end.e.rec.txID == tx && end.e.rec.rtype == REC_TX_COMMIT)
      && (end.RolledBack? ==> end.e.rec.txID == tx && end.e.rec.rtype == REC_TX_ROLLBACK)
  }

  ghost predicate WellFormed(h: History) {
    forall s | s in h :: WellFormedStep(s)
  }

  function ApplyAll(p: Primary, ops: seq<Entry>): Primary {
    if ops == [] then p else Apply(ApplyAll(p, ops[..|ops| - 1]), ops[|ops| - 1])
  }

  /** The plain meaning of a step: its operations one after the other, or nothing. */
  function StepMeaning(p: Primary, s: Step): Primary {
    match s
    case Plain(op) => Apply(p, op)
    case Block(_, ops, end) => if end.Committed? then ApplyAll(p, ops) else p
  }

  function Meaning(h: History): Primary {
    if h == [] then map[] else StepMeaning(Meaning(h[..|h| - 1]), h[|h| - 1])
  }

  /** The last operation on each id. */
  function LastByID(ops: seq<Entry>): Primary {
    if ops == [] then map[] else LastByID(ops[..|ops| - 1])[ops[|ops| - 1].rec.id := ops[|ops| - 1]]
  }

  /** The last operation per id, applied in any order, does what all of them do in order. */
  lemma {:induction false} BufferIsSequential(p: Primary, ops: seq<Entry>)
    requires forall e | e in ops :: IsOp(e.rec)
    ensures ApplyBuffer(p, LastByID(ops)) == ApplyAll(p, ops)
    ensures forall id | id in LastByID(ops) :: IsOp(LastByID(ops)[id].rec)
  {
    if ops != [] {
      var front, e := ops[..|ops| - 1], ops[|ops| - 1];
      BufferIsSequential(p, front);
      assert e in ops;
      ApplyBufferPut(p, LastByID(front), e);
    }
  }

  lemma ApplyBufferPut(p: Primary, buf: Primary, e: Entry)
    requires IsOp(e.rec)
    ensures ApplyBuffer(p, buf[e.rec.id := e]) == Apply(ApplyBuffer(p, buf), e)
  {
    var buf' := buf[e.rec.id := e];
    assert ApplyBuffer(p, buf').Keys == Apply(ApplyBuffer(p, buf), e).Keys;
  }

  lemma {:induction false} ReplayOps(s: Replayed, tx: Word64, ops: seq<Entry>)
    requires tx != 0
    requires forall e | e in ops :: e.rec.txID == tx && IsOp(e.rec)
    ensures ReplayFrom(s.(txs := s.txs[tx := map[]]), ops) == s.(txs := s.txs[tx := LastByID(ops)])
  {
    if ops != [] {
      var front, e := ops[..|ops| - 1], ops[|ops| - 1];
      ReplayOps(s, tx, front);
      assert e in ops;
      assert s.txs[tx := LastByID(front)][tx := LastByID(ops)] == s.txs[tx := LastByID(ops)];
    }
  }

  lemma ReplayStepEntries(s: Replayed, step: Step)
    requires WellFormedStep(step)
    ensures ReplayFrom(s, StepEntries(step)).primary == StepMeaning(s.primary, step)
  {
    match step
    case Plain(op) =>
      assert StepEntries(step)[..0] == [];
    case Block(begin, ops, end) =>
      var tx := begin.rec.txID;
      var started := s.(txs := s.txs[tx := map[]]);
      ReplayConcat(s, [begin] + ops, EndEntries(end));
      ReplayConcat(s, [begin], ops);
      assert ReplayFrom(s, [begin]) == started by { assert [begin][..0] == []; }
      ReplayOps(s, tx, ops);
      var filled := s.(txs := s.txs[tx := LastByID(ops)]);
      assert ReplayFrom(s, [begin] + ops) == filled;
      if end.Unfinished? {
      } else {
        assert EndEntries(end)[..0] == [];
        assert ReplayFrom(filled, EndEntries(end)) == ReplayStep(filled, end.e);
        BufferIsSequential(s.primary, ops);
      }
  }

  /**
   * Replaying the log of any history gives what its calls meant: each plain
   * operation, and each committed transaction in full and in order; unfinished
   * and rolled-back transactions leave no trace.
   */
  lemma {:induction false} ReplayIsMeaning(h: History)
    requires WellFormed(h)
    ensures Replay(Flatten(h)).primary == Meaning(h)
  {
    if h != [] {
      var front, s := h[..|h| - 1], h[|h| - 1];
      assert s in h;
      ReplayIsMeaning(front);
      ReplayConcat(Replayed(map[], map[]), Flatten(front), StepEntries(s));
      ReplayStepEntries(Replay(Flatten(front)), s);
    }
  }

  /** What the last operation on an id says, and p for an id without any. */
  ghost predicate LastDecides(p: Primary, ops: seq<Entry>, q: Primary) {
    && (forall id :: (forall k | 0 <= k < |ops| :: ops[k].rec.id != id) ==>
          (id in p <==> id in q) && (id in p ==> p[id] == q[id]))
    && (forall k | 0 <= k < |ops| && (forall j | k < j < |ops| :: ops[j].rec.id != ops[k].rec.id) ::
          if ops[k].rec.rtype == 3 then ops[k].rec.id !in q
          else ops[k].rec.id in q && q[ops[k].rec.id] == ops[k])
  }

  lemma {:induction false} ApplyAllDecides(p: Primary, ops: seq<Entry>)
    requires forall e | e in ops :: IsOp(e.rec)
    ensures LastDecides(p, ops, ApplyAll(p, ops))
  {
    if ops != [] {
      var front, e := ops[..|ops| - 1], ops[|ops| - 1];
      ApplyAllDecides(p, front);
      assert e in ops;
      var r, q := ApplyAll(p, front), ApplyAll(p, ops);
      assert q == Apply(r, e);
      forall id | forall k | 0 <= k < |ops| :: ops[k].rec.id != id
        ensures (id in p <==> id in q) && (id in p ==> p[id] == q[id])
      {
        assert e.rec.id != id;
        assert forall k | 0 <= k < |front| :: front[k] == ops[k];
        assert forall k | 0 <= k < |front| :: front[k].rec.id != id;
      }
      forall k | 0 <= k < |ops| && (forall j | k < j < |ops| :: ops[j].rec.id != ops[k].rec.id)
        ensures if ops[k].rec.rtype == 3 then ops[k].rec.id !in q
                else ops[k].rec.id in q && q[ops[k].rec.id] == ops[k]
      {
        assert ops[k] in ops;
        if k < |front| {
          assert front[k] == ops[k] && e.rec.id != ops[k].rec.id;
          assert forall j | k < j < |front| :: front[j] == ops[j];
        }
      }
    }
  }

  /**
   * What the records of one call do to the documents, by the type bytes in the file:
   * 1 and 2 put a version, 3 deletes, 4 begins a transaction, and only one that ends in 5 counts.
   */
  lemma StepReplayed(s: Replayed, step: Step)
    requires WellFormedStep(step)
    ensures var p, q := s.primary, ReplayFrom(s, StepEntries(step)).primary;
            if step.Plain? then
              && 1 <= step.op.rec.rtype <= 3
              && q == if step.op.rec.rtype == 3 then p - {step.op.rec.id} else p[step.op.rec.id := step.op]
            else
              && step.begin.rec.rtype == 4
              && (step.end.Committed? ==> step.end.e.rec.rtype == 5 && LastDecides(p, step.ops, q))
              && (step.end.RolledBack? ==> step.end.e.rec.rtype == 6 && q == p)
              && (step.end.Unfinished? ==> q == p)
  {
    hide ReplayFrom, StepEntries;
    ReplayStepEntries(s, step);
    if step.Block? {
      ApplyAllDecides(s.primary, step.ops);
    }
  }

  // ----- a log in segment files

  datatype File = File(id: nat, recs: seq<Record>)

  function EntriesOf(files: seq<File>): seq<Entry> {
    if files == [] then [] else
    var last := files[|files| - 1];
    EntriesOf(files[..|files| - 1]) + Entries(last.id, last.recs)
  }

  /** The bytes found on disk under a segment id. */
  datatype Image = Image(id: nat, data: Bytes)

  function ScanAll(crc: Checksum, disk: seq<Image>): seq<Entry> {
    if disk == [] then [] else
    var last := disk[|disk| - 1];
    ScanAll(crc, disk[..|disk| - 1]) + Scan(crc, last.id, last.data, 0)
  }

  /** data holds the encodings of recs and then other bytes. */
  ghost predicate Starts(crc: Checksum, data: Bytes, recs: seq<Record>, rest: Bytes) {
    AllFit(recs) && data == EncodeAll(crc, recs) + rest
  }

  /** data holds the encodings of recs and then torn bytes that do not decode. */
  ghost predicate Holds(crc: Checksum, data: Bytes, recs: seq<Record>, torn: Bytes) {
    Starts(crc, data, recs, torn) && Decode(crc, torn).Corrupt?
  }

  // ----- crash: the last segment is cut at any byte

  lemma LastOf(crc: Checksum, front: seq<Record>, r: Record)
    ensures EncodeAll(crc, front + [r]) == EncodeAll(crc, front) + Encode(crc, r)
    ensures Extent(front + [r]) == Extent(front) + RecordSize(r)
  {
    hide Encode;
    assert (front + [r])[..|front|] == front;
  }

  lemma TakeOfSum(a: Bytes, b: Bytes, n: nat)
    requires n <= |a| + |b|
    ensures (a + b)[..n] == if n <= |a| then a[..n] else a + b[..n - |a|]
  {
  }

  /** A cut in front of the last record is a cut of the records before it. */
  lemma WholeEarlier(front: seq<Record>, r: Record, m: nat, n: nat)
    requires n < Extent(front) && WholeBefore(front, m, n)
    ensures WholeBefore(front + [r], m, n) && (front + [r])[..m] == front[..m]
  {
    hide Extent;
    assert front[..|front|] == front;
    assert (front + [r])[..m] == front[..m];
    assert m < |front| ==> (front + [r])[..m + 1] == front[..m + 1];
  }

  lemma WholeFront(front: seq<Record>, r: Record, n: nat)
    requires Extent(front) <= n < Extent(front + [r])
    ensures WholeBefore(front + [r], |front|, n)
  {
    hide Extent;
    assert (front + [r])[..|front|] == front && (front + [r])[..|front| + 1] == front + [r];
  }

  /** A cut within the last record leaves a part of it. */
  lemma CutWithin(crc: Checksum, r: Record, k: nat)
    requires Fits(r) && k < RecordSize(r)
    ensures var torn := Encode(crc, r)[..k];
            Decode(crc, torn).Corrupt? && CutRecord(crc, torn) && (torn == [] <==> k == 0)
  {
    hide Encode, Decode, Fits;
    CutIsCorrupt(crc, r, k);
  }

  /** A cut segment scans as the records that are whole before the cut; the rest is torn. */
  lemma {:induction false} CutScan(crc: Checksum, recs: seq<Record>, n: nat) returns (m: nat, torn: Bytes)
    requires AllFit(recs) && n <= Extent(recs)
    ensures WholeBefore(recs, m, n)
    ensures Holds(crc, EncodeAll(crc, recs)[..n], recs[..m], torn)
    ensures (torn == [] <==> n == Extent(recs[..m])) && CutRecord(crc, torn)
  {
    hide Encode, Decode, Fits, EncodeAll, Extent, CutRecord;
    if n == Extent(recs) {
      m, torn := |recs|, [];
      assert recs[..m] == recs && EncodeAll(crc, recs)[..n] == EncodeAll(crc, recs) + torn;
      NothingTorn(crc);
    } else {
      NoExtent();
      var front, r := recs[..|recs| - 1], recs[|recs| - 1];
      assert recs == front + [r] && r in recs && forall x | x in front :: x in recs;
      LastOf(crc, front, r);
      TakeOfSum(EncodeAll(crc, front), Encode(crc, r), n);
      if n < Extent(front) {
        m, torn := CutScan(crc, front, n);
        WholeEarlier(front, r, m, n);
      } else {
        m, torn := |front|, Encode(crc, r)[..n - Extent(front)];
        WholeFront(front, r, n);
        CutWithin(crc, r, n - Extent(front));
        assert EncodeAll(crc, front)[..Extent(front)] == EncodeAll(crc, front) + [];
      }
    }
  }

  /** The front of bytes that do not decode does not decode either, and panics no sooner. */
  lemma FrontOfCorrupt(crc: Checksum, torn: Bytes, k: nat)
    requires Decode(crc, torn).Corrupt? && k <= |torn|
    ensures Decode(crc, torn[..k]).Corrupt?
  {
    hide ParseBody;
    var front := torn[..k];
    if k >= 8 {
      assert front[..4] == torn[..4] && front[4..8] == torn[4..8];
      var full := 4 + Uint(torn[..4]);
      if 8 <= full <= k {
        assert front[8..full] == torn[8..full];
      }
    }
  }

  lemma FrontOfCut(crc: Checksum, torn: Bytes, k: nat)
    requires CutRecord(crc, torn) && k <= |torn|
    ensures CutRecord(crc, torn[..k])
  {
    hide Encode, Fits;
    var r :| Fits(r) && |torn| < RecordSize(r) && torn == Encode(crc, r)[..|torn|];
    assert torn[..k] == Encode(crc, r)[..k];
  }

  /** The same for a segment that was torn before; a cut behind the records leaves a part of what was torn. */
  lemma CutAgain(crc: Checksum, data: Bytes, recs: seq<Record>, before: Bytes, n: nat) returns (m: nat, torn: Bytes)
    requires Holds(crc, data, recs, before) && n <= |data|
    ensures WholeBefore(recs, m, n) && Holds(crc, data[..n], recs[..m], torn)
    ensures (torn == [] <==> n == Extent(recs[..m])) && (CutRecord(crc, before) ==> CutRecord(crc, torn))
  {
    hide Encode, Decode, Fits, EncodeAll, Extent, CutRecord;
    TakeOfSum(EncodeAll(crc, recs), before, n);
    if n <= Extent(recs) {
      m, torn := CutScan(crc, recs, n);
    } else {
      m, torn := |recs|, before[..n - Extent(recs)];
      assert recs[..m] == recs;
      FrontOfCorrupt(crc, before, n - Extent(recs));
      if CutRecord(crc, before) {
        FrontOfCut(crc, before, n - Extent(recs));
      }
    }
  }

  lemma NothingTorn(crc: Checksum)
    ensures CutRecord(crc, []) && Decode(crc, []).Corrupt?
  {
    var r := Record(0, 0, [], [], 0, []);
    assert Fits(r) && [] == Encode(crc, r)[..0];
  }

  lemma {:induction false} FlattenTake(h: History, k: nat)
    requires k <= |h|
    ensures Flatten(h[..k]) <= Flatten(h)
  {
    if k < |h| {
      FlattenTake(h[..|h| - 1], k);
      assert h[..|h| - 1][..k] == h[..k];
    } else {
      assert h[..k] == h;
    }
  }

  /**
   * Any prefix of a log is the log of the calls that stand whole in it and at most
   * one unfinished transaction, so it means exactly what those calls meant.
   */
  lemma {:induction false} PrefixHistory(h: History, m: nat) returns (k: nat, h': History)
    requires WellFormed(h) && m <= |Flatten(h)|
    ensures k <= |h| && |Flatten(h[..k])| <= m
    ensures k < |h| ==> m < |Flatten(h[..k + 1])|
    ensures WellFormed(h') && Flatten(h') == Flatten(h)[..m]
    ensures Meaning(h') == Meaning(h[..k])
    ensures h' == h[..k] || OneUnfinished(h[..k], h')
  {
    hide StepEntries, StepMeaning;
    if m == |Flatten(h)| {
      k, h' := |h|, h;
      assert h[..k] == h;
    } else {
      var front, s := h[..|h| - 1], h[|h| - 1];
      assert Flatten(h) == Flatten(front) + StepEntries(s);
      if m < |Flatten(front)| {
        k, h' := PrefixHistory(front, m);
        assert front[..k] == h[..k];
        assert front[..|front|] == front;
        assert k < |front| ==> front[..k + 1] == h[..k + 1];
      } else {
        k := |front|;
        assert h[..k] == front && h[..k + 1] == h;
        h' := CutStep(front, s, m - |Flatten(front)|);
      }
    }
  }

  /** h' is h and one transaction that was never finished. */
  predicate OneUnfinished(h: History, h': History) {
    |h'| == |h| + 1 && h'[..|h|] == h && h'[|h|].Block? && h'[|h|].end.Unfinished?
  }

  lemma FlattenMore(h: History, s: Step)
    ensures Flatten(h + [s]) == Flatten(h) + StepEntries(s)
    ensures Meaning(h + [s]) == StepMeaning(Meaning(h), s)
    ensures WellFormed(h + [s]) <==> WellFormed(h) && WellFormedStep(s)
  {
    assert (h + [s])[..|h|] == h;
    assert forall t :: t in h + [s] <==> t in h || t == s;
  }

  lemma CutStep(front: History, s: Step, n: nat) returns (h': History)
    requires WellFormed(front) && WellFormedStep(s) && n < |StepEntries(s)|
    ensures WellFormed(h') && Flatten(h') == Flatten(front) + StepEntries(s)[..n]
    ensures Meaning(h') == Meaning(front)
    ensures h' == front || OneUnfinished(front, h')
  {
    if n == 0 {
      h' := front;
      assert Flatten(front) + [] == Flatten(front);
    } else {
      hide Flatten, Meaning, WellFormed, StepEntries;
      var cut := Block(s.begin, s.ops[..n - 1], Unfinished);
      CutBlock(s, n);
      h' := front + [cut];
      FlattenMore(front, cut);
      assert h'[..|front|] == front;
    }
  }

  lemma CutBlock(s: Step, n: nat)
    requires WellFormedStep(s) && 0 < n < |StepEntries(s)|
    ensures s.Block? && n - 1 <= |s.ops|
    ensures var cut := Block(s.begin, s.ops[..n - 1], Unfinished);
            WellFormedStep(cut) && StepEntries(s)[..n] == StepEntries(cut)
  {
    assert forall e | e in s.ops[..n - 1] :: e in s.ops;
  }

  lemma {:induction false} ScanAllIsEntries(crc: Checksum, disk: seq<Image>, files: seq<File>, torn: seq<Bytes>)
    requires |disk| == |files| == |torn|
    requires forall i | 0 <= i < |files| ::
               disk[i].id == files[i].id && Holds(crc, disk[i].data, files[i].recs, torn[i])
    ensures ScanAll(crc, disk) == EntriesOf(files)
  {
    hide Body, Frame, Encode, Decode, EncodeAll, Extent, Entries, Scan;
    if files != [] {
      var n := |files| - 1;
      ScanAllIsEntries(crc, disk[..n], files[..n], torn[..n]);
      ScanEncoded(crc, files[n].id, files[n].recs, torn[n]);
    }
  }

  /** Segments found on disk with what is known of their bytes. */
  ghost predicate Found(crc: Checksum, disk: seq<Image>, files: seq<File>, torns: seq<Bytes>) {
    && |disk| == |files| == |torns| && Growing(files)
    && forall i | 0 <= i < |disk| :: disk[i].id == files[i].id && Holds(crc, disk[i].data, files[i].recs, torns[i])
  }

  /** The last file cut to its first n bytes. */
  function CrashAt(disk: seq<Image>, n: nat): seq<Image>
    requires disk != [] && n <= |disk[|disk| - 1].data|
  {
    var last := disk[|disk| - 1];
    disk[..|disk| - 1] + [Image(last.id, last.data[..n])]
  }

  /** The record of e is whole before byte n of the last segment. */
  predicate Survives(e: Entry, lastID: nat, n: nat) {
    e.loc.segID != lastID || e.loc.offset + e.loc.size <= n
  }

  /** Ids of segment files grow. */
  predicate Growing(files: seq<File>) {
    forall i, j | 0 <= i < j < |files| :: files[i].id < files[j].id
  }

  /**
   * Crash consistency: cut the last segment of a log at any byte, whether or not earlier
   * crashes have left torn tails. Recovery scans exactly the records that are whole before
   * the cut, and replaying them gives exactly the meaning of the first k calls, where k
   * counts every call whose records all survive and no other. The recovered entries are
   * again the log of a history: those calls and at most one unfinished transaction.
   */
  lemma CrashConsistency(crc: Checksum, disk: seq<Image>, files: seq<File>, before: seq<Bytes>, h: History, n: nat)
    returns (cut: seq<File>, torns: seq<Bytes>, k: nat, h': History)
    requires Found(crc, disk, files, before) && disk != [] && n <= |disk[|disk| - 1].data|
    requires WellFormed(h) && Flatten(h) == EntriesOf(files)
    ensures Crashed(crc, disk, files, before, n, cut, torns)
    ensures ScanAll(crc, CrashAt(disk, n)) == EntriesOf(cut)
    ensures EntriesOf(cut) <= Flatten(h)
    ensures forall i | 0 <= i < |Flatten(h)| ::
              i < |EntriesOf(cut)| <==> Survives(Flatten(h)[i], files[|files| - 1].id, n)
    ensures k <= |h| && Replay(EntriesOf(cut)).primary == Meaning(h[..k])
    ensures |Flatten(h[..k])| <= |EntriesOf(cut)|
    ensures k < |h| ==> |EntriesOf(cut)| < |Flatten(h[..k + 1])|
    ensures WellFormed(h') && Flatten(h') == EntriesOf(cut) && Meaning(h') == Meaning(h[..k])
    ensures h' == h[..k] || OneUnfinished(h[..k], h')
  {
    hide *;
    FoundFacts(crc, disk, files, before);
    var m;
    m, cut, torns := CrashedFiles(crc, disk, files, before, n);
    CutEntries(files, cut, m);
    CutSurvivors(files, m, n);
    assert EntriesOf(cut) == Flatten(h)[..|EntriesOf(cut)|];
    k, h' := PrefixHistory(h, |EntriesOf(cut)|);
    ReplayIsMeaning(h');
  }

  lemma FoundFacts(crc: Checksum, disk: seq<Image>, files: seq<File>, torns: seq<Bytes>)
    requires Found(crc, disk, files, torns)
    ensures |disk| == |files| == |torns| && Growing(files)
  {
  }

  /** The first m records, and no more, lie whole before byte n. */
  predicate WholeBefore(recs: seq<Record>, m: nat, n: nat) {
    && m <= |recs| && Extent(recs[..m]) <= n
    && (m < |recs| ==> n < Extent(recs[..m + 1]))
  }

  /** The files as they are after the crash: records up to the cut and the torn rest. */
  ghost predicate Crashed(crc: Checksum, disk: seq<Image>, files: seq<File>, before: seq<Bytes>, n: nat,
                          cut: seq<File>, torns: seq<Bytes>)
    requires disk != [] && |disk| == |files| == |before| && n <= |disk[|disk| - 1].data|
  {
    var last := |disk| - 1;
    && Found(crc, CrashAt(disk, n), cut, torns)
    && (forall i | 0 <= i < |cut| :: cut[i].id == files[i].id)
    && torns[..last] == before[..last] && (torns[last] == [] <==> n == Extent(cut[last].recs))
    && (CutRecord(crc, before[last]) ==> CutRecord(crc, torns[last]))
  }

  lemma CutEntries(files: seq<File>, cut: seq<File>, m: nat)
    requires files != [] && m <= |files[|files| - 1].recs|
    requires var last := files[|files| - 1]; cut == files[..|files| - 1] + [File(last.id, last.recs[..m])]
    ensures EntriesOf(cut) <= EntriesOf(files)
    ensures |EntriesOf(cut)| == |EntriesOf(files[..|files| - 1])| + m
    ensures |EntriesOf(files)| == |EntriesOf(files[..|files| - 1])| + |files[|files| - 1].recs|
  {
    var last := files[|files| - 1];
    EntriesTake(last.id, last.recs, m);
    assert cut[..|files| - 1] == files[..|files| - 1];
  }

  lemma CrashedFiles(crc: Checksum, disk: seq<Image>, files: seq<File>, before: seq<Bytes>, n: nat)
    returns (m: nat, cut: seq<File>, torns: seq<Bytes>)
    requires Found(crc, disk, files, before) && disk != [] && n <= |disk[|disk| - 1].data|
    ensures var last := files[|files| - 1];
            && WholeBefore(last.recs, m, n) && m <= |last.recs|
            && cut == files[..|files| - 1] + [File(last.id, last.recs[..m])]
    ensures ScanAll(crc, CrashAt(disk, n)) == EntriesOf(cut)
    ensures Crashed(crc, disk, files, before, n, cut, torns)
  {
    hide Encode, EncodeAll, Extent, Decode, ScanAll, EntriesOf, CutRecord, Holds;
    var last := |files| - 1;
    var torn;
    m, torn := CutAgain(crc, disk[last].data, files[last].recs, before[last], n);
    cut := files[..last] + [File(files[last].id, files[last].recs[..m])];
    torns := before[..last] + [torn];
    ScanAllIsEntries(crc, CrashAt(disk, n), cut, torns);
  }

  lemma {:induction false} ExtentGrows(recs: seq<Record>, i: nat, j: nat)
    requires i <= j <= |recs|
    ensures Extent(recs[..i]) <= Extent(recs[..j])
  {
    if i < j {
      ExtentGrows(recs, i, j - 1);
      assert recs[..j][..j - 1] == recs[..j - 1];
    }
  }

  lemma ExtentMore(recs: seq<Record>, k: nat)
    requires k < |recs|
    ensures Extent(recs[..k + 1]) == Extent(recs[..k]) + RecordSize(recs[k])
  {
    assert recs[..k + 1][..k] == recs[..k];
  }

  /** In one segment the records before the cut are the first m. */
  lemma LastSurvivors(id: nat, recs: seq<Record>, m: nat, n: nat)
    requires WholeBefore(recs, m, n)
    ensures forall k | 0 <= k < |recs| :: k < m <==> Survives(Entries(id, recs)[k], id, n)
  {
    hide Entries, Extent;
    forall k | 0 <= k < |recs| ensures k < m <==> Survives(Entries(id, recs)[k], id, n) {
      EntryAt(id, recs, k);
      ExtentMore(recs, k);
      if k < m {
        ExtentGrows(recs, k + 1, m);
      } else {
        ExtentGrows(recs, m + 1, k + 1);
      }
    }
  }

  lemma {:induction false} OtherSegments(files: seq<File>, id: nat)
    requires forall f | f in files :: f.id != id
    ensures forall e | e in EntriesOf(files) :: e.loc.segID != id
  {
    if files != [] {
      var front, last := files[..|files| - 1], files[|files| - 1];
      OtherSegments(front, id);
      assert last in files;
      forall e | e in EntriesOf(files) ensures e.loc.segID != id {
        if e !in EntriesOf(front) {
          var k :| 0 <= k < |Entries(last.id, last.recs)| && Entries(last.id, last.recs)[k] == e;
          EntryAt(last.id, last.recs, k);
        }
      }
    }
  }

  lemma CutSurvivors(files: seq<File>, m: nat, n: nat)
    requires files != [] && Growing(files) && WholeBefore(files[|files| - 1].recs, m, n)
    ensures var before := |EntriesOf(files[..|files| - 1])|;
            forall i | 0 <= i < |EntriesOf(files)| ::
              i < before + m <==> Survives(EntriesOf(files)[i], files[|files| - 1].id, n)
  {
    var front, last := files[..|files| - 1], files[|files| - 1];
    OtherSegments(front, last.id);
    LastSurvivors(last.id, last.recs, m, n);
    var es := EntriesOf(files);
    forall i | 0 <= i < |es| ensures i < |EntriesOf(front)| + m <==> Survives(es[i], last.id, n) {
      if i < |EntriesOf(front)| {
        assert es[i] == EntriesOf(front)[i];
        assert es[i] in EntriesOf(front);
      } else {
        assert es[i] == Entries(last.id, last.recs)[i - |EntriesOf(front)|];
      }
    }
  }

  // ----- writing behind a torn tail

  /** torn is what a crash leaves of one record: a part of its encoding that is not all of it. */
  ghost predicate CutRecord(crc: Checksum, torn: Bytes) {
    exists r :: Fits(r) && |torn| < RecordSize(r) && torn == Encode(crc, r)[..|torn|]
  }

  /** A scan reports no entry before the place it starts at. */
  lemma {:induction false} ScanGoesOn(crc: Checksum, segID: nat, data: Bytes, off: nat)
    requires off <= |data|
    ensures forall e | e in Scan(crc, segID, data, off) :: e.loc.segID == segID && e.loc.offset >= off
    decreases |data| - off
  {
    hide Decode, Scan;
    ScanMore(crc, segID, data, off);
    var d := Decode(crc, data[off..]);
    if d.Ok? {
      ScanGoesOn(crc, segID, data, off + d.size);
    }
  }

  /** If the front of a cut record decodes together with what follows, it takes more than was left of it. */
  lemma TornFrameReaches(crc: Checksum, r0: Record, n: nat, later: Bytes)
    requires Fits(r0) && 0 < n < RecordSize(r0)
    ensures var d := Decode(crc, Encode(crc, r0)[..n] + later); d.Ok? ==> d.size > n
  {
    hide Body, ParseBody;
    var torn := Encode(crc, r0)[..n];
    var data := torn + later;
    var d := Decode(crc, data);
    if d.Ok? {
      DecodeIsFrame(crc, data);
      if n >= 4 {
        var size := RecordSize(r0) - 4;
        assert data[..4] == torn[..4] == Encode(crc, r0)[..4] == PutUint(size, 4);
        ReadBack(size, 4);
        Widths();
      }
    }
  }

  lemma EntriesEndBefore(segID: nat, recs: seq<Record>)
    ensures forall e | e in Entries(segID, recs) :: e.loc.offset < Extent(recs)
  {
    hide Entries, Extent;
    forall e | e in Entries(segID, recs) ensures e.loc.offset < Extent(recs) {
      var k :| 0 <= k < |recs| && Entries(segID, recs)[k] == e;
      EntryAt(segID, recs, k);
      ExtentMore(recs, k);
      ExtentGrows(recs, k + 1, |recs|);
      assert recs[..|recs|] == recs;
    }
  }

  /**
   * A record written behind what is left of another one is found where it was written
   * if and only if nothing is left of the other, whatever the checksum does.
   */
  lemma TornTailHides(crc: Checksum, segID: nat, recs: seq<Record>, r0: Record, n: nat, r: Record)
    requires AllFit(recs) && Fits(r0) && n < RecordSize(r0) && Fits(r)
    ensures Entry(r, Location(segID, Extent(recs) + n, RecordSize(r)))
            in Scan(crc, segID, EncodeAll(crc, recs) + (Encode(crc, r0)[..n] + Encode(crc, r)), 0)
            <==> n == 0
  {
    hide Encode, Decode, EncodeAll, Entries, Extent, Fits, Scan;
    var torn := Encode(crc, r0)[..n];
    var tail, at := torn + Encode(crc, r), Extent(recs);
    var data, e := EncodeAll(crc, recs) + tail, Entry(r, Location(segID, at + n, RecordSize(r)));
    ScanPast(crc, segID, recs, tail, 0);
    NoExtent();
    assert recs[..0] == [] && Entries(segID, recs)[0..] == Entries(segID, recs);
    assert data[at..] == tail;
    EntriesEndBefore(segID, recs);
    ScanMore(crc, segID, data, at);
    assert e !in Entries(segID, recs);
    assert e in Scan(crc, segID, data, 0) <==> e in Scan(crc, segID, data, at);
    var d := Decode(crc, tail);
    if n == 0 {
      assert tail == Encode(crc, r) + [];
      RoundTrip(crc, r, []);
    } else if d.Ok? {
      TornFrameReaches(crc, r0, n, Encode(crc, r));
      ScanGoesOn(crc, segID, data, at + d.size);
    }
  }

  lemma NoExtent()
    ensures Extent([]) == 0
  {
  }

  /** Torn bytes whose record lacks bytes even with n more. */
  predicate StaysShort(torn: Bytes, n: nat) {
    |torn| >= 4 && |torn| + n < 4 + Uint(torn[..4])
  }

  /** While a torn record still lacks bytes, a scan sees none of what is appended to its segment. */
  lemma StillShortHides(crc: Checksum, segID: nat, recs: seq<Record>, torn: Bytes, later: Bytes)
    requires AllFit(recs) && StaysShort(torn, |later|)
    ensures Scan(crc, segID, EncodeAll(crc, recs) + (torn + later), 0) == Entries(segID, recs)
  {
    StillShort(crc, torn, later);
    ScanEncoded(crc, segID, recs, torn + later);
  }

  lemma StillShort(crc: Checksum, torn: Bytes, later: Bytes)
    requires StaysShort(torn, |later|)
    ensures Decode(crc, torn + later).Corrupt?
  {
    assert (torn + later)[..4] == torn[..4];
  }
}
