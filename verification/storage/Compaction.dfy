/** What compaction keeps of a log: the operations outside transactions, and nothing else. */
module Compaction {
  import opened ByteOrder
  import opened Codec
  import opened Log

  /** The scan callback of compaction: only records without a transaction count. */
  function PlainStep(p: Primary, e: Entry): Primary {
    if e.rec.txID == 0 then Apply(p, e) else p
  }

  function PlainFrom(p: Primary, es: seq<Entry>): Primary {
    if es == [] then p else PlainStep(PlainFrom(p, es[..|es| - 1]), es[|es| - 1])
  }

  function PlainPrimary(es: seq<Entry>): Primary {
    PlainFrom(map[], es)
  }

  lemma {:induction false} PlainConcat(p: Primary, a: seq<Entry>, b: seq<Entry>)
    ensures PlainFrom(p, a + b) == PlainFrom(PlainFrom(p, a), b)
  {
    if b == [] {
      assert a + b == a;
    } else {
      PlainConcat(p, a, b[..|b| - 1]);
      assert (a + b)[..|a + b| - 1] == a + b[..|b| - 1];
    }
  }

  lemma {:induction false} PlainSkips(p: Primary, es: seq<Entry>)
    requires forall e | e in es :: e.rec.txID != 0
    ensures PlainFrom(p, es) == p
  {
    if es != [] {
      PlainSkips(p, es[..|es| - 1]);
      assert es[|es| - 1] in es;
    }
  }

  /** What compaction finds stands in the log, outside any transaction. */
  lemma {:induction false} PlainInLog(es: seq<Entry>)
    ensures forall id | id in PlainPrimary(es) ::
              var e := PlainPrimary(es)[id]; e in es && e.rec.id == id && IsPut(e.rec) && e.rec.txID == 0
  {
    if es != [] {
      var front, last := es[..|es| - 1], es[|es| - 1];
      PlainInLog(front);
      assert forall e :: e in es <==> e in front || e == last;
      assert PlainPrimary(es) == PlainStep(PlainPrimary(front), last);
    }
  }

  lemma PlainOfStep(p: Primary, s: Step)
    requires WellFormedStep(s)
    ensures PlainFrom(p, StepEntries(s)) == if s.Plain? then Apply(p, s.op) else p
  {
    if s.Plain? {
      assert StepEntries(s)[..0] == [];
    } else {
      forall e | e in StepEntries(s) ensures e.rec.txID != 0 {
      }
      PlainSkips(p, StepEntries(s));
    }
  }

  lemma {:induction false} OpsAreTransactional(p: Primary, ops: seq<Entry>)
    requires forall e | e in ops :: e.rec.txID != 0
    ensures forall id | id in ApplyAll(p, ops) && ApplyAll(p, ops)[id].rec.txID == 0 ::
              id in p && p[id] == ApplyAll(p, ops)[id]
  {
    if ops != [] {
      OpsAreTransactional(p, ops[..|ops| - 1]);
      assert ops[|ops| - 1] in ops;
    }
  }

  /** A live version written outside a transaction is the one compaction finds. */
  lemma {:induction false} PlainVersionsAgree(h: History)
    requires WellFormed(h)
    ensures forall id | id in Meaning(h) && Meaning(h)[id].rec.txID == 0 ::
              id in PlainPrimary(Flatten(h)) && PlainPrimary(Flatten(h))[id] == Meaning(h)[id]
    ensures forall id | id in PlainPrimary(Flatten(h)) :: PlainPrimary(Flatten(h))[id].rec.txID == 0
  {
    if h != [] {
      var front, s := h[..|h| - 1], h[|h| - 1];
      assert s in h;
      PlainVersionsAgree(front);
      PlainConcat(map[], Flatten(front), StepEntries(s));
      PlainOfStep(PlainPrimary(Flatten(front)), s);
      if s.Block? {
        OpsAreTransactional(Meaning(front), s.ops);
      }
    }
  }

  // ----- the condition, read off the log

  /** The operations that count: plain ones, and those of committed transactions. */
  function Effective(h: History): seq<Entry> {
    if h == [] then [] else
    Effective(h[..|h| - 1]) + match h[|h| - 1]
                              case Plain(op) => [op]
                              case Block(_, ops, end) => if end.Committed? then ops else []
  }

  function PlainOps(h: History): seq<Entry> {
    if h == [] then [] else
    PlainOps(h[..|h| - 1]) + match h[|h| - 1] case Plain(op) => [op] case Block(_, _, _) => []
  }

  lemma {:induction false} ApplyAllConcat(p: Primary, a: seq<Entry>, b: seq<Entry>)
    ensures ApplyAll(p, a + b) == ApplyAll(ApplyAll(p, a), b)
  {
    if b == [] {
      assert a + b == a;
    } else {
      ApplyAllConcat(p, a, b[..|b| - 1]);
      assert (a + b)[..|a + b| - 1] == a + b[..|b| - 1];
    }
  }

  lemma ApplyOne(p: Primary, e: Entry)
    ensures ApplyAll(p, [e]) == Apply(p, e) && ApplyAll(p, []) == p
  {
    assert [e][..0] == [];
  }

  /** The live versions come from the effective operations, compaction's from the plain ones. */
  lemma {:induction false} BothFromOperations(h: History)
    requires WellFormed(h)
    ensures Meaning(h) == ApplyAll(map[], Effective(h)) && PlainPrimary(Flatten(h)) == ApplyAll(map[], PlainOps(h))
    ensures forall e | e in Effective(h) :: IsOp(e.rec)
    ensures forall e | e in PlainOps(h) :: IsOp(e.rec) && e.rec.txID == 0
  {
    if h != [] {
      var front, s := h[..|h| - 1], h[|h| - 1];
      assert s in h && WellFormedStep(s);
      BothFromOperations(front);
      PlainConcat(map[], Flatten(front), StepEntries(s));
      PlainOfStep(PlainPrimary(Flatten(front)), s);
      hide Apply, PlainFrom, Flatten;
      match s
      case Plain(op) =>
        ApplyAllConcat(map[], Effective(front), [op]);
        ApplyAllConcat(map[], PlainOps(front), [op]);
        ApplyOne(Meaning(front), op);
        ApplyOne(PlainPrimary(Flatten(front)), op);
      case Block(_, ops, end) =>
        ApplyAllConcat(map[], Effective(front), ops);
        assert PlainOps(front) + [] == PlainOps(front) && Effective(front) + [] == Effective(front);
    }
  }

  lemma {:induction false} LastConcat(a: seq<Entry>, b: seq<Entry>)
    ensures LastByID(a + b) == LastByID(a) + LastByID(b)
  {
    if b == [] {
      assert a + b == a;
    } else {
      LastConcat(a, b[..|b| - 1]);
      assert (a + b)[..|a + b| - 1] == a + b[..|b| - 1];
    }
  }

  lemma LastOne(e: Entry)
    ensures LastByID([e]) == map[e.rec.id := e] && LastByID([]) == map[]
  {
    assert [e][..0] == [];
  }

  lemma {:induction false} LastInTransaction(ops: seq<Entry>, tx: Word64)
    requires forall e | e in ops :: e.rec.txID == tx
    ensures forall id | id in LastByID(ops) :: LastByID(ops)[id].rec.txID == tx
  {
    if ops != [] {
      LastInTransaction(ops[..|ops| - 1], tx);
      assert ops[|ops| - 1] in ops;
    }
  }

  /** An id whose last operation of all was plain has that very operation as its last plain one. */
  ghost predicate PlainAmong(last: Primary, plain: Primary) {
    && (forall id | id in plain :: id in last)
    && forall id | id in last && last[id].rec.txID == 0 :: id in plain && plain[id] == last[id]
  }

  lemma OnePlainMore(last: Primary, plain: Primary, e: Entry)
    requires PlainAmong(last, plain)
    ensures PlainAmong(last + map[e.rec.id := e], plain + map[e.rec.id := e])
  {
  }

  lemma BlockMore(last: Primary, plain: Primary, buf: Primary)
    requires PlainAmong(last, plain) && forall id | id in buf :: buf[id].rec.txID != 0
    ensures PlainAmong(last + buf, plain)
  {
  }

  lemma {:induction false} LastPlain(h: History)
    requires WellFormed(h)
    ensures PlainAmong(LastByID(Effective(h)), LastByID(PlainOps(h)))
  {
    if h != [] {
      var front, s := h[..|h| - 1], h[|h| - 1];
      assert s in h && WellFormedStep(s);
      LastPlain(front);
      hide LastByID, PlainAmong;
      var last, plain := LastByID(Effective(front)), LastByID(PlainOps(front));
      match s
      case Plain(op) =>
        LastConcat(Effective(front), [op]);
        LastConcat(PlainOps(front), [op]);
        LastOne(op);
        OnePlainMore(last, plain, op);
      case Block(begin, ops, end) =>
        LastConcat(Effective(front), ops);
        LastInTransaction(ops, begin.rec.txID);
        BlockMore(last, plain, LastByID(ops));
        assert PlainOps(front) + [] == PlainOps(front) && Effective(front) + [] == Effective(front);
    }
  }

  /**
   * Wherever the last effective operation on an id belongs to a transaction, it is a delete,
   * and the last plain operation on the id, if there is one, is no put.
   */
  ghost predicate Compactable(h: History) {
    var last, plain := LastByID(Effective(h)), LastByID(PlainOps(h));
    forall id | id in last && last[id].rec.txID != 0 ::
      last[id].rec.rtype == REC_DELETE && !(id in plain && IsPut(plain[id].rec))
  }

  /** Compaction keeps exactly the live versions if and only if the log is compactable. */
  lemma CompactionKeepsIff(h: History)
    requires WellFormed(h)
    ensures PlainPrimary(Flatten(h)) == Meaning(h) <==> Compactable(h)
    ensures SameVersions(PlainPrimary(Flatten(h)), Meaning(h)) <==> Compactable(h)
  {
    hide PlainFrom, Flatten, Meaning, ApplyAll, LastByID, WellFormed;
    BothFromOperations(h);
    BufferIsSequential(map[], Effective(h));
    BufferIsSequential(map[], PlainOps(h));
    LastPlain(h);
    LastInTransaction(PlainOps(h), 0);
    KeepsIff(LastByID(Effective(h)), LastByID(PlainOps(h)));
  }

  /** The same ids with the same records, wherever they stand. */
  ghost predicate SameVersions(p: Primary, q: Primary) {
    p.Keys == q.Keys && forall id | id in p :: p[id].rec == q[id].rec
  }

  lemma KeepsIff(last: Primary, plain: Primary)
    requires forall id | id in last :: IsOp(last[id].rec)
    requires PlainAmong(last, plain) && forall id | id in plain :: IsOp(plain[id].rec) && plain[id].rec.txID == 0
    ensures var same := forall id | id in last && last[id].rec.txID != 0 ::
                          last[id].rec.rtype == REC_DELETE && !(id in plain && IsPut(plain[id].rec));
            && (ApplyBuffer(map[], plain) == ApplyBuffer(map[], last) <==> same)
            && (SameVersions(ApplyBuffer(map[], plain), ApplyBuffer(map[], last)) <==> same)
  {
    var p, q := ApplyBuffer(map[], plain), ApplyBuffer(map[], last);
    assert forall id :: id in p <==> id in plain && IsPut(plain[id].rec);
    assert forall id :: id in q <==> id in last && IsPut(last[id].rec);
    assert forall id | id in p :: p[id] == plain[id];
    assert forall id | id in q :: q[id] == last[id];
  }

  /** In a log whose committed transactions hold no data record the live versions are always kept. */
  lemma {:induction false} WithoutCommits(h: History)
    requires WellFormed(h) && (forall s | s in h :: s.Block? && s.end.Committed? ==> s.ops == [])
    ensures Effective(h) == PlainOps(h) && PlainPrimary(Flatten(h)) == Meaning(h) && Compactable(h)
  {
    EffectivePlain(h);
    BothFromOperations(h);
    CompactionKeepsIff(h);
  }

  lemma {:induction false} EffectivePlain(h: History)
    requires forall s | s in h :: s.Block? && s.end.Committed? ==> s.ops == []
    ensures Effective(h) == PlainOps(h)
  {
    if h != [] {
      assert h[|h| - 1] in h;
      EffectivePlain(h[..|h| - 1]);
    }
  }

  /** Of a log without plain operations compaction keeps nothing. */
  lemma OnlyBlocks(h: History)
    requires WellFormed(h) && forall s | s in h :: s.Block?
    ensures PlainPrimary(Flatten(h)) == map[]
  {
    BothFromOperations(h);
    NoPlainOps(h);
  }

  lemma {:induction false} NoPlainOps(h: History)
    requires forall s | s in h :: s.Block?
    ensures PlainOps(h) == []
  {
    if h != [] {
      assert h[|h| - 1] in h;
      NoPlainOps(h[..|h| - 1]);
    }
  }

  /** A document created in a committed transaction is live and is lost by compaction. */
  lemma CommittedDocumentIsLost(begin: Entry, insert: Entry, commit: Entry)
    requires begin.rec.rtype == REC_TX_BEGIN && insert.rec.rtype == REC_INSERT && commit.rec.rtype == REC_TX_COMMIT
    requires begin.rec.txID == insert.rec.txID == commit.rec.txID != 0
    ensures var h := [Block(begin, [insert], Committed(commit))];
            && WellFormed(h)
            && Replay(Flatten(h)).primary == map[insert.rec.id := insert]
            && PlainPrimary(Flatten(h)) == map[]
  {
    var s := Block(begin, [insert], Committed(commit));
    var h := [s];
    assert h[..0] == [] && [insert][..0] == [];
    assert WellFormedStep(s);
    ReplayIsMeaning(h);
    assert ApplyAll(map[], [insert]) == Apply(map[], insert);
    assert Flatten(h) == StepEntries(s);
    PlainOfStep(map[], s);
  }
}
