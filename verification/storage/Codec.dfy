/** The binary record of the store: a printer, a parser, and why they are inverse. */
module Codec {
  import opened ByteOrder

  const REC_INSERT: Byte := 1
  const REC_UPDATE: Byte := 2
  const REC_DELETE: Byte := 3
  const REC_TX_BEGIN: Byte := 4
  const REC_TX_COMMIT: Byte := 5
  const REC_TX_ROLLBACK: Byte := 6

  datatype Record = Record(
    rtype: Byte,
    txID: Word64,
    table: Bytes,
    id: Bytes,
    timestamp: Int64,
    payload: Bytes)

  /** The CRC32 of the file format; every result holds for any function of bytes. */
  type Checksum = Bytes -> Word32

  /** Panic is the slice-out-of-range run-time error of the decoder. */
  datatype Decoded = Ok(rec: Record, size: nat) | Corrupt | Panic

  // ----- printing

  function TailBytes(r: Record): Bytes {
    PutUint(ToUnsigned(r.timestamp), 8) + (PutUint(|r.payload|, 4) + r.payload)
  }

  function IDBytes(r: Record): Bytes {
    PutUint(|r.id|, 2) + (r.id + TailBytes(r))
  }

  function NameBytes(r: Record): Bytes {
    PutUint(|r.table|, 2) + (r.table + IDBytes(r))
  }

  /** The fields of a record; a length wider than its word loses its high bytes. */
  function Body(r: Record): (b: Bytes)
    ensures |b| == 25 + |r.table| + |r.id| + |r.payload|
  {
    [r.rtype] + (PutUint(r.txID, 8) + NameBytes(r))
  }

  /** A body behind its length word and checksum. */
  function Frame(crc: Checksum, body: Bytes): (b: Bytes)
    ensures |b| == 8 + |body|
  {
    PutUint(4 + |body|, 4) + PutUint(crc(body), 4) + body
  }

  function Encode(crc: Checksum, r: Record): (b: Bytes)
    ensures |b| == RecordSize(r)
  {
    Frame(crc, Body(r))
  }

  function RecordSize(r: Record): nat {
    33 + |r.table| + |r.id| + |r.payload|
  }

  /** The lengths that the length words of the format can hold. */
  predicate FieldsFit(r: Record) {
    |r.table| < 0x1_0000 && |r.id| < 0x1_0000 && |r.payload| < 0x1_0000_0000
  }

  predicate Fits(r: Record) {
    FieldsFit(r) && RecordSize(r) - 4 < 0x1_0000_0000
  }

  /** Where every field of a record stands, numbers with their least significant byte first. */
  lemma Layout(crc: Checksum, r: Record)
    ensures var b := Encode(crc, r);
            var id := 19 + |r.table|;
            var stamp := id + 2 + |r.id|;
            && b[..4] == PutUint(|b| - 4, 4) && b[4..8] == PutUint(crc(b[8..]), 4)
            && b[8] == r.rtype && b[9..17] == PutUint(r.txID, 8)
            && b[17..19] == PutUint(|r.table|, 2) && b[19..id] == r.table
            && b[id..id + 2] == PutUint(|r.id|, 2) && b[id + 2..stamp] == r.id
            && b[stamp..stamp + 8] == PutUint(ToUnsigned(r.timestamp), 8)
            && b[stamp + 8..stamp + 12] == PutUint(|r.payload|, 4) && b[stamp + 12..] == r.payload
  {
    hide ToUnsigned, PutUint;
    var b := Encode(crc, r);
    var body := b[8..];
    assert body == Body(r);
    FieldsOf(r);
    Behind(b, 8, 1, 9);
    Behind(b, 8, 9, 11);
    Behind(b, 8, 11, 11 + |r.table|);
    var id := 11 + |r.table|;
    var stamp := id + 2 + |r.id|;
    Behind(b, 8, id, id + 2);
    Behind(b, 8, id + 2, stamp);
    Behind(b, 8, stamp, stamp + 8);
    Behind(b, 8, stamp + 8, stamp + 12);
    Behind(b, 8, stamp + 12, |body|);
  }

  lemma FieldsOf(r: Record)
    ensures var b := Body(r);
            var id := 11 + |r.table|;
            var stamp := id + 2 + |r.id|;
            && b[0] == r.rtype && b[1..9] == PutUint(r.txID, 8)
            && b[9..11] == PutUint(|r.table|, 2) && b[11..id] == r.table
            && b[id..id + 2] == PutUint(|r.id|, 2) && b[id + 2..stamp] == r.id
            && b[stamp..stamp + 8] == PutUint(ToUnsigned(r.timestamp), 8)
            && b[stamp + 8..stamp + 12] == PutUint(|r.payload|, 4) && b[stamp + 12..] == r.payload
  {
    hide ToUnsigned, PutUint;
    var b := Body(r);
    var tail, ids, names := TailBytes(r), IDBytes(r), NameBytes(r);
    assert b[9..] == names;
    Behind(b, 9, 2 + |r.table|, |names|);
    assert names[2 + |r.table|..] == ids;
    assert b[11 + |r.table|..] == ids;
    Behind(b, 9, 0, 2);
    Behind(b, 9, 2, 2 + |r.table|);
    var id := 11 + |r.table|;
    Behind(b, id, 0, 2);
    Behind(b, id, 2, 2 + |r.id|);
    Behind(b, id, 2 + |r.id|, |ids|);
    var stamp := id + 2 + |r.id|;
    assert b[stamp..] == tail;
    Behind(b, stamp, 0, 8);
    Behind(b, stamp, 8, 12);
    Behind(b, stamp, 12, |tail|);
  }

  lemma Behind(b: Bytes, at: nat, i: nat, j: nat)
    requires at <= |b| && i <= j <= |b| - at
    ensures b[at + i..at + j] == b[at..][i..j]
  {
  }

  // ----- parsing

  datatype Parsed<+T> = Got(value: T, rest: Bytes) | Short

  function TakeU16(b: Bytes): Parsed<nat> {
    if |b| < 2 then Short else Got(Uint(b[..2]), b[2..])
  }

  function TakeU32(b: Bytes): Parsed<nat> {
    if |b| < 4 then Short else Got(Uint(b[..4]), b[4..])
  }

  function TakeU64(b: Bytes): Parsed<Word64> {
    if |b| < 8 then Short else
    var w := Uint(b[..8]);
    assert w < 0x1_0000_0000_0000_0000 by { Widths(); UintBound(b[..8]); }
    Got(w, b[8..])
  }

  function TakeBytes(b: Bytes, n: nat): Parsed<Bytes> {
    if |b| < n then Short else Got(b[..n], b[n..])
  }

  /** The fields at the front of b; bytes after the payload are not looked at. */
  function ParseBody(b: Bytes): Parsed<Record> {
    if b == [] then Short else
    var rtype := b[0];
    var tx := TakeU64(b[1..]);
    if tx.Short? then Short else
    ParseNames(rtype, tx.value, tx.rest)
  }

  function ParseNames(rtype: Byte, txID: Word64, b: Bytes): Parsed<Record> {
    var tlen := TakeU16(b);
    if tlen.Short? then Short else
    var table := TakeBytes(tlen.rest, tlen.value);
    if table.Short? then Short else
    ParseID(rtype, txID, table.value, table.rest)
  }

  function ParseID(rtype: Byte, txID: Word64, table: Bytes, b: Bytes): Parsed<Record> {
    var ilen := TakeU16(b);
    if ilen.Short? then Short else
    var id := TakeBytes(ilen.rest, ilen.value);
    if id.Short? then Short else
    ParseTail(rtype, txID, table, id.value, id.rest)
  }

  function ParseTail(rtype: Byte, txID: Word64, table: Bytes, id: Bytes, b: Bytes): Parsed<Record> {
    if |b| < 8 + 4 then Short else
    var ts := TakeU64(b);
    var plen := TakeU32(ts.rest);
    var payload := TakeBytes(plen.rest, plen.value);
    if payload.Short? then Short else
    Got(Record(rtype, txID, table, id, ToSigned(ts.value), payload.value), payload.rest)
  }

  function Decode(crc: Checksum, data: Bytes): Decoded {
    if |data| < 8 then Corrupt else
    var full := 4 + Uint(data[..4]);
    if |data| < full then Corrupt else
    if full < 8 then Panic else
    if Uint(data[4..8]) != crc(data[8..full]) then Corrupt else
    match ParseBody(data[8..full])
    case Short => Corrupt
    case Got(r, _) => Ok(r, full)
  }

  // ----- the parser accepts exactly what the printer prints, plus slack

  lemma TakePut16(v: nat, rest: Bytes)
    requires v < 0x1_0000
    ensures TakeU16(PutUint(v, 2) + rest) == Got(v, rest)
  {
    Widths();
    TakePut(v, 2, rest);
  }

  lemma TakePut32(v: nat, rest: Bytes)
    requires v < 0x1_0000_0000
    ensures TakeU32(PutUint(v, 4) + rest) == Got(v, rest)
  {
    Widths();
    TakePut(v, 4, rest);
  }

  lemma TakePut64(v: Word64, rest: Bytes)
    ensures TakeU64(PutUint(v, 8) + rest) == Got(v, rest)
  {
    Widths();
    TakePut(v, 8, rest);
  }

  lemma TakePut(v: nat, n: nat, rest: Bytes)
    requires v < Pow256(n)
    ensures var b := PutUint(v, n) + rest; Uint(b[..n]) == v && b[n..] == rest
  {
    ReadBack(v, n);
    var b := PutUint(v, n) + rest;
    assert b[..n] == PutUint(v, n) && b[n..] == rest;
  }

  lemma TakePrefix(a: Bytes, rest: Bytes)
    ensures TakeBytes(a + rest, |a|) == Got(a, rest)
  {
    assert (a + rest)[..|a|] == a && (a + rest)[|a|..] == rest;
  }

  lemma Take16Is(b: Bytes)
    requires TakeU16(b).Got?
    ensures b == PutUint(TakeU16(b).value, 2) + TakeU16(b).rest && TakeU16(b).value < 0x1_0000
  {
    Widths();
    TakeIs(b, 2);
  }

  lemma Take32Is(b: Bytes)
    requires TakeU32(b).Got?
    ensures b == PutUint(TakeU32(b).value, 4) + TakeU32(b).rest && TakeU32(b).value < 0x1_0000_0000
  {
    Widths();
    TakeIs(b, 4);
  }

  lemma Take64Is(b: Bytes)
    requires TakeU64(b).Got?
    ensures b == PutUint(TakeU64(b).value, 8) + TakeU64(b).rest
  {
    TakeIs(b, 8);
  }

  lemma TakeIs(b: Bytes, n: nat)
    requires n <= |b|
    ensures b == PutUint(Uint(b[..n]), n) + b[n..] && Uint(b[..n]) < Pow256(n)
  {
    PutOfUint(b[..n]);
    UintBound(b[..n]);
    assert b == b[..n] + b[n..];
  }

  lemma TakeBytesIs(b: Bytes, n: nat)
    requires TakeBytes(b, n).Got?
    ensures b == TakeBytes(b, n).value + TakeBytes(b, n).rest
  {
  }

  lemma Regroup<T>(a: seq<T>, b: seq<T>, c: seq<T>, d: seq<T>)
    ensures a + (b + (c + d)) == (a + (b + c)) + d
  {
  }

  lemma ParseTailPrinted(r: Record, slack: Bytes)
    requires FieldsFit(r)
    ensures ParseTail(r.rtype, r.txID, r.table, r.id, TailBytes(r) + slack) == Got(r, slack)
  {
    var b2 := r.payload + slack;
    var b1 := PutUint(|r.payload|, 4) + b2;
    var b0 := PutUint(ToUnsigned(r.timestamp), 8) + b1;
    assert TailBytes(r) + slack == b0;
    TakePut64(ToUnsigned(r.timestamp), b1);
    TakePut32(|r.payload|, b2);
    TakePrefix(r.payload, slack);
  }

  lemma ParseIDPrinted(r: Record, slack: Bytes)
    requires FieldsFit(r)
    ensures ParseID(r.rtype, r.txID, r.table, IDBytes(r) + slack) == Got(r, slack)
  {
    var b1 := TailBytes(r) + slack;
    assert IDBytes(r) + slack == PutUint(|r.id|, 2) + (r.id + b1);
    TakePut16(|r.id|, r.id + b1);
    TakePrefix(r.id, b1);
    ParseTailPrinted(r, slack);
  }

  lemma ParseNamesPrinted(r: Record, slack: Bytes)
    requires FieldsFit(r)
    ensures ParseNames(r.rtype, r.txID, NameBytes(r) + slack) == Got(r, slack)
  {
    var b1 := IDBytes(r) + slack;
    assert NameBytes(r) + slack == PutUint(|r.table|, 2) + (r.table + b1);
    TakePut16(|r.table|, r.table + b1);
    TakePrefix(r.table, b1);
    ParseIDPrinted(r, slack);
  }

  lemma ParsePrinted(r: Record, slack: Bytes)
    requires FieldsFit(r)
    ensures ParseBody(Body(r) + slack) == Got(r, slack)
  {
    var b1 := PutUint(r.txID, 8) + (NameBytes(r) + slack);
    assert Body(r) + slack == [r.rtype] + b1;
    assert (Body(r) + slack)[1..] == b1;
    TakePut64(r.txID, NameBytes(r) + slack);
    ParseNamesPrinted(r, slack);
  }

  lemma ParseTailIs(rtype: Byte, txID: Word64, table: Bytes, id: Bytes, b: Bytes)
    requires ParseTail(rtype, txID, table, id, b).Got?
    ensures var p := ParseTail(rtype, txID, table, id, b);
            && p.value.rtype == rtype && p.value.txID == txID && p.value.table == table && p.value.id == id
            && |p.value.payload| < 0x1_0000_0000
            && b == TailBytes(p.value) + p.rest
  {
    var ts := TakeU64(b);
    var plen := TakeU32(ts.rest);
    var payload := TakeBytes(plen.rest, plen.value);
    var r := ParseTail(rtype, txID, table, id, b).value;
    Take64Is(b);
    Take32Is(ts.rest);
    assert ToUnsigned(r.timestamp) == ts.value;
    TakeBytesIs(plen.rest, plen.value);
    Regroup(PutUint(ts.value, 8), PutUint(plen.value, 4), r.payload, payload.rest);
  }

  lemma ParseIDIs(rtype: Byte, txID: Word64, table: Bytes, b: Bytes)
    requires ParseID(rtype, txID, table, b).Got?
    ensures var p := ParseID(rtype, txID, table, b);
            && p.value.rtype == rtype && p.value.txID == txID && p.value.table == table
            && |p.value.id| < 0x1_0000 && |p.value.payload| < 0x1_0000_0000
            && b == IDBytes(p.value) + p.rest
  {
    var ilen := TakeU16(b);
    var id := TakeBytes(ilen.rest, ilen.value);
    var p := ParseTail(rtype, txID, table, id.value, id.rest);
    Take16Is(b);
    TakeBytesIs(ilen.rest, ilen.value);
    ParseTailIs(rtype, txID, table, id.value, id.rest);
    Regroup(PutUint(ilen.value, 2), id.value, TailBytes(p.value), p.rest);
  }

  lemma ParseNamesIs(rtype: Byte, txID: Word64, b: Bytes)
    requires ParseNames(rtype, txID, b).Got?
    ensures var p := ParseNames(rtype, txID, b);
            && p.value.rtype == rtype && p.value.txID == txID && FieldsFit(p.value)
            && b == NameBytes(p.value) + p.rest
  {
    var tlen := TakeU16(b);
    var table := TakeBytes(tlen.rest, tlen.value);
    var p := ParseID(rtype, txID, table.value, table.rest);
    Take16Is(b);
    TakeBytesIs(tlen.rest, tlen.value);
    ParseIDIs(rtype, txID, table.value, table.rest);
    Regroup(PutUint(tlen.value, 2), table.value, IDBytes(p.value), p.rest);
  }

  lemma ParseIs(b: Bytes)
    requires ParseBody(b).Got?
    ensures var p := ParseBody(b); FieldsFit(p.value) && b == Body(p.value) + p.rest
  {
    var tx := TakeU64(b[1..]);
    Take64Is(b[1..]);
    ParseNamesIs(b[0], tx.value, tx.rest);
    var p := ParseNames(b[0], tx.value, tx.rest);
    BodyIs(p.value, b, p.rest);
  }

  lemma BodyIs(r: Record, b: Bytes, rest: Bytes)
    requires b != [] && b[0] == r.rtype && b[1..] == PutUint(r.txID, 8) + (NameBytes(r) + rest)
    ensures b == Body(r) + rest
  {
    var word, names := PutUint(r.txID, 8), NameBytes(r);
    assert b == [r.rtype] + b[1..];
    Regroup([r.rtype], word, names, rest);
  }

  /** The byte strings that carry r in front: its frame around its body and some slack. */
  ghost predicate Carries(crc: Checksum, data: Bytes, r: Record, slack: Bytes) {
    && FieldsFit(r)
    && 4 + |Body(r) + slack| < 0x1_0000_0000
    && Frame(crc, Body(r) + slack) <= data
  }

  lemma DecodeFrame(crc: Checksum, body: Bytes, rest: Bytes)
    requires 4 + |body| < 0x1_0000_0000
    ensures Decode(crc, Frame(crc, body) + rest)
            == match ParseBody(body) case Short => Corrupt case Got(r, _) => Ok(r, 8 + |body|)
  {
    Widths();
    var data := Frame(crc, body) + rest;
    assert data[..4] == PutUint(4 + |body|, 4);
    assert data[4..8] == PutUint(crc(body), 4);
    assert data[8..8 + |body|] == body;
    ReadBack(4 + |body|, 4);
    ReadBack(crc(body), 4);
  }

  lemma HeaderIs(data: Bytes, full: nat)
    requires 8 <= full <= |data|
    ensures data[..full] == PutUint(Uint(data[..4]), 4) + PutUint(Uint(data[4..8]), 4) + data[8..full]
  {
    PutOfUint(data[..4]);
    PutOfUint(data[4..8]);
    assert data[..full] == data[..4] + data[4..8] + data[8..full];
  }

  lemma DecodeIsFrame(crc: Checksum, data: Bytes)
    requires Decode(crc, data).Ok?
    ensures var d := Decode(crc, data);
            && 8 <= d.size <= |data| && d.size < 0x1_0000_0004
            && data[..d.size] == Frame(crc, data[8..d.size])
            && ParseBody(data[8..d.size]).Got? && ParseBody(data[8..d.size]).value == d.rec
  {
    Widths();
    UintBound(data[..4]);
    HeaderIs(data, Decode(crc, data).size);
  }

  lemma DecodeCarries(crc: Checksum, data: Bytes) returns (slack: Bytes)
    requires Decode(crc, data).Ok?
    ensures var d := Decode(crc, data);
            Carries(crc, data, d.rec, slack) && d.size == RecordSize(d.rec) + |slack|
  {
    var d := Decode(crc, data);
    DecodeIsFrame(crc, data);
    ParseIs(data[8..d.size]);
    slack := ParseBody(data[8..d.size]).rest;
    assert data[8..d.size] == Body(d.rec) + slack;
  }

  lemma CarriedDecodes(crc: Checksum, data: Bytes, r: Record, slack: Bytes)
    requires Carries(crc, data, r, slack)
    ensures Decode(crc, data) == Ok(r, RecordSize(r) + |slack|)
  {
    var body := Body(r) + slack;
    var frame := Frame(crc, body);
    assert data == frame + data[|frame|..];
    DecodeFrame(crc, body, data[|frame|..]);
    ParsePrinted(r, slack);
  }

  /**
   * Decoding succeeds with a record and a size exactly on the data that starts
   * with a frame of that size around the record's own bytes.
   */
  lemma DecodeIff(crc: Checksum, data: Bytes, r: Record, n: nat)
    ensures Decode(crc, data) == Ok(r, n)
            <==> exists slack :: Carries(crc, data, r, slack) && n == RecordSize(r) + |slack|
  {
    if Decode(crc, data) == Ok(r, n) {
      var slack := DecodeCarries(crc, data);
    }
    if slack :| Carries(crc, data, r, slack) && n == RecordSize(r) + |slack| {
      CarriedDecodes(crc, data, r, slack);
    }
  }

  lemma SlackIs(crc: Checksum, data: Bytes, r: Record, slack: Bytes)
    requires Carries(crc, data, r, slack)
    ensures RecordSize(r) + |slack| <= |data|
    ensures slack == data[RecordSize(r)..RecordSize(r) + |slack|]
  {
    var body, frame := Body(r), Frame(crc, Body(r) + slack);
    assert frame[8..] == body + slack;
    assert slack == frame[8..][|body|..];
  }

  /** One front, one record: no data can be read in two ways. */
  lemma CarriedOnce(crc: Checksum, data: Bytes, r: Record, slack: Bytes, r': Record, slack': Bytes)
    requires Carries(crc, data, r, slack) && Carries(crc, data, r', slack')
    ensures r == r' && slack == slack'
  {
    CarriedDecodes(crc, data, r, slack);
    CarriedDecodes(crc, data, r', slack');
    SlackIs(crc, data, r, slack);
    SlackIs(crc, data, r', slack');
  }

  /**
   * The round trip: what was encoded decodes to itself and its own size, whatever
   * follows it, exactly when its lengths fit their words.
   */
  lemma RoundTrip(crc: Checksum, r: Record, rest: Bytes)
    ensures Decode(crc, Encode(crc, r) + rest) == Ok(r, RecordSize(r)) <==> Fits(r)
  {
    var data := Encode(crc, r) + rest;
    var n := RecordSize(r);
    if Fits(r) {
      assert Body(r) + [] == Body(r);
      assert Carries(crc, data, r, []);
      DecodeIff(crc, data, r, n);
    }
    if Decode(crc, data) == Ok(r, n) {
      DecodeIff(crc, data, r, n);
      var slack :| Carries(crc, data, r, slack) && n == RecordSize(r) + |slack|;
      assert slack == [];
    }
  }

  /** The decoder panics exactly when the length word is there and is below 4. */
  lemma PanicIff(crc: Checksum, data: Bytes)
    ensures Decode(crc, data).Panic? <==> |data| >= 8 && Uint(data[..4]) < 4
  {
  }

  /** A record cut short is reported corrupt, never misread and never a panic. */
  lemma CutIsCorrupt(crc: Checksum, r: Record, n: nat)
    requires Fits(r) && n < RecordSize(r)
    ensures Decode(crc, Encode(crc, r)[..n]).Corrupt?
  {
    var data := Encode(crc, r)[..n];
    if n >= 8 {
      Widths();
      assert data[..4] == PutUint(4 + |Body(r)|, 4);
      ReadBack(4 + |Body(r)|, 4);
    }
  }

  // ----- the buffer code

  /** Writes src at off and moves off behind it; done is what already stands behind the header. */
  method CopyTo(buf: array<Byte>, off: nat, src: Bytes, ghost done: Bytes)
    returns (off': nat, ghost done': Bytes)
    requires 8 <= off && off + |src| <= buf.Length && buf[8..off] == done
    modifies buf
    ensures off' == off + |src| && done' == done + src
    ensures buf[8..off'] == done'
  {
    ghost var was := buf[..];
    forall i | 0 <= i < |src| {
      buf[off + i] := src[i];
    }
    off', done' := off + |src|, done + src;
    assert buf[8..off] == was[8..off];
    assert buf[off..off'] == src;
    assert buf[8..off'] == buf[8..off] + buf[off..off'];
  }

  /** The little-endian word of n bytes at off; in the header it leaves the rest alone. */
  method PutAt(buf: array<Byte>, off: nat, v: nat, n: nat)
    requires off + n <= 8 <= buf.Length
    modifies buf
    ensures buf[off..off + n] == PutUint(v, n)
    ensures buf[..off] == old(buf[..off]) && buf[8..] == old(buf[8..])
  {
    var src := PutUint(v, n);
    forall i | 0 <= i < n {
      buf[off + i] := src[i];
    }
  }

  /** The fields in order behind the header. */
  method EncodeFields(buf: array<Byte>, r: Record)
    requires buf.Length == RecordSize(r)
    modifies buf
    ensures buf[8..] == Body(r)
  {
    hide PutUint, Body;
    ghost var done;
    var off := 8;
    off, done := CopyTo(buf, off, [r.rtype], []);
    off, done := CopyTo(buf, off, PutUint(r.txID, 8), done);
    off, done := CopyText(buf, off, r.table, 2, done);
    off, done := CopyText(buf, off, r.id, 2, done);
    off, done := CopyTo(buf, off, PutUint(ToUnsigned(r.timestamp), 8), done);
    off, done := CopyText(buf, off, r.payload, 4, done);
    FieldsAreBody(r, done);
    assert buf[8..] == buf[8..off];
  }

  /** A field behind its length word of n bytes. */
  method CopyText(buf: array<Byte>, off: nat, src: Bytes, n: nat, ghost done: Bytes)
    returns (off': nat, ghost done': Bytes)
    requires 8 <= off && off + n + |src| <= buf.Length && buf[8..off] == done
    modifies buf
    ensures off' == off + n + |src| && done' == done + PutUint(|src|, n) + src
    ensures buf[8..off'] == done'
  {
    off', done' := CopyTo(buf, off, PutUint(|src|, n), done);
    off', done' := CopyTo(buf, off', src, done');
  }

  lemma FieldsAreBody(r: Record, done: Bytes)
    requires done == [] + [r.rtype] + PutUint(r.txID, 8) + PutUint(|r.table|, 2) + r.table
                     + PutUint(|r.id|, 2) + r.id
                     + PutUint(ToUnsigned(r.timestamp), 8) + PutUint(|r.payload|, 4) + r.payload
    ensures done == Body(r)
  {
    var start := [] + [r.rtype] + PutUint(r.txID, 8);
    var named := start + PutUint(|r.table|, 2) + r.table;
    var known := named + PutUint(|r.id|, 2) + r.id;
    Group(known, PutUint(ToUnsigned(r.timestamp), 8), PutUint(|r.payload|, 4), r.payload);
    Group(named, PutUint(|r.id|, 2), r.id, TailBytes(r));
    Group(start, PutUint(|r.table|, 2), r.table, IDBytes(r));
    Group([], [r.rtype], PutUint(r.txID, 8), NameBytes(r));
  }

  lemma Group<T>(x: seq<T>, a: seq<T>, b: seq<T>, c: seq<T>)
    ensures x + a + b + c == x + (a + (b + c))
    ensures x == [] ==> x + a + b + c == a + (b + c)
  {
  }

  /** Fills a buffer with the fields and then its header. */
  method EncodeRecord(crc: Checksum, r: Record) returns (data: Bytes)
    ensures data == Encode(crc, r)
  {
    var innerSize := 1 + 8 + 2 + |r.table| + 2 + |r.id| + 8 + 4 + |r.payload|;
    var buf := new Byte[8 + innerSize](_ => 0);
    EncodeFields(buf, r);
    PutAt(buf, 0, 4 + innerSize, 4);
    PutAt(buf, 4, crc(buf[8..]), 4);
    assert buf[0..4] == buf[..4];
    assert buf[..] == buf[..4] + buf[4..8] + buf[8..];
    return buf[..];
  }

  /** Walks the record with an advancing offset, checking every bound before it reads. */
  method DecodeRecord(crc: Checksum, data: Bytes) returns (d: Decoded)
    ensures d == Decode(crc, data)
  {
    if |data| < 8 {
      return Corrupt;
    }
    var totalSize := Uint(data[0..4]);
    assert data[0..4] == data[..4];
    var full := 4 + totalSize;
    if |data| < full {
      return Corrupt;
    }
    if full < 8 {
      return Panic;
    }
    var sum := Uint(data[4..8]);
    if crc(data[8..full]) != sum {
      return Corrupt;
    }
    var p := DecodeFields(data, full);
    d := if p.Short? then Corrupt else Ok(p.value, full);
  }

  method DecodeFields(data: Bytes, full: nat) returns (p: Parsed<Record>)
    requires 8 <= full <= |data|
    ensures p == ParseBody(data[8..full])
  {
    var off := 8;
    if full <= off {
      return Short;
    }
    var rtype := data[off];
    assert data[off..full][1..] == data[off + 1..full];
    off := off + 1;
    var ok, off1, txID := ReadU64(data, off, full);
    if !ok {
      return Short;
    }
    p := DecodeNames(data, off1, full, rtype, txID);
  }

  method DecodeNames(data: Bytes, start: nat, full: nat, rtype: Byte, txID: Word64) returns (p: Parsed<Record>)
    requires start <= full <= |data|
    ensures p == ParseNames(rtype, txID, data[start..full])
  {
    var ok, off, table := ReadBlock(data, start, full);
    if !ok {
      return Short;
    }
    var id;
    ok, off, id := ReadBlock(data, off, full);
    if !ok {
      return Short;
    }
    p := DecodeTail(data, off, full, rtype, txID, table, id);
  }

  method DecodeTail(data: Bytes, start: nat, full: nat, rtype: Byte, txID: Word64, table: Bytes, id: Bytes)
    returns (p: Parsed<Record>)
    requires start <= full <= |data|
    ensures p == ParseTail(rtype, txID, table, id, data[start..full])
  {
    if start + 8 + 4 > full {
      return Short;
    }
    var ok, off, ts := ReadU64(data, start, full);
    var plen := Uint(data[off..off + 4]);
    assert data[off..full][..4] == data[off..off + 4];
    assert data[off..full][4..] == data[off + 4..full];
    off := off + 4;
    if off + plen > full {
      return Short;
    }
    assert data[off..full][..plen] == data[off..off + plen];
    assert data[off..full][plen..] == data[off + plen..full];
    p := Got(Record(rtype, txID, table, id, ToSigned(ts), data[off..off + plen]), data[off + plen..full]);
  }

  method ReadU64(data: Bytes, off: nat, full: nat) returns (ok: bool, off': nat, v: Word64)
    requires off <= full <= |data|
    ensures ok <==> TakeU64(data[off..full]).Got?
    ensures ok ==> off' == off + 8 <= full && TakeU64(data[off..full]) == Got(v, data[off'..full])
  {
    if off + 8 > full {
      return false, off, 0;
    }
    assert data[off..full][..8] == data[off..off + 8];
    assert data[off..full][8..] == data[off + 8..full];
    assert TakeU64(data[off..full]).Got?;
    v := TakeU64(data[off..full]).value;
    return true, off + 8, v;
  }

  /** A two-byte length and the bytes it counts. */
  method ReadBlock(data: Bytes, off: nat, full: nat) returns (ok: bool, off': nat, block: Bytes)
    requires off <= full <= |data|
    ensures var l := TakeU16(data[off..full]);
            && (ok <==> l.Got? && TakeBytes(l.rest, l.value).Got?)
            && (ok ==> off <= off' <= full && TakeBytes(l.rest, l.value) == Got(block, data[off'..full]))
  {
    if off + 2 > full {
      return false, off, [];
    }
    var n := Uint(data[off..off + 2]);
    assert data[off..full][..2] == data[off..off + 2];
    assert data[off..full][2..] == data[off + 2..full];
    var start := off + 2;
    if start + n > full {
      return false, off, [];
    }
    assert data[start..full][..n] == data[start..start + n];
    assert data[start..full][n..] == data[start + n..full];
    return true, start + n, data[start..start + n];
  }
}
