/** That the laws asked of payloads can be met: one way of writing contents as bytes. */
module Payload {
  import opened ByteOrder
  import Codec
  import opened Collections
  import opened Index
  import opened Engine

  function CharOf(n: nat): char {
    if n < 0xD800 || 0xE000 <= n < 0x11_0000 then n as char else 'x'
  }

  function WriteString(s: string): Bytes {
    if s == "" then [0] else [1] + PutUint(s[0] as int, 4) + WriteString(s[1..])
  }

  /** The string at the front and what stands behind it. */
  function ReadString(b: Bytes): (string, Bytes) {
    if |b| < 5 || b[0] == 0 then ("", b[if b == [] then 0 else 1..]) else
    var (s, rest) := ReadString(b[5..]);
    ([CharOf(Uint(b[1..5]))] + s, rest)
  }

  lemma {:induction false} StringReadsBack(s: string, rest: Bytes)
    ensures ReadString(WriteString(s) + rest) == (s, rest)
  {
    var b := WriteString(s) + rest;
    if s == "" {
      assert b[1..] == rest;
    } else {
      var front := PutUint(s[0] as int, 4);
      assert b == [1] + front + (WriteString(s[1..]) + rest);
      assert b[1..5] == front && b[5..] == WriteString(s[1..]) + rest;
      ReadBack(s[0] as int, 4);
      Widths();
      StringReadsBack(s[1..], rest);
      assert b[0] == 1 && |b| >= 5 && CharOf(s[0] as int) == s[0] && [s[0]] + s[1..] == s;
    }
  }

  /** The fields of a document one by one, in some order. */
  ghost function WriteData(d: Data): Bytes
    decreases |d|
  {
    if d == map[] then [0] else
    var k :| k in d;
    Fewer(d, k);
    [1] + WriteString(k) + WriteString(d[k]) + WriteData(d - {k})
  }

  lemma Fewer(d: Data, k: string)
    requires k in d
    ensures |d - {k}| < |d| && (d - {k})[k := d[k]] == d
  {
    assert (d - {k}).Keys == d.Keys - {k};
    assert |(d - {k}).Keys| == |d - {k}| && |d.Keys| == |d|;
  }

  function ReadData(b: Bytes, most: nat): Data
    decreases most
  {
    if most == 0 || b == [] || b[0] == 0 then map[] else
    var (k, rest) := ReadString(b[1..]);
    var (v, more) := ReadString(rest);
    ReadData(more, most - 1)[k := v]
  }

  lemma {:induction false} DataReadsBack(d: Data, most: nat)
    requires |d| <= most
    ensures ReadData(WriteData(d), most) == d
    decreases |d|
  {
    hide WriteString;
    if d != map[] {
      var k :| k in d && WriteData(d) == [1] + WriteString(k) + WriteString(d[k]) + WriteData(d - {k});
      Fewer(d, k);
      DataReadsBack(d - {k}, most - 1);
      OneFieldReadsBack(k, d[k], WriteData(d - {k}), WriteData(d), most);
    }
  }

  lemma OneFieldReadsBack(k: string, v: string, rest: Bytes, b: Bytes, most: nat)
    requires most > 0 && b == [1] + WriteString(k) + WriteString(v) + rest
    ensures ReadData(b, most) == ReadData(rest, most - 1)[k := v]
  {
    hide WriteString, ReadString;
    assert b[1..] == WriteString(k) + (WriteString(v) + rest);
    StringReadsBack(k, WriteString(v) + rest);
    StringReadsBack(v, rest);
  }

  lemma {:induction false} LongEnough(d: Data)
    ensures |d| <= |WriteData(d)|
    decreases |d|
  {
    hide WriteString;
    if d != map[] {
      var k :| k in d && WriteData(d) == [1] + WriteString(k) + WriteString(d[k]) + WriteData(d - {k});
      Fewer(d, k);
      LongEnough(d - {k});
      assert (d - {k}).Keys == d.Keys - {k};
      assert |d| == |d - {k}| + 1;
    }
  }

  ghost function Marshal(c: Content): Bytes {
    PutUint(ToUnsigned(c.createdAt), 8) + PutUint(ToUnsigned(c.updatedAt), 8) + WriteData(c.data)
  }

  function Unmarshal(b: Bytes): Option<Content> {
    if |b| < 16 then None else
    UintBound(b[..8]);
    UintBound(b[8..16]);
    Widths();
    Some(Content(ToSigned(Uint(b[..8])), ToSigned(Uint(b[8..16])), ReadData(b[16..], |b|)))
  }

  lemma ContentReadsBack(c: Content)
    ensures |Marshal(c)| > 0 && Unmarshal(Marshal(c)) == Some(c)
  {
    var b := Marshal(c);
    assert b[..8] == PutUint(ToUnsigned(c.createdAt), 8) && b[8..16] == PutUint(ToUnsigned(c.updatedAt), 8);
    assert b[16..] == WriteData(c.data);
    ReadBack(ToUnsigned(c.createdAt), 8);
    ReadBack(ToUnsigned(c.updatedAt), 8);
    Widths();
    LongEnough(c.data);
    DataReadsBack(c.data, |b|);
  }

  /** For every checksum and every tokenizer there is a format that meets the laws. */
  lemma LawfulFormat(crc: Codec.Checksum, tokenize: string -> seq<string>) returns (f: Format)
    ensures f.Lawful() && f.crc == crc && f.tokenize == tokenize
  {
    f := Format(crc, c => Marshal(c), b => Unmarshal(b), tokenize);
    forall c: Content ensures |f.marshal(c)| > 0 && f.unmarshal(f.marshal(c)) == Some(c) {
      ContentReadsBack(c);
    }
  }
}
