/** The sharded in-memory cache: entries with deadlines, dropped in batches and by a sweeper. */
module Cache {
  import opened ByteOrder
  import opened Collections

  const SHARDS := 256
  const CLEANUP_EVERY := 128
  const CLEANUP_BATCH := 64

  /** 64-bit signed addition. */
  function Wrap(x: int): (r: Int64)
    ensures -0x8000_0000_0000_0000 <= x < 0x8000_0000_0000_0000 ==> r == x
    ensures (r - x) % 0x1_0000_0000_0000_0000 == 0
  {
    (x + 0x8000_0000_0000_0000) % 0x1_0000_0000_0000_0000 - 0x8000_0000_0000_0000
  }

  /** A deadline of 0 is none. */
  datatype Entry<V> = Entry(val: V, expiresAt: int)

  function Deadline(now: int, ttl: int): int {
    if ttl <= 0 then 0 else Wrap(now + ttl)
  }

  predicate Expired<V>(e: Entry<V>, now: int) {
    e.expiresAt != 0 && now >= e.expiresAt
  }

  datatype Shard<V> = Shard(entriesByKey: map<string, Entry<V>>, writes: nat)

  /** What a map that never drops anything answers. */
  function Lookup<V>(full: map<string, Entry<V>>, key: string, now: int): Option<V> {
    if key != "" && key in full && !Expired(full[key], now) then Some(full[key].val) else None
  }

  /** What is written is read back until its time is over; with a time of zero or less, for ever. */
  lemma WrittenThenRead<V>(full: map<string, Entry<V>>, key: string, val: V, ttl: int, now: int, later: int)
    requires key != "" && 0 < now <= later && now + ttl < 0x8000_0000_0000_0000
    ensures Lookup(full[key := Entry(val, Deadline(now, ttl))], key, later)
            == if ttl <= 0 || later < now + ttl then Some(val) else None
    ensures forall k | k != key ::
              Lookup(full[key := Entry(val, Deadline(now, ttl))], k, later) == Lookup(full, k, later)
  {
  }

  /** Every entry left in a shard is the one last written, and only expired ones are gone. */
  ghost predicate Agrees<V>(entries: map<string, Entry<V>>, full: map<string, Entry<V>>,
                            now: int, hash: string -> nat, i: nat) {
    && (forall k | k in entries :: hash(k) % SHARDS == i && k in full && entries[k] == full[k])
    && (forall k | k in full && hash(k) % SHARDS == i && !Expired(full[k], now) :: k in entries)
  }

  lemma LaterAgrees<V>(entries: map<string, Entry<V>>, full: map<string, Entry<V>>, now: int, later: int,
                       hash: string -> nat, i: nat)
    requires Agrees(entries, full, now, hash, i) && now <= later
    ensures Agrees(entries, full, later, hash, i)
  {
  }

  lemma PutAgrees<V>(entries: map<string, Entry<V>>, full: map<string, Entry<V>>, now: int, hash: string -> nat, i: nat,
                     key: string, e: Entry<V>)
    requires Agrees(entries, full, now, hash, i)
    ensures Agrees(if hash(key) % SHARDS == i then entries[key := e] else entries, full[key := e], now, hash, i)
  {
  }

  lemma DropAgrees<V>(entries: map<string, Entry<V>>, rest: map<string, Entry<V>>, full: map<string, Entry<V>>,
                      now: int, hash: string -> nat, i: nat)
    requires Agrees(entries, full, now, hash, i)
    requires forall k :: k in rest ==> k in entries && rest[k] == entries[k]
    requires forall k | k in entries && !Expired(entries[k], now) :: k in rest
    ensures Agrees(rest, full, now, hash, i)
  {
  }

  /** Of a batch of entries, as many as there are or the limit asks for, the expired ones are gone. */
  ghost predicate Evicted<V>(entries: map<string, Entry<V>>, rest: map<string, Entry<V>>, now: int, limit: nat) {
    exists batch :: Batch(entries, batch, limit) && rest == Without(entries, batch, now)
  }

  ghost predicate Batch<V>(entries: map<string, Entry<V>>, batch: set<string>, limit: nat) {
    batch <= entries.Keys && |batch| == if |entries| < limit then |entries| else limit
  }

  ghost function Without<V>(entries: map<string, Entry<V>>, batch: set<string>, now: int): map<string, Entry<V>> {
    map k | k in entries && !(k in batch && Expired(entries[k], now)) :: entries[k]
  }

  /** Looks through the first limit entries, in whatever order the map gives them. */
  method Evict<V>(entries: map<string, Entry<V>>, now: int, limit: nat) returns (rest: map<string, Entry<V>>)
    requires limit > 0
    ensures Evicted(entries, rest, now, limit)
    ensures forall k :: k in rest ==> k in entries && rest[k] == entries[k]
    ensures forall k | k in entries && !Expired(entries[k], now) :: k in rest
  {
    hide Distinct, Elements, Expired;
    var keys := List(entries.Keys);
    rest := entries;
    var n := 0;
    NoElements(keys);
    for i := 0 to |keys|
      invariant n == i < limit && |Elements(keys[..i])| == i && Elements(keys[..i]) <= entries.Keys
      invariant rest == Without(entries, Elements(keys[..i]), now)
    {
      OneElementMore(keys, i);
      ElementIn(keys, i);
      if Expired(entries[keys[i]], now) {
        rest := rest - {keys[i]};
      }
      n := n + 1;
      if n >= limit {
        assert Batch(entries, Elements(keys[..i + 1]), limit) by {
          SubsetSize(Elements(keys[..i + 1]), entries.Keys);
        }
        return;
      }
    }
    assert Batch(entries, Elements(keys), limit);
  }

  /** Drops every expired entry. */
  method Sweep<V>(entries: map<string, Entry<V>>, now: int) returns (rest: map<string, Entry<V>>)
    ensures rest == map k | k in entries && !Expired(entries[k], now) :: entries[k]
  {
    var keys := List(entries.Keys);
    rest := entries;
    for i := 0 to |keys|
      invariant rest == map k | k in entries && (k in keys[..i] ==> !Expired(entries[k], now)) :: entries[k]
    {
      assert keys[i] in Elements(keys);
      assert keys[..i + 1] == keys[..i] + [keys[i]];
      if Expired(entries[keys[i]], now) {
        rest := rest - {keys[i]};
      }
    }
    assert keys[..|keys|] == keys;
    assert forall k | k in entries :: k in Elements(keys);
  }

  class MemoryCache<V(0)> {
    const hash: string -> nat
    const shards: array<Shard<V>>
    /** What was written and not deleted, whether or not it has expired or been dropped. */
    ghost var full: map<string, Entry<V>>
    /** The latest reading of the clock. */
    ghost var clock: int

    function ShardOf(key: string): nat {
      hash(key) % SHARDS
    }

    ghost predicate Valid()
      reads this, shards
    {
      && shards.Length == SHARDS
      && forall i | 0 <= i < SHARDS :: Agrees(shards[i].entriesByKey, full, clock, hash, i)
    }

    constructor (hash: string -> nat)
      ensures Valid() && full == map[] && fresh(shards) && this.hash == hash && clock == 0
    {
      this.hash := hash;
      shards := new Shard<V>[SHARDS](_ => Shard(map[], 0));
      full, clock := map[], 0;
    }

    /** Answers as the map that never drops anything. */
    method Get(key: string, now: int) returns (r: Option<V>)
      requires Valid() && clock <= now
      modifies `clock
      ensures Valid() && clock == now && r == Lookup(full, key, now)
    {
      clock := now;
      if key == "" {
        return None;
      }
      var entries := shards[ShardOf(key)].entriesByKey;
      if key !in entries || Expired(entries[key], now) {
        return None;
      }
      return Some(entries[key].val);
    }

    /** Every so many writes to a shard, a batch of it is looked through for expired entries. */
    method Write(i: nat, key: string, val: V, ttl: int, now: int)
      requires Valid() && clock <= now && i == ShardOf(key)
      modifies `clock, `full, shards
      ensures Valid() && clock == now && full == old(full)[key := Entry(val, Deadline(now, ttl))]
      ensures var was, entries := old(shards[i]), old(shards[i].entriesByKey)[key := Entry(val, Deadline(now, ttl))];
              if was.writes + 1 < CLEANUP_EVERY then shards[i] == Shard(entries, was.writes + 1)
              else shards[i].writes == 0 && Evicted(entries, shards[i].entriesByKey, now, CLEANUP_BATCH)
    {
      hide Agrees, Deadline, Expired, Evicted;
      var e := Entry(val, Deadline(now, ttl));
      forall j | 0 <= j < SHARDS
        ensures Agrees(if ShardOf(key) == j then shards[j].entriesByKey[key := e] else shards[j].entriesByKey,
                       full[key := e], now, hash, j)
      {
        LaterAgrees(shards[j].entriesByKey, full, clock, now, hash, j);
        PutAgrees(shards[j].entriesByKey, full, now, hash, j, key, e);
      }
      var entries := shards[i].entriesByKey[key := e];
      var writes := shards[i].writes + 1;
      if writes >= CLEANUP_EVERY {
        writes := 0;
        var rest := Evict(entries, now, CLEANUP_BATCH);
        DropAgrees(entries, rest, full[key := e], now, hash, i);
        entries := rest;
      }
      shards[i] := Shard(entries, writes);
      full := full[key := e];
      clock := now;
    }

    method Set(key: string, val: V, ttl: int, now: int) returns (ok: bool)
      requires Valid() && clock <= now
      modifies `clock, `full, shards
      ensures Valid() && clock == now && ok == (key != "")
      ensures full == if ok then old(full)[key := Entry(val, Deadline(now, ttl))] else old(full)
    {
      if key == "" {
        clock := now;
        return false;
      }
      Write(ShardOf(key), key, val, ttl, now);
      return true;
    }

    /** Writes only where nothing unexpired stands, as seen by the map that never drops anything. */
    method SetNX(key: string, val: V, ttl: int, now: int) returns (stored: bool)
      requires Valid() && clock <= now
      modifies `clock, `full, shards
      ensures Valid() && clock == now
      ensures stored <==> key != "" && Lookup(old(full), key, now).None?
      ensures full == if stored then old(full)[key := Entry(val, Deadline(now, ttl))] else old(full)
    {
      if key == "" {
        clock := now;
        return false;
      }
      var entries := shards[ShardOf(key)].entriesByKey;
      if key in entries && !Expired(entries[key], now) {
        clock := now;
        return false;
      }
      Write(ShardOf(key), key, val, ttl, now);
      return true;
    }

    method Delete(key: string) returns (ok: bool)
      requires Valid()
      modifies `full, shards
      ensures Valid() && ok == (key != "") && full == if ok then old(full) - {key} else old(full)
    {
      if key == "" {
        return false;
      }
      var i := ShardOf(key);
      shards[i] := shards[i].(entriesByKey := shards[i].entriesByKey - {key});
      full := full - {key};
      return true;
    }

    /** The sweeper's step drops from the shard and leaves every answer as it was. */
    method SweepShard(i: nat, now: int)
      requires Valid() && clock <= now && i < SHARDS
      modifies `clock, shards
      ensures Valid() && clock == now && full == old(full)
    {
      var rest := Sweep(shards[i].entriesByKey, now);
      shards[i] := shards[i].(entriesByKey := rest);
      clock := now;
    }

    /** How long an entry has left; none when it has no deadline. */
    method TTL(key: string, now: int) returns (left: Option<Option<int>>)
      requires Valid() && clock <= now
      modifies `clock
      ensures Valid() && clock == now
      ensures left.None? <==> Lookup(full, key, now).None?
      ensures left.Some? ==> left.value == if full[key].expiresAt == 0 then None else Some(full[key].expiresAt - now)
      ensures left.Some? && left.value.Some? ==> left.value.value > 0
    {
      clock := now;
      if key == "" {
        return None;
      }
      var entries := shards[ShardOf(key)].entriesByKey;
      if key !in entries || Expired(entries[key], now) {
        return None;
      }
      if entries[key].expiresAt == 0 {
        return Some(None);
      }
      return Some(Some(entries[key].expiresAt - now));
    }
  }

  /** A value set is what a lookup gives until its time is over, and TTL tells how far that is. */
  method SetThenGet<V(0)>(c: MemoryCache<V>, key: string, val: V, ttl: int, now: int, later: int)
    returns (r: Option<V>, left: Option<Option<int>>)
    requires c.Valid() && c.clock <= now && 0 < now <= later && now + ttl < 0x8000_0000_0000_0000
    modifies c, c.shards
    ensures c.Valid() && r == if key != "" && (ttl <= 0 || later < now + ttl) then Some(val) else None
    ensures left == if r.None? then None else Some(if ttl <= 0 then None else Some(now + ttl - later))
  {
    hide MemoryCache.Valid;
    var ok := c.Set(key, val, ttl, now);
    if ok {
      WrittenThenRead(c.full[key := Entry(val, Deadline(now, ttl))], key, val, ttl, now, later);
      assert c.full[key := c.full[key]] == c.full;
    }
    r := c.Get(key, later);
    left := c.TTL(key, later);
  }
}
