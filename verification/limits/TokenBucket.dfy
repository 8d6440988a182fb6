/** The token-bucket throttler, over exact reals. */
module TokenBucket {
  import opened Collections
  import opened Cache
  import F = FixedWindow

  /** Tokens left, and when they were last topped up. */
  datatype Bucket = Bucket(tokens: real, last: nat)

  type Map = map<string, Entry<Bucket>>

  function CacheKey(key: string): (k: string)
    ensures k != ""
  {
    "rl:tb:" + key
  }

  /** Tokens gained per nanosecond. */
  function Rate(g: F.Guard): real
    requires g.ttl > 0
  {
    g.limit as real / g.ttl as real
  }

  function Min(a: real, b: real): real {
    if a < b then a else b
  }

  /** What a request finds: the bucket topped up to its reading of the clock, or a full one. */
  function Found(g: F.Guard, b: Option<Bucket>, now: nat): real
    requires g.ttl > 0
  {
    match b
    case Some(b) => Min(g.limit as real, b.tokens + (now - b.last) as real * Rate(g))
    case None => g.limit as real
  }

  /** How long a refused request is told to wait, rounded down to a nanosecond. */
  function Wait(g: F.Guard, tokens: real): int
    requires g.limit > 0 && g.ttl > 0
  {
    RatePositive(g);
    ((1.0 - tokens) / Rate(g)).Floor
  }

  lemma RatePositive(g: F.Guard)
    requires g.limit > 0 && g.ttl > 0
    ensures Rate(g) > 0.0 && g.ttl as real * Rate(g) == g.limit as real
  {
  }

  /** A wait that comes to whole nanoseconds. */
  predicate Exact(g: F.Guard, tokens: real)
    requires g.limit > 0 && g.ttl > 0
  {
    Wait(g, tokens) as real * Rate(g) == 1.0 - tokens
  }

  /** Any sooner and the bucket has no token yet; after the wait, and at its end if it is exact, it has. */
  lemma WaitIsTight(g: F.Guard, b: Bucket, later: nat)
    requires g.limit > 0 && g.ttl > 0 && b.tokens < 1.0 && b.last <= later
    ensures var end := b.last + Wait(g, b.tokens);
            Found(g, Some(b), later) >= 1.0 <==> later > end || (later == end && Exact(g, b.tokens))
  {
    hide Rate;
    RatePositive(g);
    var r, x := Rate(g), (1.0 - b.tokens) / Rate(g);
    var t := (later - b.last) as real;
    assert x * r == 1.0 - b.tokens;
    assert t * r - x * r == (t - x) * r;
    if later < b.last + Wait(g, b.tokens) {
      assert t < x;
      assert (t - x) * r < 0.0;
    }
    if later > b.last + Wait(g, b.tokens) {
      assert t > x;
      assert (t - x) * r > 0.0;
    }
    if later == b.last + Wait(g, b.tokens) {
      assert t == Wait(g, b.tokens) as real;
    }
  }

  /** The second reported to a refused request. */
  function ResetAt(g: F.Guard, b: Bucket): int
    requires g.limit > 0 && g.ttl > 0
  {
    (b.last + Wait(g, b.tokens)) / F.SECOND
  }

  /**
   * What is reported is rounded down to a second: a request made at its start finds a token if and
   * only if the token comes at that very moment. At the start of any later second it finds one.
   */
  lemma AtReset(g: F.Guard, b: Bucket, later: nat)
    requires g.limit > 0 && g.ttl > 0 && b.tokens < 1.0 && b.last <= later * F.SECOND
    ensures later < ResetAt(g, b) ==> Found(g, Some(b), later * F.SECOND) < 1.0
    ensures later > ResetAt(g, b) ==> Found(g, Some(b), later * F.SECOND) >= 1.0
    ensures later == ResetAt(g, b) ==>
              (Found(g, Some(b), later * F.SECOND) >= 1.0
               <==> (b.last + Wait(g, b.tokens)) % F.SECOND == 0 && Exact(g, b.tokens))
  {
    hide Found, Wait, Exact, Rate;
    WaitIsTight(g, b, later * F.SECOND);
  }

  function Taken(tokens: real, now: nat): Bucket {
    Bucket(if tokens >= 1.0 then tokens - 1.0 else tokens, now)
  }

  class Throttler {
    const guard: F.Guard
    const backend: MemoryCache<Bucket>

    constructor (limit: int, ttl: int, backend: MemoryCache<Bucket>)
      ensures guard == F.NewGuard(limit, ttl) && this.backend == backend
    {
      guard := F.NewGuard(limit, ttl);
      this.backend := backend;
    }

    method TokenBucket(c: F.Call) returns (isAllowed: bool, remaining: int, resetAt: int)
      requires backend.Valid() && backend.clock <= c.getAt && c.now <= c.getAt <= c.setAt
      requires guard.limit > 0 && guard.ttl > 0
      modifies backend, backend.shards
      ensures backend.Valid() && backend.full == Next(old(backend.full), guard, c)
      ensures var tokens := Found(guard, Lookup(old(backend.full), CacheKey(c.key), c.getAt), c.now);
              && (isAllowed <==> tokens >= 1.0) && remaining == Taken(tokens, c.now).tokens.Floor
              && resetAt == if isAllowed then (c.now + guard.ttl) / F.SECOND
                            else ResetAt(guard, Taken(tokens, c.now))
    {
      hide MemoryCache.Valid, Lookup, Deadline;
      var cacheKey := CacheKey(c.key);
      var refillRate := guard.limit as real / guard.ttl as real;
      var tokens := guard.limit as real;
      var raw := backend.Get(cacheKey, c.getAt);
      if raw.Some? {
        var elapsed := (c.now - raw.value.last) as real;
        tokens := Min(guard.limit as real, raw.value.tokens + elapsed * refillRate);
      }
      assert tokens == Found(guard, raw, c.now);
      isAllowed := tokens >= 1.0;
      if isAllowed {
        tokens := tokens - 1.0;
      }
      var ok := backend.Set(cacheKey, Bucket(tokens, c.now), guard.ttl * 2, c.setAt);
      assert ok;
      remaining := tokens.Floor;
      var wait := if !isAllowed && refillRate > 0.0 then ((1.0 - tokens) / refillRate).Floor else guard.ttl;
      RatePositive(guard);
      resetAt := (c.now + wait) / F.SECOND;
    }
  }

  /** The cache after a request. */
  function Next(full: Map, g: F.Guard, c: F.Call): Map
    requires g.ttl > 0
  {
    var tokens := Found(g, Lookup(full, CacheKey(c.key), c.getAt), c.now);
    full[CacheKey(c.key) := Entry(Taken(tokens, c.now), Deadline(c.setAt, g.ttl * 2))]
  }

  // ----- runs

  /** Clock readings in order, and no deadline beyond 64 bits. */
  predicate Timely(g: F.Guard, c: F.Call) {
    c.now <= c.getAt <= c.setAt && c.setAt + g.ttl * 2 < 0x8000_0000_0000_0000
  }

  /** The lookup comes before the deadline of the bucket it should find, or that bucket has filled up. */
  predicate InTime(g: F.Guard, full: Map, c: F.Call)
    requires g.ttl > 0
  {
    var slot := CacheKey(c.key);
    slot in full ==> c.getAt < full[slot].expiresAt || Found(g, Some(full[slot].val), c.now) == g.limit as real
  }

  /** Requests one after another, each finished before the next begins. */
  ghost predicate Sequential(g: F.Guard, run: seq<F.Call>) {
    && g.limit > 0 && g.ttl > 0
    && (forall i | 0 <= i < |run| :: Timely(g, run[i]))
    && (forall i, j | 0 <= i < j < |run| :: run[i].setAt <= run[j].now)
  }

  /** And none of them looks its bucket up too late. */
  ghost predicate Orderly(g: F.Guard, run: seq<F.Call>) {
    Sequential(g, run) && forall i | 0 <= i < |run| :: InTime(g, After(g, run[..i]), run[i])
  }

  function After(g: F.Guard, run: seq<F.Call>): Map
    requires g.ttl > 0
  {
    if run == [] then map[] else Next(After(g, run[..|run| - 1]), g, run[|run| - 1])
  }

  predicate Allows(g: F.Guard, full: Map, c: F.Call)
    requires g.ttl > 0
  {
    Found(g, Lookup(full, CacheKey(c.key), c.getAt), c.now) >= 1.0
  }

  /** A bucket that is never dropped. */
  function Ideal(g: F.Guard, run: seq<F.Call>, key: string): Option<Bucket>
    requires g.ttl > 0
  {
    if run == [] then None else
    var before, c := Ideal(g, run[..|run| - 1], key), run[|run| - 1];
    if c.key == key then Some(Taken(Found(g, before, c.now), c.now)) else before
  }

  // ----- what the bucket holds

  predicate InRange(g: F.Guard, b: Option<Bucket>) {
    b.Some? ==> 0.0 <= b.value.tokens <= g.limit as real
  }

  lemma Earned(g: F.Guard, t: int)
    requires g.limit > 0 && g.ttl > 0
    ensures t >= 0 ==> t as real * Rate(g) >= 0.0
    ensures t >= g.ttl ==> t as real * Rate(g) >= g.limit as real
  {
    var r := Rate(g);
    RatePositive(g);
    if t >= g.ttl {
      assert t as real * r == g.ttl as real * r + (t - g.ttl) as real * r;
      assert (t - g.ttl) as real * r >= 0.0;
    }
  }

  lemma FoundInRange(g: F.Guard, b: Option<Bucket>, now: nat)
    requires g.limit > 0 && g.ttl > 0 && InRange(g, b) && (b.Some? ==> b.value.last <= now)
    ensures 0.0 <= Found(g, b, now) <= g.limit as real
    ensures InRange(g, Some(Taken(Found(g, b, now), now)))
  {
    hide Rate;
    if b.Some? {
      Earned(g, now - b.value.last);
    }
  }

  /** Tokens never fall below none nor rise above the limit. */
  lemma {:induction false} TokensInRange(g: F.Guard, run: seq<F.Call>, key: string)
    requires Sequential(g, run)
    ensures var b := Ideal(g, run, key);
            InRange(g, b) && (b.Some? ==> exists i | 0 <= i < |run| :: run[i].key == key && b.value.last == run[i].now)
  {
    hide Found;
    if run != [] {
      var before, c := run[..|run| - 1], run[|run| - 1];
      TokensInRange(g, before, key);
      var b := Ideal(g, before, key);
      if b.Some? {
        var i :| 0 <= i < |before| && before[i].key == key && b.value.last == before[i].now;
        assert run[i] == before[i];
      }
      FoundInRange(g, b, c.now);
    }
  }

  // ----- the expiry of the entry

  /** The cache has the bucket that is never dropped, with a deadline two refill times after its last request. */
  ghost predicate Same(g: F.Guard, full: Map, key: string, b: Option<Bucket>)
    requires g.ttl > 0
  {
    var slot := CacheKey(key);
    if b.None? then slot !in full
    else slot in full && full[slot].val == b.value && full[slot].expiresAt >= b.value.last + g.ttl * 2 > 0
  }

  /** A request finds what it should if and only if it comes in time. */
  lemma FoundIff(g: F.Guard, full: Map, c: F.Call, b: Option<Bucket>)
    requires g.limit > 0 && g.ttl > 0 && Same(g, full, c.key, b)
    ensures Found(g, Lookup(full, CacheKey(c.key), c.getAt), c.now) == Found(g, b, c.now) <==> InTime(g, full, c)
  {
    hide Rate;
  }

  /** A lookup within one refill time of its clock reading is always in time. */
  lemma SoonInTime(g: F.Guard, full: Map, c: F.Call, b: Option<Bucket>)
    requires g.limit > 0 && g.ttl > 0 && Same(g, full, c.key, b) && c.getAt <= c.now + g.ttl
    requires InRange(g, b) && (b.Some? ==> b.value.last <= c.now)
    ensures InTime(g, full, c)
  {
    hide Rate;
    if b.Some? && Expired(full[CacheKey(c.key)], c.getAt) {
      Earned(g, c.now - b.value.last);
    }
  }

  lemma StepSame(g: F.Guard, full: Map, c: F.Call, key: string, b: Option<Bucket>, own: Option<Bucket>)
    requires g.limit > 0 && g.ttl > 0 && Same(g, full, key, b) && Same(g, full, c.key, own)
    requires Timely(g, c) && InTime(g, full, c)
    ensures Same(g, Next(full, g, c), key, if c.key == key then Some(Taken(Found(g, own, c.now), c.now)) else b)
  {
    hide Found, Rate, Lookup;
    FoundIff(g, full, c, own);
    assert CacheKey(key)[6..] == key && CacheKey(c.key)[6..] == c.key;
  }

  lemma LastAsEarly(g: F.Guard, run: seq<F.Call>, key: string)
    requires Sequential(g, run) && run != []
    ensures var before, now := run[..|run| - 1], run[|run| - 1].now;
            && Sequential(g, before) && InRange(g, Ideal(g, before, key))
            && (Ideal(g, before, key).Some? ==> Ideal(g, before, key).value.last <= now)
  {
    hide InRange, Ideal;
    TokensInRange(g, run[..|run| - 1], key);
  }

  lemma LastBefore(g: F.Guard, run: seq<F.Call>, key: string)
    requires Orderly(g, run) && run != []
    ensures var before, now := run[..|run| - 1], run[|run| - 1].now;
            && Orderly(g, before) && InRange(g, Ideal(g, before, key))
            && InTime(g, After(g, before), run[|run| - 1])
            && (Ideal(g, before, key).Some? ==> Ideal(g, before, key).value.last <= now)
  {
    hide InTime, Timely, InRange, Ideal, After;
    LastAsEarly(g, run, key);
    var before := run[..|run| - 1];
    assert forall i | 0 <= i < |before| :: before[..i] == run[..i] && before[i] == run[i];
    hide Sequential;
  }

  lemma {:induction false} CacheHasIdeal(g: F.Guard, run: seq<F.Call>, key: string)
    requires Orderly(g, run)
    ensures Same(g, After(g, run), key, Ideal(g, run, key))
  {
    hide Found, Same, Next, InRange, Timely, InTime;
    if run == [] {
      NoneYet(g, key);
    } else {
      var before, c := run[..|run| - 1], run[|run| - 1];
      LastBefore(g, run, c.key);
      CacheHasIdeal(g, before, key);
      CacheHasIdeal(g, before, c.key);
      StepSame(g, After(g, before), c, key, Ideal(g, before, key), Ideal(g, before, c.key));
    }
  }

  lemma NoneYet(g: F.Guard, key: string)
    requires g.ttl > 0
    ensures Same(g, map[], key, None)
  {
  }

  /** The deadline of the cache entry never changes a decision. */
  lemma ExpiryUnseen(g: F.Guard, run: seq<F.Call>)
    requires Orderly(g, run) && run != []
    ensures var before, c := run[..|run| - 1], run[|run| - 1];
            Allows(g, After(g, before), c) <==> Found(g, Ideal(g, before, c.key), c.now) >= 1.0
  {
    hide Found, Same, InRange, Ideal, InTime;
    var before, c := run[..|run| - 1], run[|run| - 1];
    LastBefore(g, run, c.key);
    CacheHasIdeal(g, before, c.key);
    FoundIff(g, After(g, before), c, Ideal(g, before, c.key));
  }

  /** Requests whose lookups come within one refill time of their clock readings are all in time. */
  lemma {:induction false} SoonOrderly(g: F.Guard, run: seq<F.Call>)
    requires Sequential(g, run) && forall c | c in run :: c.getAt <= c.now + g.ttl
    ensures Orderly(g, run)
  {
    hide Found, Same, Next, InRange, Timely, InTime, After, Ideal;
    if run != [] {
      var before, c := run[..|run| - 1], run[|run| - 1];
      assert c in run && forall d | d in before :: d in run;
      SoonOrderly(g, before);
      CacheHasIdeal(g, before, c.key);
      LastAsEarly(g, run, c.key);
      SoonInTime(g, After(g, before), c, Ideal(g, before, c.key));
      assert forall i | 0 <= i < |before| :: before[..i] == run[..i] && before[i] == run[i];
    }
  }

  /**
   * A limit of one and two requests half a refill time apart: the second looks its bucket up when
   * that has expired, and both are admitted where one and a half would be the bound.
   */
  lemma LateLookupForgets(ttl: nat, key: string)
    requires 0 < ttl < 0x1000_0000_0000_0000
    ensures var g := F.Guard(1, 2 * ttl);
            var run := [F.Call(key, 0, 0, 0), F.Call(key, ttl, 4 * ttl, 4 * ttl)];
            && Sequential(g, run) && !Orderly(g, run) && (forall c | c in run :: 0 <= c.now <= ttl)
            && Allowed(g, run, 0, key) == 2 && g.limit as real + ttl as real * Rate(g) == 1.5
  {
    var g := F.Guard(1, 2 * ttl);
    var first, second := F.Call(key, 0, 0, 0), F.Call(key, ttl, 4 * ttl, 4 * ttl);
    var run := [first, second];
    assert run[..1] == [first] && [first][..0] == [];
    assert After(g, [first]) == Next(map[], g, first);
    assert ttl as real * Rate(g) == 0.5;
    assert !InTime(g, After(g, run[..1]), run[1]);
    assert Allowed(g, [first], 0, key) == 1;
  }

  // ----- the bound

  /** The requests for a key admitted from one position of a run on. */
  function Allowed(g: F.Guard, run: seq<F.Call>, from: nat, key: string): nat
    requires g.ttl > 0
  {
    if |run| <= from then 0 else
    var before, c := run[..|run| - 1], run[|run| - 1];
    Allowed(g, before, from, key) + if c.key == key && Allows(g, After(g, before), c) then 1 else 0
  }

  function Asked(run: seq<F.Call>, from: nat, key: string): bool {
    |run| > from && (run[|run| - 1].key == key || Asked(run[..|run| - 1], from, key))
  }

  lemma Spread(a: int, b: int, r: real)
    ensures a as real * r + b as real * r == (a + b) as real * r
  {
  }

  /** What has been admitted and what is left never exceed a full bucket and what has been earned since. */
  ghost predicate Balanced(g: F.Guard, admitted: nat, b: Bucket, since: nat)
    requires g.ttl > 0
  {
    admitted as real + b.tokens <= g.limit as real + (b.last - since) as real * Rate(g)
  }

  lemma StepBalanced(g: F.Guard, admitted: nat, b: Bucket, since: nat, now: nat)
    requires g.limit > 0 && g.ttl > 0 && Balanced(g, admitted, b, since)
    ensures var found := Found(g, Some(b), now);
            Balanced(g, admitted + if found >= 1.0 then 1 else 0, Taken(found, now), since)
  {
    hide Rate;
    Spread(b.last - since, now - b.last, Rate(g));
  }

  lemma FirstBalanced(g: F.Guard, found: real, since: nat, now: nat)
    requires g.limit > 0 && g.ttl > 0 && since <= now && found <= g.limit as real
    ensures Balanced(g, if found >= 1.0 then 1 else 0, Taken(found, now), since)
  {
    hide Rate;
    Earned(g, now - since);
  }

  lemma {:induction false} AlwaysBalanced(g: F.Guard, run: seq<F.Call>, from: nat, key: string, since: nat)
    requires Orderly(g, run) && forall i | from <= i < |run| :: since <= run[i].now
    ensures if Asked(run, from, key) then
              Ideal(g, run, key).Some? && Balanced(g, Allowed(g, run, from, key), Ideal(g, run, key).value, since)
            else Allowed(g, run, from, key) == 0
  {
    hide Found, Balanced, InRange, Taken, Allows, Timely, InTime, Rate, Ideal, Allowed, Asked, After;
    LastStep(g, run, from, key);
    if |run| > from {
      var before, c := run[..|run| - 1], run[|run| - 1];
      LastBefore(g, run, key);
      AlwaysBalanced(g, before, from, key, since);
      if c.key == key {
        ExpiryUnseen(g, run);
        var b := Ideal(g, before, key);
        if Asked(before, from, key) {
          StepBalanced(g, Allowed(g, before, from, key), b.value, since, c.now);
        } else {
          FoundInRange(g, b, c.now);
          FirstBalanced(g, Found(g, b, c.now), since, c.now);
        }
      }
    }
  }

  /** What the last request of a run changes. */
  lemma LastStep(g: F.Guard, run: seq<F.Call>, from: nat, key: string)
    requires g.ttl > 0
    ensures |run| <= from ==> !Asked(run, from, key) && Allowed(g, run, from, key) == 0
    ensures |run| > from ==>
              var before, c := run[..|run| - 1], run[|run| - 1];
              && (Asked(run, from, key) <==> c.key == key || Asked(before, from, key))
              && Allowed(g, run, from, key)
                 == Allowed(g, before, from, key) + (if c.key == key && Allows(g, After(g, before), c) then 1 else 0)
              && Ideal(g, run, key)
                 == if c.key == key then Some(Taken(Found(g, Ideal(g, before, key), c.now), c.now))
                    else Ideal(g, before, key)
  {
    hide Found, Taken, Allows, After, Rate;
  }

  /** Between two times at most a full bucket and what is earned in between are admitted. */
  lemma BucketBound(g: F.Guard, run: seq<F.Call>, from: nat, key: string, t1: nat, t2: nat)
    requires Orderly(g, run) && t1 <= t2 && forall i | from <= i < |run| :: t1 <= run[i].now <= t2
    ensures Allowed(g, run, from, key) as real <= g.limit as real + (t2 - t1) as real * Rate(g)
  {
    hide Rate, Ideal, Allowed, InTime, Timely, After;
    AlwaysBalanced(g, run, from, key, t1);
    Earned(g, t2 - t1);
    if Asked(run, from, key) {
      TokensInRange(g, run, key);
      LastAsked(g, run, from, key);
      var b := Ideal(g, run, key).value;
      Earned(g, t2 - b.last);
      Spread(b.last - t1, t2 - b.last, Rate(g));
    }
  }

  lemma {:induction false} LastAsked(g: F.Guard, run: seq<F.Call>, from: nat, key: string)
    requires g.ttl > 0 && Asked(run, from, key)
    ensures Ideal(g, run, key).Some? && exists i | from <= i < |run| :: Ideal(g, run, key).value.last == run[i].now
  {
    hide Found;
    var before, c := run[..|run| - 1], run[|run| - 1];
    if c.key != key {
      LastAsked(g, before, from, key);
      var i :| from <= i < |before| && Ideal(g, before, key).value.last == before[i].now;
      assert run[i] == before[i];
    }
  }

  // ----- and the bucket withholds nothing

  /** From a request that found a full bucket on, what is left is exactly what was earned and not taken. */
  ghost predicate Exactly(g: F.Guard, run: seq<F.Call>, key: string, i: nat, b: Bucket)
    requires g.ttl > 0
  {
    && i < |run| && run[i].key == key
    && b.tokens == g.limit as real - Allowed(g, run, i, key) as real + Gain(g, run[i].now, b.last)
  }

  /** What is earned from one time to another. */
  function Gain(g: F.Guard, from: int, to: int): real
    requires g.ttl > 0
  {
    (to - from) as real * Rate(g)
  }

  lemma GainOn(g: F.Guard, a: int, b: int, c: int)
    requires g.ttl > 0
    ensures Gain(g, a, b) + Gain(g, b, c) == Gain(g, a, c) && Gain(g, a, a) == 0.0
  {
    hide Rate;
    Spread(b - a, c - b, Rate(g));
    assert (b - a) + (c - b) == c - a;
  }

  lemma {:induction false} SinceFull(g: F.Guard, run: seq<F.Call>, key: string) returns (i: nat)
    requires Orderly(g, run)
    ensures Ideal(g, run, key).Some? ==> Exactly(g, run, key, i, Ideal(g, run, key).value)
  {
    i := 0;
    if run != [] {
      hide InTime, Timely, Allows, Rate, Found, Exactly, Gain;
      var before, c := run[..|run| - 1], run[|run| - 1];
      LastBefore(g, run, key);
      i := SinceFull(g, before, key);
      if c.key == key {
        ExpiryUnseen(g, run);
        i := StepExact(g, run, key, i);
      } else if Ideal(g, run, key).Some? {
        ExactBehind(g, run, key, i);
      }
    }
  }

  lemma ExactBehind(g: F.Guard, run: seq<F.Call>, key: string, i: nat)
    requires g.ttl > 0 && run != [] && run[|run| - 1].key != key
    requires Ideal(g, run[..|run| - 1], key).Some?
    requires Exactly(g, run[..|run| - 1], key, i, Ideal(g, run[..|run| - 1], key).value)
    ensures Ideal(g, run, key).Some? && Exactly(g, run, key, i, Ideal(g, run, key).value)
  {
    hide Rate, Ideal, Allowed;
    OtherKey(g, run, i, key);
    assert run[..|run| - 1][i] == run[i];
  }

  lemma OtherKey(g: F.Guard, run: seq<F.Call>, from: nat, key: string)
    requires g.ttl > 0 && run != [] && run[|run| - 1].key != key
    ensures Ideal(g, run, key) == Ideal(g, run[..|run| - 1], key)
    ensures Allowed(g, run, from, key) == Allowed(g, run[..|run| - 1], from, key)
  {
    hide Rate, Allows, Found;
  }

  lemma StepExact(g: F.Guard, run: seq<F.Call>, key: string, j: nat) returns (i: nat)
    requires g.limit > 0 && g.ttl > 0 && run != [] && run[|run| - 1].key == key
    requires var before, c := run[..|run| - 1], run[|run| - 1]; var b := Ideal(g, before, key);
             && (b.Some? ==> Exactly(g, before, key, j, b.value))
             && (Allows(g, After(g, before), c) <==> Found(g, b, c.now) >= 1.0)
    ensures Ideal(g, run, key).Some? && Exactly(g, run, key, i, Ideal(g, run, key).value)
  {
    hide Rate, Allows, After, Exactly, Found, Taken, Gain;
    var before, c := run[..|run| - 1], run[|run| - 1];
    var b := Ideal(g, before, key);
    var found := Found(g, b, c.now);
    if found == g.limit as real {
      i := |before|;
      NothingFrom(g, before, i, key);
      FullThen(g, run, key, i, found);
    } else {
      i := j;
      FoundIs(g, b, c.now);
      ExactlyAt(g, before, key, i, b.value);
      EarnedOn(g, before, run, key, i, b.value, found);
    }
  }

  lemma FoundIs(g: F.Guard, b: Option<Bucket>, now: nat)
    requires g.limit > 0 && g.ttl > 0 && Found(g, b, now) != g.limit as real
    ensures b.Some? && Found(g, b, now) == b.value.tokens + Gain(g, b.value.last, now)
  {
    hide Rate;
  }

  lemma FullThen(g: F.Guard, run: seq<F.Call>, key: string, i: nat, found: real)
    requires g.limit > 0 && g.ttl > 0 && i < |run| && run[i].key == key && found == g.limit as real
    requires Allowed(g, run, i, key) == 1
    ensures Exactly(g, run, key, i, Taken(found, run[i].now))
  {
    hide Allowed, Gain;
    GainOn(g, run[i].now, run[i].now, run[i].now);
  }

  lemma EarnedOn(g: F.Guard, before: seq<F.Call>, run: seq<F.Call>, key: string, i: nat, b: Bucket, found: real)
    requires g.limit > 0 && g.ttl > 0 && run != [] && before == run[..|run| - 1] && Exactly(g, before, key, i, b)
    requires found == b.tokens + Gain(g, b.last, run[|run| - 1].now)
    requires Allowed(g, run, i, key) == Allowed(g, before, i, key) + if found >= 1.0 then 1 else 0
    ensures Exactly(g, run, key, i, Taken(found, run[|run| - 1].now))
  {
    hide Allowed, Gain;
    assert before[i] == run[i];
    GainOn(g, run[i].now, b.last, run[|run| - 1].now);
  }

  lemma ExactlyAt(g: F.Guard, run: seq<F.Call>, key: string, i: nat, b: Bucket)
    requires g.ttl > 0 && Exactly(g, run, key, i, b)
    ensures i < |run|
  {
  }

  lemma NothingFrom(g: F.Guard, run: seq<F.Call>, from: nat, key: string)
    requires g.ttl > 0 && from >= |run|
    ensures Allowed(g, run, from, key) == 0
  {
  }

  /**
   * The decision without the bucket: a request is admitted if and only if, counted from every earlier
   * request of its key on, admitting it keeps within the limit and what is earned in between.
   */
  lemma AdmitsIff(g: F.Guard, run: seq<F.Call>)
    requires Orderly(g, run) && run != []
    ensures var before, c := run[..|run| - 1], run[|run| - 1];
            Allows(g, After(g, before), c) <==>
              forall i | 0 <= i < |before| && before[i].key == c.key ::
                Allowed(g, before, i, c.key) as real + 1.0
                <= g.limit as real + (c.now - before[i].now) as real * (g.limit as real / g.ttl as real)
  {
    hide InTime, Timely, Allows, Found, Exactly, After, Ideal, Allowed, Gain;
    var before, c := run[..|run| - 1], run[|run| - 1];
    var key, b := c.key, Ideal(g, before, c.key);
    LastBefore(g, run, key);
    ExpiryUnseen(g, run);
    if Allows(g, After(g, before), c) {
      forall i | 0 <= i < |before| && before[i].key == key
        ensures Allowed(g, before, i, key) as real + 1.0
                <= g.limit as real + (c.now - before[i].now) as real * (g.limit as real / g.ttl as real)
      {
        Spans(g, run, i);
        BucketBound(g, run, i, key, before[i].now, c.now);
        LastAllowed(g, run, i, key);
      }
    } else {
      var i := SinceFull(g, before, key);
      RefusedOver(g, before, key, i, b, c.now);
    }
  }

  lemma Spans(g: F.Guard, run: seq<F.Call>, i: nat)
    requires Sequential(g, run) && i < |run|
    ensures forall k | i <= k < |run| :: run[i].now <= run[k].now <= run[|run| - 1].now
  {
  }

  lemma LastAllowed(g: F.Guard, run: seq<F.Call>, from: nat, key: string)
    requires g.ttl > 0 && from < |run| && run[|run| - 1].key == key
    requires Allows(g, After(g, run[..|run| - 1]), run[|run| - 1])
    ensures Allowed(g, run, from, key) == Allowed(g, run[..|run| - 1], from, key) + 1
  {
    hide Allows, After;
  }

  lemma RefusedOver(g: F.Guard, run: seq<F.Call>, key: string, i: nat, b: Option<Bucket>, now: nat)
    requires g.limit > 0 && g.ttl > 0 && Found(g, b, now) < 1.0
    requires b.Some? ==> Exactly(g, run, key, i, b.value)
    ensures i < |run| && run[i].key == key
    ensures Allowed(g, run, i, key) as real + 1.0 > g.limit as real + (now - run[i].now) as real * Rate(g)
  {
    hide Rate, Allowed;
    GainOn(g, run[i].now, b.value.last, now);
  }
}
