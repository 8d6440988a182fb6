/** The fixed-window throttler: a count per key and window, kept in the cache. */
module FixedWindow {
  import opened Collections
  import opened ByteOrder
  import opened Cache

  const SECOND := 1_000_000_000

  // ----- cache keys

  function Digit(d: nat): (c: char)
    requires d < 10
    ensures c != ':'
  {
    (0x30 + d) as char
  }

  /** Decimal writing. */
  function Decimal(n: nat): (s: string)
    ensures s != "" && ':' !in s
  {
    if n < 10 then [Digit(n)] else Decimal(n / 10) + [Digit(n % 10)]
  }

  lemma {:induction false} DecimalInjective(m: nat, n: nat)
    requires Decimal(m) == Decimal(n)
    ensures m == n
  {
    assert Decimal(m)[|Decimal(m)| - 1] == Digit(m % 10) && Decimal(n)[|Decimal(n)| - 1] == Digit(n % 10);
    assert m % 10 == n % 10;
    if m >= 10 && n >= 10 {
      assert Decimal(m)[..|Decimal(m)| - 1] == Decimal(m / 10);
      assert Decimal(n)[..|Decimal(n)| - 1] == Decimal(n / 10);
      DecimalInjective(m / 10, n / 10);
    }
  }

  lemma LastColon(a: string, d: string, b: string, e: string)
    requires a + ":" + d == b + ":" + e && ':' !in d && ':' !in e
    ensures a == b && d == e
  {
    var s := a + ":" + d;
    forall k | |a| < k < |s| ensures s[k] != ':' {
      assert s[k] == d[k - |a| - 1];
    }
    forall k | |b| < k < |s| ensures s[k] != ':' {
      assert s[k] == e[k - |b| - 1];
    }
    assert s[|a|] == ':' && s[|b|] == ':';
    assert a == s[..|a|] && b == s[..|b|];
    assert d == s[|a| + 1..] && e == s[|b| + 1..];
  }

  function CacheKey(key: string, id: nat): (k: string)
    ensures k != ""
  {
    "rl:fw:" + key + ":" + Decimal(id)
  }

  /** No two keys and no two windows share a count. */
  lemma CacheKeyInjective(key: string, id: nat, key': string, id': nat)
    ensures CacheKey(key, id) == CacheKey(key', id') <==> key == key' && id == id'
  {
    hide Decimal;
    if CacheKey(key, id) == CacheKey(key', id') {
      LastColon("rl:fw:" + key, Decimal(id), "rl:fw:" + key', Decimal(id'));
      assert ("rl:fw:" + key)[6..] == key && ("rl:fw:" + key')[6..] == key';
      DecimalInjective(id, id');
    }
  }

  // ----- windows

  datatype Guard = Guard(limit: int, ttl: int)

  /** Missing settings get their defaults. */
  function NewGuard(limit: int, ttl: int): (g: Guard)
    ensures g.limit > 0 && g.ttl > 0
    ensures g.limit == (if limit > 0 then limit else 100) && g.ttl == if ttl > 0 then ttl else 60_000_000_000
  {
    Guard(if limit <= 0 then 100 else limit, if ttl <= 0 then 60 * SECOND else ttl)
  }

  function WindowSec(ttl: int): (w: nat)
    ensures w >= 1
  {
    Max(ttl / SECOND, 1)
  }

  /** A window is as many whole seconds as fit into the time to live, and at least one. */
  lemma WindowFits(ttl: int)
    ensures WindowSec(ttl) * 1_000_000_000 <= Max(ttl, 1_000_000_000) < (WindowSec(ttl) + 1) * 1_000_000_000
    ensures ttl > 0 && ttl % 1_000_000_000 == 0 ==> WindowSec(ttl) * 1_000_000_000 == ttl
  {
  }

  /** A clock in nanoseconds, windows in whole seconds. */
  function WindowID(now: nat, w: nat): nat
    requires w > 0
  {
    now / SECOND / w
  }

  lemma WindowBounds(now: nat, w: nat)
    requires w > 0
    ensures var id := WindowID(now, w);
            id * w <= now / SECOND < (id + 1) * w && id * w * SECOND <= now < (id + 1) * w * SECOND
  {
    var s := now / SECOND;
    var id := s / w;
    assert s == id * w + s % w;
    assert (id + 1) * w == id * w + w;
    assert s * SECOND <= now < (s + 1) * SECOND;
  }

  /** The end of a window is the next multiple of its length. */
  lemma WindowEnd(sec: nat, w: nat)
    requires w > 0
    ensures var end := (sec / w + 1) * w; end % w == 0 && end - w <= sec < end
  {
    assert sec == sec / w * w + sec % w;
    assert (sec / w + 1) * w == sec / w * w + w;
    MultipleOf(sec / w + 1, w);
  }

  lemma MultipleOf(k: nat, w: nat)
    requires w > 0
    ensures k * w % w == 0
  {
    var x := k * w;
    assert x == x / w * w + x % w;
    var d: int := k - x / w;
    assert d * w == x % w;
    AtLeastOne(d, w);
  }

  lemma AtLeastOne(d: int, w: int)
    requires w >= 0
    ensures d >= 1 ==> d * w >= w
    ensures d <= -1 ==> d * w <= -w
  {
    if d >= 1 {
      assert d * w == w + (d - 1) * w;
    }
    if d <= -1 {
      assert d * w == -w + (d + 1) * w;
    }
  }

  /** A request: the guard reads the clock, then the cache reads it to look up and again to store. */
  datatype Call = Call(key: string, now: nat, getAt: nat, setAt: nat)

  /** Clock readings in order, and no deadline beyond 64 bits. */
  predicate Timely(g: Guard, c: Call) {
    && c.now <= c.getAt <= c.setAt
    && c.setAt + Max(g.ttl, SECOND) < 0x8000_0000_0000_0000
  }

  type Map = map<string, Entry<Bytes>>

  function Reversed<T>(s: seq<T>): (r: seq<T>)
    ensures |r| == |s|
  {
    seq(|s|, i requires 0 <= i < |s| => s[|s| - 1 - i])
  }

  /** Eight bytes, most significant first. */
  function PutBig(n: Int64): (b: Bytes)
    ensures |b| == 8
  {
    Reversed(PutUint(ToUnsigned(n), 8))
  }

  function Big(raw: Bytes): Int64
    requires |raw| == 8
  {
    UintBound(Reversed(raw));
    Widths();
    ToSigned(Uint(Reversed(raw)))
  }

  /** The digit of weight 256 to the i stands i bytes from the end. */
  lemma PutBigAt(n: Int64, i: nat)
    requires i < 8
    ensures PutBig(n)[7 - i] == ToUnsigned(n) / Pow256(i) % 256
  {
    hide PutUint, Pow256;
    PutUintAt(ToUnsigned(n), 8, i);
  }

  lemma BigReadsBack(n: Int64)
    ensures Big(PutBig(n)) == n
  {
    var b := PutUint(ToUnsigned(n), 8);
    assert Reversed(Reversed(b)) == b;
    ReadBack(ToUnsigned(n), 8);
    Widths();
  }

  /** Where the count of a request is kept. */
  function Slot(g: Guard, c: Call): string {
    CacheKey(c.key, WindowID(c.now, WindowSec(g.ttl)))
  }

  /** The request's number in its window: one more than what the cache still knows. */
  function CountOf(full: Map, g: Guard, c: Call): Int64 {
    var raw := Lookup(full, Slot(g, c), c.getAt);
    if raw.Some? && |raw.value| == 8 then Wrap(Big(raw.value) + 1) else 1
  }

  /** The cache after a request. */
  function Next(full: Map, g: Guard, c: Call): Map {
    var w := WindowSec(g.ttl);
    var resetAt := (WindowID(c.now, w) + 1) * w;
    var left := Max((resetAt - c.now / SECOND) * SECOND, SECOND);
    full[Slot(g, c) := Entry(PutBig(CountOf(full, g, c)), Deadline(c.setAt, left))]
  }

  class Throttler {
    const guard: Guard
    const backend: MemoryCache<Bytes>

    constructor (limit: int, ttl: int, backend: MemoryCache<Bytes>)
      ensures guard == NewGuard(limit, ttl) && this.backend == backend
    {
      guard := NewGuard(limit, ttl);
      this.backend := backend;
    }

    method FixedWindow(c: Call) returns (isAllowed: bool, remaining: int, resetAt: int)
      requires backend.Valid() && backend.clock <= c.getAt && c.now <= c.getAt <= c.setAt
      modifies backend, backend.shards
      ensures backend.Valid() && backend.full == Next(old(backend.full), guard, c)
      ensures var count := CountOf(old(backend.full), guard, c);
              (isAllowed <==> count <= guard.limit) && remaining == Max(guard.limit - count, 0)
      ensures var w := WindowSec(guard.ttl); resetAt % w == 0 && resetAt - w <= c.now / SECOND < resetAt
    {
      hide MemoryCache.Valid, Lookup, PutBig, Big, Decimal, Deadline;
      var w := WindowSec(guard.ttl);
      var nowSec := c.now / SECOND;
      var id := nowSec / w;
      var cacheKey := CacheKey(c.key, id);
      resetAt := (id + 1) * w;
      var count: Int64 := 1;
      var raw := backend.Get(cacheKey, c.getAt);
      if raw.Some? && |raw.value| == 8 {
        count := Wrap(Big(raw.value) + 1);
      }
      var buf := PutBig(count);
      var left := Max((resetAt - nowSec) * SECOND, SECOND);
      var _ := backend.Set(cacheKey, buf, left, c.setAt);
      remaining := Max(guard.limit - count, 0);
      isAllowed := count <= guard.limit;
      WindowEnd(nowSec, w);
    }
  }

  // ----- runs

  /** The lookup of a request comes before the deadline of the count it should find. */
  predicate InTime(g: Guard, full: Map, c: Call) {
    Slot(g, c) in full ==> c.getAt < full[Slot(g, c)].expiresAt
  }

  /** Requests one after another, each finished before the next begins. */
  ghost predicate Sequential(g: Guard, run: seq<Call>) {
    && (forall i | 0 <= i < |run| :: Timely(g, run[i]))
    && (forall i, j | 0 <= i < j < |run| :: run[i].setAt <= run[j].now)
    && |run| < 0x7FFF_FFFF_FFFF_FFFF
  }

  /** And none of them looks its count up too late. */
  ghost predicate Orderly(g: Guard, run: seq<Call>) {
    Sequential(g, run) && forall i | 0 <= i < |run| :: InTime(g, After(g, run[..i]), run[i])
  }

  function After(g: Guard, run: seq<Call>): Map {
    if run == [] then map[] else Next(After(g, run[..|run| - 1]), g, run[|run| - 1])
  }

  predicate Allows(g: Guard, full: Map, c: Call) {
    CountOf(full, g, c) <= g.limit
  }

  /** Some of the requests for one key: those of one window, or of any interval of time. */
  datatype Pick = Window(key: string, id: nat) | Between(key: string, a: nat, b: nat)

  predicate Picks(g: Guard, p: Pick, c: Call) {
    c.key == p.key &&
    match p case Window(_, id) => WindowID(c.now, WindowSec(g.ttl)) == id case Between(_, a, b) => a <= c.now <= b
  }

  function Count(g: Guard, run: seq<Call>, pick: Pick): nat {
    if run == [] then 0 else Count(g, run[..|run| - 1], pick) + if Picks(g, pick, run[|run| - 1]) then 1 else 0
  }

  function Allowed(g: Guard, run: seq<Call>, pick: Pick): nat {
    if run == [] then 0 else
    var before, c := run[..|run| - 1], run[|run| - 1];
    Allowed(g, before, pick) + if Picks(g, pick, c) && Allows(g, After(g, before), c) then 1 else 0
  }

  /** The count kept for a key and window is the number of requests made, until the window is over. */
  ghost predicate Kept(g: Guard, full: Map, key: string, id: nat, n: nat) {
    var slot := CacheKey(key, id);
    if n == 0 then slot !in full
    else slot in full && full[slot].val == PutBig(Wrap(n))
         && full[slot].expiresAt >= (id + 1) * WindowSec(g.ttl) * SECOND
  }

  lemma StoredDeadline(g: Guard, c: Call)
    requires Timely(g, c)
    ensures var w := WindowSec(g.ttl);
            var resetAt := (WindowID(c.now, w) + 1) * w;
            Deadline(c.setAt, Max((resetAt - c.now / SECOND) * SECOND, SECOND)) >= resetAt * SECOND
  {
    var w := WindowSec(g.ttl);
    WindowBounds(c.now, w);
    assert w * SECOND <= Max(g.ttl, SECOND);
    var id := WindowID(c.now, w);
    assert (id + 1) * w == id * w + w;
  }

  /** A request counts on from the one before in its window if and only if its lookup comes before the deadline. */
  lemma CountsOnIff(g: Guard, full: Map, c: Call, n: nat)
    requires n < 0x7FFF_FFFF_FFFF_FFFF
    requires Kept(g, full, c.key, WindowID(c.now, WindowSec(g.ttl)), n)
    ensures CountOf(full, g, c) == n + 1 <==> n == 0 || c.getAt < full[Slot(g, c)].expiresAt
    ensures n > 0 && c.getAt >= full[Slot(g, c)].expiresAt ==> CountOf(full, g, c) == 1
  {
    hide PutBig, Big, CacheKey, WindowID;
    WindowBounds(c.now, WindowSec(g.ttl));
    BigReadsBack(n);
  }

  /** A lookup within the request's own window is always in time. */
  lemma OwnWindowInTime(g: Guard, full: Map, c: Call, n: nat)
    requires Kept(g, full, c.key, WindowID(c.now, WindowSec(g.ttl)), n)
    requires WindowID(c.getAt, WindowSec(g.ttl)) == WindowID(c.now, WindowSec(g.ttl))
    ensures InTime(g, full, c)
  {
    hide PutBig, CacheKey, WindowID;
    WindowBounds(c.getAt, WindowSec(g.ttl));
  }

  /** A limit of one, a window of one second, and two requests in it: the second looks its count up too late. */
  lemma LateLookupForgets()
    ensures var g := Guard(1, SECOND);
            var run := [Call("k", 0, 0, 0), Call("k", SECOND / 2, SECOND, SECOND)];
            && Sequential(g, run) && !Orderly(g, run)
            && Count(g, run, Window("k", 0)) == 2 && Allowed(g, run, Window("k", 0)) == 2 > g.limit
  {
    hide Kept, CountOf, InTime, Next, Picks, CacheKey, PutBig;
    var g := Guard(1, SECOND);
    var first, second := Call("k", 0, 0, 0), Call("k", SECOND / 2, SECOND, SECOND);
    var run := [first] + [second];
    var full, pick := After(g, [first]), Window("k", 0);
    assert run == [first, second] && run[..1] == [first] && [] + [first] == [first];
    OneRequestMore(g, [], first, pick);
    OneRequestMore(g, [first], second, pick);
    LateFull(g, first, second, full);
    CountsOnIff(g, full, second, 1);
    assert !InTime(g, After(g, run[..1]), run[1]);
  }

  lemma OneRequestMore(g: Guard, before: seq<Call>, c: Call, pick: Pick)
    ensures After(g, before + [c]) == Next(After(g, before), g, c)
    ensures Count(g, before + [c], pick) == Count(g, before, pick) + if Picks(g, pick, c) then 1 else 0
    ensures Allowed(g, before + [c], pick)
         == Allowed(g, before, pick) + if Picks(g, pick, c) && Allows(g, After(g, before), c) then 1 else 0
  {
    hide Next, Picks, Allows;
    assert (before + [c])[..|before|] == before;
  }

  lemma LateFull(g: Guard, first: Call, second: Call, full: Map)
    requires g == Guard(1, SECOND) && first == Call("k", 0, 0, 0) && full == After(g, [first])
    requires second == Call("k", SECOND / 2, SECOND, SECOND)
    ensures Kept(g, full, "k", 0, 1) && Slot(g, second) in full && full[Slot(g, second)].expiresAt == SECOND
    ensures Allows(g, map[], first) && WindowID(second.now, WindowSec(g.ttl)) == 0 && !InTime(g, full, second)
    ensures Picks(g, Window("k", 0), first) && Picks(g, Window("k", 0), second)
  {
    hide PutBig, CacheKey;
    assert [first][..0] == [];
  }

  lemma StepKept(g: Guard, full: Map, c: Call, key: string, id: nat, n: nat)
    requires Timely(g, c) && InTime(g, full, c) && n < 0x7FFF_FFFF_FFFF_FFFF && Kept(g, full, key, id, n)
    ensures Kept(g, Next(full, g, c), key, id, if Picks(g, Window(key, id), c) then n + 1 else n)
    ensures Picks(g, Window(key, id), c) ==> CountOf(full, g, c) == n + 1
  {
    hide PutBig, CacheKey, WindowID, CountOf, Deadline;
    CacheKeyInjective(key, id, c.key, WindowID(c.now, WindowSec(g.ttl)));
    if Picks(g, Window(key, id), c) {
      CountsOnIff(g, full, c, n);
      StoredDeadline(g, c);
    }
  }

  /** Every window admits its first limit requests, whatever else the throttler is asked in between. */
  lemma {:induction false} WindowAdmits(g: Guard, run: seq<Call>, key: string, id: nat)
    requires g.limit > 0 && Orderly(g, run)
    ensures var pick := Window(key, id);
            && Kept(g, After(g, run), key, id, Count(g, run, pick))
            && Count(g, run, pick) <= |run|
            && Allowed(g, run, pick) == if Count(g, run, pick) <= g.limit then Count(g, run, pick) else g.limit
  {
    hide Kept, Next, CountOf, Picks, Timely, InTime;
    if run == [] {
      NothingKept(g, key, id);
    } else {
      var before, c := run[..|run| - 1], run[|run| - 1];
      assert forall i | 0 <= i < |before| :: before[..i] == run[..i] && before[i] == run[i];
      WindowAdmits(g, before, key, id);
      StepKept(g, After(g, before), c, key, id, Count(g, before, Window(key, id)));
    }
  }

  /** Requests whose lookups fall in their own windows are all in time. */
  lemma {:induction false} OwnWindowsOrderly(g: Guard, run: seq<Call>)
    requires g.limit > 0 && Sequential(g, run)
    requires forall c | c in run :: WindowID(c.getAt, WindowSec(g.ttl)) == WindowID(c.now, WindowSec(g.ttl))
    ensures Orderly(g, run)
  {
    hide Kept, Next, CountOf, Picks, Timely, InTime, WindowID, After;
    if run != [] {
      var before, c := run[..|run| - 1], run[|run| - 1];
      assert c in run && forall d | d in before :: d in run;
      OwnWindowsOrderly(g, before);
      WindowAdmits(g, before, c.key, WindowID(c.now, WindowSec(g.ttl)));
      OwnWindowInTime(g, After(g, before), c, Count(g, before, Window(c.key, WindowID(c.now, WindowSec(g.ttl)))));
      assert run == before + [c];
      OrderlyMore(g, before, c);
    }
  }

  lemma OrderlyMore(g: Guard, before: seq<Call>, c: Call)
    requires Orderly(g, before) && Sequential(g, before + [c]) && InTime(g, After(g, before), c)
    ensures Orderly(g, before + [c])
  {
    hide InTime, Sequential;
    var run := before + [c];
    forall i | 0 <= i < |run| ensures InTime(g, After(g, run[..i]), run[i]) {
      if i < |before| {
        assert before[..i] == run[..i] && before[i] == run[i];
      } else {
        assert run[..i] == before;
      }
    }
  }

  lemma NothingKept(g: Guard, key: string, id: nat)
    ensures Kept(g, map[], key, id, 0)
  {
  }

  // ----- any interval

  lemma Monotone(x: nat, y: nat, w: nat)
    requires x <= y
    ensures x * w <= y * w
  {
    assert y * w == x * w + (y - x) * w;
  }

  /** An interval no longer than the window meets two windows at most. */
  lemma TwoWindows(now: nat, a: nat, b: nat, w: nat)
    requires w > 0 && a <= now <= b <= a + w * SECOND
    ensures WindowID(now, w) == WindowID(a, w) || WindowID(now, w) == WindowID(a, w) + 1
  {
    var id := WindowID(a, w);
    var k := WindowID(now, w);
    WindowBounds(a, w);
    WindowBounds(now, w);
    hide WindowID;
    assert (id + 2) * w == (id + 1) * w + w;
    if k < id {
      Monotone(k + 1, id, w);
    } else if k >= id + 2 {
      Monotone(id + 2, k, w);
    }
  }

  lemma {:induction false} SplitBetween(g: Guard, run: seq<Call>, key: string, a: nat, b: nat)
    requires b <= a + WindowSec(g.ttl) * SECOND
    ensures var id := WindowID(a, WindowSec(g.ttl));
            Allowed(g, run, Between(key, a, b))
            <= Allowed(g, run, Window(key, id)) + Allowed(g, run, Window(key, id + 1))
  {
    hide WindowID, Allows;
    if run != [] {
      var before, c := run[..|run| - 1], run[|run| - 1];
      SplitBetween(g, before, key, a, b);
      if Picks(g, Between(key, a, b), c) {
        TwoWindows(c.now, a, b, WindowSec(g.ttl));
      }
    }
  }

  /** No interval as long as the window, wherever it lies, sees more than twice the limit admitted. */
  lemma TwiceTheLimit(g: Guard, run: seq<Call>, key: string, a: nat, b: nat)
    requires g.limit > 0 && Orderly(g, run) && b <= a + WindowSec(g.ttl) * SECOND
    ensures Allowed(g, run, Between(key, a, b)) <= 2 * g.limit
  {
    hide Allowed, Kept, Orderly, WindowID;
    var id := WindowID(a, WindowSec(g.ttl));
    SplitBetween(g, run, key, a, b);
    WindowAdmits(g, run, key, id);
    WindowAdmits(g, run, key, id + 1);
  }

  /** The same by the guard's own time to live, where that is whole seconds. */
  lemma TwiceInTTL(g: Guard, run: seq<Call>, key: string, a: nat, b: nat)
    requires g.limit > 0 && g.ttl > 0 && g.ttl % 1_000_000_000 == 0 && Orderly(g, run) && b <= a + g.ttl
    ensures Allowed(g, run, Between(key, a, b)) <= 2 * g.limit
  {
    hide Allowed, Orderly, WindowSec;
    WindowFits(g.ttl);
    TwiceTheLimit(g, run, key, a, b);
  }

  /** Requests from one multiple of the time to live up to the next are admitted up to the limit and no more. */
  lemma WindowOfTTL(g: Guard, run: seq<Call>, key: string, id: nat)
    requires g.limit > 0 && g.ttl > 0 && g.ttl % 1_000_000_000 == 0 && Orderly(g, run)
    ensures var pick := Between(key, id * g.ttl, (id + 1) * g.ttl - 1);
            Allowed(g, run, pick) == if Count(g, run, pick) <= g.limit then Count(g, run, pick) else g.limit
  {
    hide Allowed, Orderly, WindowSec, Count;
    WindowFits(g.ttl);
    WindowAdmits(g, run, key, id);
    SamePicks(g, run, key, id);
  }

  lemma {:induction false} SamePicks(g: Guard, run: seq<Call>, key: string, id: nat)
    requires g.ttl > 0 && g.ttl % 1_000_000_000 == 0
    ensures var a, b := Window(key, id), Between(key, id * g.ttl, (id + 1) * g.ttl - 1);
            Count(g, run, a) == Count(g, run, b) && Allowed(g, run, a) == Allowed(g, run, b)
  {
    hide Allows, After;
    if run != [] {
      var c := run[|run| - 1];
      SamePicks(g, run[..|run| - 1], key, id);
      InWindow(g, c, id);
    }
  }

  lemma InWindow(g: Guard, c: Call, id: nat)
    requires g.ttl > 0 && g.ttl % 1_000_000_000 == 0
    ensures WindowID(c.now, WindowSec(g.ttl)) == id <==> id * g.ttl <= c.now < (id + 1) * g.ttl
  {
    var w := WindowSec(g.ttl);
    WindowFits(g.ttl);
    WindowBounds(c.now, w);
    var own := WindowID(c.now, w);
    assert own * w * SECOND == own * g.ttl && (own + 1) * w * SECOND == (own + 1) * g.ttl;
    if id < own {
      Ordered(id + 1, own, g.ttl);
    }
    if id > own {
      Ordered(own + 1, id, g.ttl);
    }
  }

  lemma Ordered(a: nat, b: nat, t: nat)
    requires a <= b
    ensures a * t <= b * t
  {
    assert b * t == a * t + (b - a) * t;
  }
}
