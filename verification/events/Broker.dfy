/** The in-memory broker: subscriptions in four buckets by the shape of their pattern. */
module Broker {
  import opened Collections
  import opened Patterns

  datatype Sub<H> = Sub(id: string, topic: string, pattern: Pattern, handler: H)

  datatype Group<H> = Group(pattern: Pattern, subsByID: map<string, Sub<H>>)

  datatype Status = Done | EmptyTopic | NilHandler | Closed | ForeignSubscription

  type Subs<H> = map<string, Sub<H>>

  /** What a caller hands to Unsubscribe: nothing, another implementation's value, or one of some broker's own. */
  datatype Handle<H> = NoSub | Alien | Issued(sub: Sub<H>, broker: MemoryBroker<H>)

  // ----- the buckets as a function of the live subscriptions

  /** Subscriptions under their own ids, each with the pattern of its topic. */
  predicate Registered<H>(live: Subs<H>) {
    forall id | id in live :: live[id].id == id && live[id].pattern == PatternOf(live[id].topic)
  }

  /** Where a subscription is filed within its kind. */
  function Key<H>(s: Sub<H>): string {
    if s.pattern.kind == SuffixWildcard then s.pattern.simplePrefix else s.topic
  }

  function Bucket<H>(live: Subs<H>, kind: Kind, key: string): Subs<H> {
    map id | id in live && live[id].pattern.kind == kind && Key(live[id]) == key :: live[id]
  }

  function OfKind<H>(live: Subs<H>, kind: Kind): Subs<H> {
    map id | id in live && live[id].pattern.kind == kind :: live[id]
  }

  function Keys<H>(live: Subs<H>, kind: Kind): set<string> {
    set id | id in live && live[id].pattern.kind == kind :: Key(live[id])
  }

  /** The buckets of one kind; there is one for every key in use and no other. */
  function Grouped<H>(live: Subs<H>, kind: Kind): map<string, Subs<H>> {
    map key | key in Keys(live, kind) :: Bucket(live, kind, key)
  }

  /** Complex buckets also keep their parsed pattern. */
  function WithPattern<H>(m: map<string, Subs<H>>): map<string, Group<H>> {
    map key | key in m :: Group(PatternOf(key), m[key])
  }

  /** Filing one more subscription, with a bucket made on demand. */
  function Filed<H>(m: map<string, Subs<H>>, key: string, s: Sub<H>): map<string, Subs<H>> {
    m[key := (if key in m then m[key] else map[])[s.id := s]]
  }

  /** Taking one out, dropping a bucket that becomes empty. */
  function Pulled<H>(m: map<string, Subs<H>>, key: string, id: string): map<string, Subs<H>> {
    if key !in m then m
    else if m[key] - {id} == map[] then m - {key}
    else m[key := m[key] - {id}]
  }

  lemma KeyInUse<H>(live: Subs<H>, kind: Kind, key: string)
    ensures key in Keys(live, kind) <==> Bucket(live, kind, key) != map[]
  {
    if key in Keys(live, kind) {
      var id :| id in live && live[id].pattern.kind == kind && Key(live[id]) == key;
      assert id in Bucket(live, kind, key);
    }
    if Bucket(live, kind, key) != map[] {
      var id :| id in Bucket(live, kind, key);
    }
  }

  lemma BucketAfterAdding<H>(live: Subs<H>, s: Sub<H>, kind: Kind, key: string)
    requires s.id !in live
    ensures Bucket(live[s.id := s], kind, key)
         == if s.pattern.kind == kind && Key(s) == key then Bucket(live, kind, key)[s.id := s]
           else Bucket(live, kind, key)
  {
  }

  lemma GroupedAfterAdding<H>(live: Subs<H>, s: Sub<H>, kind: Kind)
    requires s.id !in live
    ensures Grouped(live[s.id := s], kind)
         == if s.pattern.kind == kind then Filed(Grouped(live, kind), Key(s), s) else Grouped(live, kind)
  {
    var a, b := Grouped(live[s.id := s], kind),
                if s.pattern.kind == kind then Filed(Grouped(live, kind), Key(s), s) else Grouped(live, kind);
    forall key ensures key in a <==> key in b
               ensures key in a ==> a[key] == b[key] {
      hide Bucket, Keys, Key;
      BucketAfterAdding(live, s, kind, key);
      KeyInUse(live, kind, key);
      KeyInUse(live[s.id := s], kind, key);
      assert s.id in Bucket(live, kind, key)[s.id := s];
    }
  }

  lemma BucketAfterRemoving<H>(live: Subs<H>, id: string, kind: Kind, key: string)
    ensures Bucket(live - {id}, kind, key) == Bucket(live, kind, key) - {id}
    ensures id in Bucket(live, kind, key) ==> id in live && live[id].pattern.kind == kind && Key(live[id]) == key
  {
  }

  lemma GroupedAfterRemoving<H>(live: Subs<H>, s: Sub<H>, kind: Kind)
    requires s.id in live ==> live[s.id] == s
    ensures Grouped(live - {s.id}, kind)
         == if s.pattern.kind == kind then Pulled(Grouped(live, kind), Key(s), s.id) else Grouped(live, kind)
  {
    var a, b := Grouped(live - {s.id}, kind),
                if s.pattern.kind == kind then Pulled(Grouped(live, kind), Key(s), s.id) else Grouped(live, kind);
    forall key ensures key in a <==> key in b
               ensures key in a ==> a[key] == b[key] {
      hide Bucket, Keys, Key;
      BucketAfterRemoving(live, s.id, kind, key);
      KeyInUse(live, kind, key);
      KeyInUse(live - {s.id}, kind, key);
      var before := Bucket(live, kind, key);
      assert before == map[] ==> before - {s.id} == map[];
      if !(s.pattern.kind == kind && Key(s) == key) {
        assert before - {s.id} == before;
      }
    }
  }

  lemma NoEmptyBucket<H>(live: Subs<H>, kind: Kind)
    ensures forall key | key in Grouped(live, kind) :: Grouped(live, kind)[key] != map[]
  {
    hide Bucket, Keys, Key;
    forall key | key in Grouped(live, kind) ensures Grouped(live, kind)[key] != map[] {
      KeyInUse(live, kind, key);
    }
  }

  /** Filing a new subscription and taking it out again leaves the buckets as they were, key for key. */
  lemma FiledThenPulled<H>(live: Subs<H>, s: Sub<H>, kind: Kind)
    requires s.id !in live
    ensures var m := Grouped(live, kind);
            Pulled(Filed(m, Key(s), s), Key(s), s.id) == m
  {
    hide Key;
    var m, key := Grouped(live, kind), Key(s);
    NoEmptyBucket(live, kind);
    if key in m {
      assert m[key][s.id := s] - {s.id} == m[key];
    } else {
      assert map[s.id := s] - {s.id} == map[];
      assert m[key := map[s.id := s]] - {key} == m;
    }
  }

  lemma OfKindAfter<H>(live: Subs<H>, s: Sub<H>, kind: Kind)
    ensures s.id !in live ==>
              OfKind(live[s.id := s], kind)
              == if s.pattern.kind == kind then OfKind(live, kind)[s.id := s] else OfKind(live, kind)
    ensures (s.id in live ==> live[s.id] == s) ==>
              OfKind(live - {s.id}, kind)
              == if s.pattern.kind == kind then OfKind(live, kind) - {s.id} else OfKind(live, kind)
  {
  }

  // ----- what a publication collects

  function Matching<H>(live: Subs<H>, topic: string): Subs<H> {
    map id | id in live && Accepts(live[id].topic, topic) :: live[id]
  }

  /** The handlers of exactly these subscriptions, each once. */
  ghost predicate Collects<H>(handlers: seq<H>, ids: seq<string>, subs: Subs<H>) {
    && Distinct(ids) && Elements(ids) == subs.Keys && |ids| == |handlers|
    && forall k, id | 0 <= k < |ids| && id == ids[k] :: id in subs && handlers[k] == subs[id].handler
  }

  ghost predicate CollectsOnce<H>(handlers: seq<H>, subs: Subs<H>) {
    exists ids :: Collects(handlers, ids, subs)
  }

  lemma CollectsBoth<H>(h: seq<H>, i: seq<string>, m: Subs<H>, h': seq<H>, i': seq<string>, m': Subs<H>)
    requires Collects(h, i, m) && Collects(h', i', m') && m.Keys !! m'.Keys
    ensures Collects(h + h', i + i', m + m')
  {
    var ids := i + i';
    forall a, b | 0 <= a < b < |ids| ensures ids[a] != ids[b] {
      if a < |i| <= b {
        assert ids[a] in Elements(i) && ids[b] in Elements(i');
      }
    }
    forall id ensures id in Elements(ids) <==> id in (m + m').Keys {
      assert id in Elements(ids) <==> id in Elements(i) || id in Elements(i');
    }
  }

  lemma DisjointSize<H>(m: Subs<H>, m': Subs<H>)
    requires m.Keys !! m'.Keys
    ensures |m + m'| == |m| + |m'|
  {
    assert (m + m').Keys == m.Keys + m'.Keys;
    assert |m.Keys + m'.Keys| == |m.Keys| + |m'.Keys|;
    assert |(m + m').Keys| == |m + m'| && |m.Keys| == |m| && |m'.Keys| == |m'|;
  }

  method Gather<H>(subs: Subs<H>) returns (handlers: seq<H>, ghost ids: seq<string>)
    ensures Collects(handlers, ids, subs)
  {
    var keys := List(subs.Keys);
    handlers := [];
    for n := 0 to |keys|
      invariant |handlers| == n
      invariant forall k, id | 0 <= k < n && id == keys[k] :: id in subs && handlers[k] == subs[id].handler
    {
      assert keys[n] in Elements(keys);
      handlers := handlers + [subs[keys[n]].handler];
    }
    ids := keys;
  }

  /** Suffix patterns whose prefix, of length i or more, is followed by a dot in the topic. */
  function SuffixFrom<H>(live: Subs<H>, topic: string, i: nat): Subs<H> {
    map id | id in live && live[id].pattern.kind == SuffixWildcard
          && i <= |live[id].pattern.simplePrefix| && live[id].pattern.simplePrefix + [SEP] <= topic :: live[id]
  }

  lemma SuffixStep<H>(live: Subs<H>, topic: string, i: nat)
    requires i < |topic|
    ensures SuffixFrom(live, topic, i)
         == SuffixFrom(live, topic, i + 1) + if topic[i] == SEP then Bucket(live, SuffixWildcard, topic[..i]) else map[]
    ensures topic[i] == SEP ==> SuffixFrom(live, topic, i + 1).Keys !! Bucket(live, SuffixWildcard, topic[..i]).Keys
  {
    forall id | id in live ensures
      var p := live[id].pattern.simplePrefix;
      |p| == i && p + [SEP] <= topic <==> topic[i] == SEP && p == topic[..i] {
      var p := live[id].pattern.simplePrefix;
      if |p| == i && p + [SEP] <= topic {
        assert topic[i] == (p + [SEP])[i];
        assert p == (p + [SEP])[..i];
      }
    }
  }

  lemma SuffixStepSize<H>(live: Subs<H>, topic: string, i: nat)
    requires i < |topic|
    ensures |SuffixFrom(live, topic, i)|
         == |SuffixFrom(live, topic, i + 1)| + if topic[i] == SEP then |Bucket(live, SuffixWildcard, topic[..i])| else 0
  {
    hide SuffixFrom, Bucket;
    SuffixStep(live, topic, i);
    var rest := SuffixFrom(live, topic, i + 1);
    if topic[i] == SEP {
      DisjointSize(rest, Bucket(live, SuffixWildcard, topic[..i]));
    } else {
      assert rest + map[] == rest;
    }
  }

  function ComplexAmong<H>(live: Subs<H>, topics: set<string>): Subs<H> {
    map id | id in live && live[id].pattern.kind == Complex && live[id].topic in topics :: live[id]
  }

  lemma ComplexStep<H>(live: Subs<H>, topics: set<string>, t: string)
    requires t !in topics
    ensures ComplexAmong(live, topics + {t}) == ComplexAmong(live, topics) + Bucket(live, Complex, t)
    ensures ComplexAmong(live, topics).Keys !! Bucket(live, Complex, t).Keys
  {
  }

  lemma ComplexStepSize<H>(live: Subs<H>, order: seq<string>, t: string)
    requires t !in order
    ensures |ComplexAmong(live, Elements(order + [t]))|
         == |ComplexAmong(live, Elements(order))| + |Bucket(live, Complex, t)|
  {
    hide ComplexAmong, Bucket;
    assert Elements(order + [t]) == Elements(order) + {t};
    ComplexStep(live, Elements(order), t);
    DisjointSize(ComplexAmong(live, Elements(order)), Bucket(live, Complex, t));
  }

  /** A subscription is in one part at most: the one of its kind. */
  lemma PartOf<H>(live: Subs<H>, topic: string, topics: set<string>, id: string)
    ensures id in Bucket(live, Exact, topic) <==> id in live && live[id].pattern.kind == Exact && Key(live[id]) == topic
    ensures id in SuffixFrom(live, topic, 0) <==>
              id in live && live[id].pattern.kind == SuffixWildcard && live[id].pattern.simplePrefix + [SEP] <= topic
    ensures id in OfKind(live, Global) <==> id in live && live[id].pattern.kind == Global
    ensures id in ComplexAmong(live, topics)
            <==> id in live && live[id].pattern.kind == Complex && live[id].topic in topics
    ensures id in Bucket(live, Exact, topic) ==> Bucket(live, Exact, topic)[id] == live[id]
    ensures id in SuffixFrom(live, topic, 0) ==> SuffixFrom(live, topic, 0)[id] == live[id]
    ensures id in OfKind(live, Global) ==> OfKind(live, Global)[id] == live[id]
    ensures id in ComplexAmong(live, topics) ==> ComplexAmong(live, topics)[id] == live[id]
  {
    hide Accepts, KindOf, PrefixOf;
  }

  lemma PlacedByKind<H>(live: Subs<H>, topic: string, topics: set<string>, id: string)
    requires Registered(live) && id in live
    requires forall t :: t in topics <==> t in Keys(live, Complex) && Accepts(t, topic)
    ensures Accepts(live[id].topic, topic) <==>
              match live[id].pattern.kind
              case Exact => Key(live[id]) == topic
              case SuffixWildcard => live[id].pattern.simplePrefix + [SEP] <= topic
              case Global => true
              case Complex => live[id].topic in topics
  {
    hide Accepts, KindOf, PrefixOf;
    var s := live[id];
    match s.pattern.kind
    case Exact => ExactMeaning(s.topic, topic);
    case SuffixWildcard => SuffixMeaning(s.topic, topic);
    case Global => GlobalIsWild(s.topic); GlobalMeaning(topic);
    case Complex => assert Key(s) in Keys(live, Complex);
  }

  /** The four kinds together are what matches, and no subscription is in two of them. */
  lemma FourParts<H>(live: Subs<H>, topic: string, topics: set<string>)
    requires Registered(live)
    requires forall t :: t in topics <==> t in Keys(live, Complex) && Accepts(t, topic)
    ensures var e, p, g, c := Bucket(live, Exact, topic), SuffixFrom(live, topic, 0),
            OfKind(live, Global), ComplexAmong(live, topics);
            && Matching(live, topic) == e + p + g + c
            && e.Keys !! p.Keys && (e + p).Keys !! g.Keys && (e + p + g).Keys !! c.Keys
  {
    hide Bucket, SuffixFrom, OfKind, ComplexAmong, Accepts, Registered, Keys, Key;
    var e, p, g, c := Bucket(live, Exact, topic), SuffixFrom(live, topic, 0),
      OfKind(live, Global), ComplexAmong(live, topics);
    forall id
      ensures id in Matching(live, topic) <==> id in e || id in p || id in g || id in c
      ensures id in e ==> e[id] == live[id] && id !in p && id !in g && id !in c
      ensures id in p ==> p[id] == live[id] && id !in g && id !in c
      ensures id in g ==> g[id] == live[id] && id !in c
      ensures id in c ==> c[id] == live[id]
    {
      PartOf(live, topic, topics, id);
      if id in live {
        PlacedByKind(live, topic, topics, id);
      }
    }
    assert Matching(live, topic) == e + p + g + c;
  }

  /** What a change of the live subscriptions does to the buckets of every kind. */
  ghost predicate Moved<H>(live: Subs<H>, after: Subs<H>, s: Sub<H>,
                           change: (map<string, Subs<H>>) -> map<string, Subs<H>>,
                           changeGlobal: Subs<H> -> Subs<H>) {
    && Grouped(after, Exact) == (if s.pattern.kind == Exact then change(Grouped(live, Exact)) else Grouped(live, Exact))
    && Grouped(after, SuffixWildcard)
       == (if s.pattern.kind == SuffixWildcard then change(Grouped(live, SuffixWildcard))
         else Grouped(live, SuffixWildcard))
    && Grouped(after, Complex)
       == (if s.pattern.kind == Complex then change(Grouped(live, Complex)) else Grouped(live, Complex))
    && OfKind(after, Global)
       == (if s.pattern.kind == Global then changeGlobal(OfKind(live, Global)) else OfKind(live, Global))
  }

  lemma FiledEverywhere<H>(live: Subs<H>, s: Sub<H>)
    requires s.id !in live
    ensures Moved(live, live[s.id := s], s, m => Filed(m, Key(s), s), m => m[s.id := s])
  {
    hide Grouped, OfKind, Filed, Key;
    GroupedAfterAdding(live, s, Exact);
    GroupedAfterAdding(live, s, SuffixWildcard);
    GroupedAfterAdding(live, s, Complex);
    OfKindAfter(live, s, Global);
  }

  lemma PulledEverywhere<H>(live: Subs<H>, s: Sub<H>)
    requires s.id in live ==> live[s.id] == s
    ensures Moved(live, live - {s.id}, s, m => Pulled(m, Key(s), s.id), (m: Subs<H>) => m - {s.id})
  {
    hide Grouped, OfKind, Pulled, Key;
    GroupedAfterRemoving(live, s, Exact);
    GroupedAfterRemoving(live, s, SuffixWildcard);
    GroupedAfterRemoving(live, s, Complex);
    OfKindAfter(live, s, Global);
  }

  // ----- one bucket map

  method FileIn<H>(m: map<string, Subs<H>>, key: string, s: Sub<H>) returns (r: map<string, Subs<H>>)
    ensures r == Filed(m, key, s)
  {
    r := m;
    if key !in r {
      r := r[key := map[]];
    }
    r := r[key := r[key][s.id := s]];
  }

  method FileInGroup<H>(m: map<string, Group<H>>, s: Sub<H>, ghost g: map<string, Subs<H>>)
    returns (r: map<string, Group<H>>)
    requires m == WithPattern(g) && s.pattern == PatternOf(s.topic)
    ensures r == WithPattern(Filed(g, s.topic, s))
  {
    hide PatternOf;
    r := m;
    if s.topic !in r {
      r := r[s.topic := Group(s.pattern, map[])];
    }
    var cg := r[s.topic];
    r := r[s.topic := cg.(subsByID := cg.subsByID[s.id := s])];
  }

  method PullFrom<H>(m: map<string, Subs<H>>, key: string, id: string) returns (r: map<string, Subs<H>>)
    ensures r == Pulled(m, key, id)
  {
    r := m;
    if key in r {
      r := r[key := r[key] - {id}];
      if r[key] == map[] {
        r := r - {key};
      }
    }
  }

  method PullFromGroup<H>(m: map<string, Group<H>>, key: string, id: string, ghost g: map<string, Subs<H>>)
      returns (r: map<string, Group<H>>)
    requires m == WithPattern(g)
    ensures r == WithPattern(Pulled(g, key, id))
  {
    hide PatternOf;
    r := m;
    if key in r {
      var cg := r[key];
      r := r[key := cg.(subsByID := cg.subsByID - {id})];
      if r[key].subsByID == map[] {
        r := r - {key};
      }
    }
  }

  lemma BucketOrNone<H>(live: Subs<H>, kind: Kind, key: string)
    ensures Bucket(live, kind, key) == if key in Grouped(live, kind) then Grouped(live, kind)[key] else map[]
  {
    hide Bucket, Keys;
    KeyInUse(live, kind, key);
  }

  lemma SuffixNone<H>(live: Subs<H>, topic: string)
    ensures SuffixFrom(live, topic, |topic|) == map[]
  {
  }

  lemma ComplexNone<H>(live: Subs<H>)
    ensures ComplexAmong(live, {}) == map[] && InOrder([], [], live)
  {
  }

  lemma NothingToCollect<H>()
    ensures Collects<H>([], [], map[]) && CollectsOnce<H>([], map[])
  {
    assert Collects<H>([], [], map[]);
  }

  lemma FourSizes<H>(live: Subs<H>, topic: string, topics: set<string>)
    requires Registered(live)
    requires forall t :: t in topics <==> t in Keys(live, Complex) && Accepts(t, topic)
    ensures |Matching(live, topic)|
         == |Bucket(live, Exact, topic)| + |SuffixFrom(live, topic, 0)| + |OfKind(live, Global)|
           + |ComplexAmong(live, topics)|
  {
    hide Bucket, SuffixFrom, OfKind, ComplexAmong, Accepts, Registered, Keys, Key, Matching;
    FourParts(live, topic, topics);
    var e, p, g, c := Bucket(live, Exact, topic), SuffixFrom(live, topic, 0),
      OfKind(live, Global), ComplexAmong(live, topics);
    DisjointSize(e, p);
    DisjointSize(e + p, g);
    DisjointSize(e + p + g, c);
  }

  /** The complex buckets of some topics, in the same order. */
  ghost predicate InOrder<H>(matched: seq<Group<H>>, order: seq<string>, live: Subs<H>) {
    && |matched| == |order|
    && forall i, t | 0 <= i < |order| && t == order[i] :: matched[i] == Group(PatternOf(t), Bucket(live, Complex, t))
  }

  lemma NextInOrder<H>(matched: seq<Group<H>>, order: seq<string>, live: Subs<H>, t: string)
    requires InOrder(matched, order, live)
    ensures InOrder(matched + [Group(PatternOf(t), Bucket(live, Complex, t))], order + [t], live)
  {
    hide PatternOf, Bucket;
  }

  /** A complex group's matcher decides the meaning of its topic. */
  lemma GroupRefuses<H>(live: Subs<H>, t: string, topic: string)
    requires Registered(live) && t in Keys(live, Complex)
    ensures PatternOf(t).raw == t && !BarePrefix(t, topic)
  {
  }

  class MemoryBroker<H> {
    var exactByTopic: map<string, Subs<H>>
    var prefixByPrefix: map<string, Subs<H>>
    var globalByID: Subs<H>
    var complexByTopic: map<string, Group<H>>
    var closed: bool
    /** The subscriptions that were made and not withdrawn. */
    ghost var live: Subs<H>

    /** The buckets hold exactly the live subscriptions, each where its pattern files it, and no bucket is empty. */
    ghost predicate Valid()
      reads this
    {
      && Registered(live)
      && exactByTopic == Grouped(live, Exact)
      && prefixByPrefix == Grouped(live, SuffixWildcard)
      && globalByID == OfKind(live, Global)
      && complexByTopic == WithPattern(Grouped(live, Complex))
      && (closed ==> live == map[])
    }

    constructor ()
      ensures Valid() && live == map[] && !closed
    {
      exactByTopic, prefixByPrefix, globalByID, complexByTopic := map[], map[], map[], map[];
      closed, live := false, map[];
    }

    /** A fresh id is a parameter; the handler may be missing. */
    method Subscribe(topic: string, handler: Option<H>, id: string) returns (status: Status, handle: Handle<H>)
      requires Valid() && id !in live
      modifies this
      ensures Valid() && closed == old(closed)
      ensures status == (if topic == "" then EmptyTopic else if handler.None? then NilHandler
                         else if closed then Closed else Done)
      ensures status != Done ==> live == old(live) && handle == NoSub
      ensures status == Done ==>
                && live == old(live)[id := Sub(id, topic, PatternOf(topic), handler.value)]
                && handle == Issued(live[id], this)
    {
      hide Grouped, Bucket, Keys, OfKind, PatternOf, MemoryBroker.Valid;
      if topic == "" {
        return EmptyTopic, NoSub;
      }
      if handler.None? {
        return NilHandler, NoSub;
      }
      if closed {
        return Closed, NoSub;
      }
      var pat := NewPattern(topic);
      var sub := Sub(id, topic, pat, handler.value);
      File(sub);
      return Done, Issued(sub, this);
    }

    method File(sub: Sub<H>)
      requires Valid() && sub.id !in live && sub.pattern == PatternOf(sub.topic) && !closed
      modifies this
      ensures Valid() && closed == old(closed) && live == old(live)[sub.id := sub]
    {
      hide Grouped, OfKind, PatternOf, Filed, WithPattern;
      FiledEverywhere(live, sub);
      match sub.pattern.kind {
        case Global =>
          globalByID := globalByID[sub.id := sub];
        case SuffixWildcard =>
          prefixByPrefix := FileIn(prefixByPrefix, sub.pattern.simplePrefix, sub);
        case Exact =>
          exactByTopic := FileIn(exactByTopic, sub.topic, sub);
        case Complex =>
          complexByTopic := FileInGroup(complexByTopic, sub, Grouped(live, Complex));
      }
      live := live[sub.id := sub];
    }

    method Unsubscribe(handle: Handle<H>) returns (status: Status)
      requires Valid()
      requires handle.Issued? && handle.broker == this && handle.sub.id in live ==> live[handle.sub.id] == handle.sub
      modifies this
      ensures Valid() && closed == old(closed)
      ensures status == (match handle
                         case NoSub => Done
                         case Alien => if closed then Closed else Done
                         case Issued(_, b) =>
                           if closed then Closed else if b != this then ForeignSubscription else Done)
      ensures live == if handle.Issued? && handle.broker == this && !closed then old(live) - {handle.sub.id}
                      else old(live)
    {
      hide Grouped, Bucket, Keys, OfKind, PatternOf, MemoryBroker.Valid;
      match handle
      case NoSub =>
        return Done;
      case Alien =>
        return if closed then Closed else Done;
      case Issued(s, b) =>
        if b != this {
          return if closed then Closed else ForeignSubscription;
        }
        if closed {
          return Closed;
        }
        RemoveFromBucket(s);
        return Done;
    }

    method RemoveFromBucket(sub: Sub<H>)
      requires Valid() && (sub.id in live ==> live[sub.id] == sub)
      modifies this
      ensures Valid() && closed == old(closed) && live == old(live) - {sub.id}
    {
      hide Grouped, OfKind, PatternOf, Pulled, WithPattern;
      PulledEverywhere(live, sub);
      match sub.pattern.kind {
        case Global =>
          globalByID := globalByID - {sub.id};
        case SuffixWildcard =>
          prefixByPrefix := PullFrom(prefixByPrefix, sub.pattern.simplePrefix, sub.id);
        case Exact =>
          exactByTopic := PullFrom(exactByTopic, sub.topic, sub.id);
        case Complex =>
          complexByTopic := PullFromGroup(complexByTopic, sub.topic, sub.id, Grouped(live, Complex));
      }
      live := live - {sub.id};
    }

    method PublishInternal(topic: string) returns (handlers: seq<H>)
      requires Valid()
      ensures CollectsOnce(handlers, Matching(live, topic))
    {
      hide Grouped, Bucket, Keys, OfKind, SuffixFrom, ComplexAmong, Matching, Collects, Accepts;
      var exact := if topic in exactByTopic then exactByTopic[topic] else map[];
      assert exact == Bucket(live, Exact, topic) by { BucketOrNone(live, Exact, topic); }
      var n := CountPrefixes(topic);
      var matched, m, order := MatchGroups(topic);
      ghost var topics := Elements(order);
      FourSizes(live, topic, topics);
      if |exact| + |globalByID| + n + m == 0 {
        assert Matching(live, topic) == map[];
        NothingToCollect<H>();
        return [];
      }
      ghost var ids;
      handlers, ids := Gather(exact);
      var more, moreIds := GatherPrefixes(topic);
      FourParts(live, topic, topics);
      CollectsBoth(handlers, ids, exact, more, moreIds, SuffixFrom(live, topic, 0));
      handlers, ids := handlers + more, ids + moreIds;
      ghost var soFar := exact + SuffixFrom(live, topic, 0);
      more, moreIds := Gather(globalByID);
      CollectsBoth(handlers, ids, soFar, more, moreIds, globalByID);
      handlers, ids := handlers + more, ids + moreIds;
      soFar := soFar + globalByID;
      more, moreIds := GatherGroups(matched, order);
      CollectsBoth(handlers, ids, soFar, more, moreIds, ComplexAmong(live, topics));
      handlers, ids := handlers + more, ids + moreIds;
    }

    method CountPrefixes(topic: string) returns (n: nat)
      requires Valid()
      ensures n == |SuffixFrom(live, topic, 0)|
    {
      hide Grouped, Bucket, Keys, OfKind, SuffixFrom, Registered, WithPattern;
      n := 0;
      SuffixNone(live, topic);
      for i := |topic| downto 0
        invariant n == |SuffixFrom(live, topic, i)|
      {
        SuffixStepSize(live, topic, i);
        if topic[i] == SEP {
          var prefix := topic[..i];
          BucketOrNone(live, SuffixWildcard, prefix);
          n := n + if prefix in prefixByPrefix then |prefixByPrefix[prefix]| else 0;
        }
      }
    }

    method GatherPrefixes(topic: string) returns (handlers: seq<H>, ghost ids: seq<string>)
      requires Valid()
      ensures Collects(handlers, ids, SuffixFrom(live, topic, 0))
    {
      hide Grouped, Bucket, Keys, OfKind, SuffixFrom, Collects;
      handlers, ids := [], [];
      SuffixNone(live, topic);
      NothingToCollect<H>();
      for i := |topic| downto 0
        invariant Collects(handlers, ids, SuffixFrom(live, topic, i))
      {
        SuffixStep(live, topic, i);
        if topic[i] == SEP {
          BucketOrNone(live, SuffixWildcard, topic[..i]);
          var subs := if topic[..i] in prefixByPrefix then prefixByPrefix[topic[..i]] else map[];
          var more, moreIds := Gather(subs);
          CollectsBoth(handlers, ids, SuffixFrom(live, topic, i + 1), more, moreIds, subs);
          handlers, ids := handlers + more, ids + moreIds;
        } else {
          assert SuffixFrom(live, topic, i + 1) + map[] == SuffixFrom(live, topic, i + 1);
        }
      }
    }

    /** The complex groups whose pattern matches, in any order, and how many subscriptions they hold. */
    method MatchGroups(topic: string) returns (matched: seq<Group<H>>, m: nat, ghost order: seq<string>)
      requires Valid()
      ensures forall t :: t in Elements(order) <==> t in Keys(live, Complex) && Accepts(t, topic)
      ensures Distinct(order) && InOrder(matched, order, live) && m == |ComplexAmong(live, Elements(order))|
    {
      hide Bucket, Keys, OfKind, ComplexAmong, Accepts, PatternOf, InOrder;
      var keys := List(complexByTopic.Keys);
      matched, m, order := [], 0, [];
      ComplexNone(live);
      assert Elements(order) == {};
      for i := 0 to |keys|
        invariant forall t :: t in order <==> t in keys[..i] && Accepts(t, topic)
        invariant Distinct(order) && InOrder(matched, order, live) && m == |ComplexAmong(live, Elements(order))|
      {
        var t := keys[i];
        assert t in Elements(keys);
        var cg := complexByTopic[t];
        GroupRefuses(live, t, topic);
        var ok := Match(cg.pattern, topic);
        assert keys[..i + 1] == keys[..i] + [t] && t !in keys[..i];
        if ok {
          ComplexStepSize(live, order, t);
          NextInOrder(matched, order, live, t);
          matched, m, order := matched + [cg], m + |cg.subsByID|, order + [t];
        }
      }
      assert keys[..|keys|] == keys;
      forall t ensures t in Elements(order) <==> t in Keys(live, Complex) && Accepts(t, topic) {
        assert t in Elements(keys) <==> t in Keys(live, Complex);
      }
    }

    method GatherGroups(matched: seq<Group<H>>, ghost order: seq<string>)
      returns (handlers: seq<H>, ghost ids: seq<string>)
      requires Distinct(order) && InOrder(matched, order, live)
      ensures Collects(handlers, ids, ComplexAmong(live, Elements(order)))
    {
      hide Bucket, ComplexAmong, Collects, PatternOf;
      handlers, ids := [], [];
      ComplexNone(live);
      assert Elements(order[..0]) == {};
      NothingToCollect<H>();
      for i := 0 to |matched|
        invariant Collects(handlers, ids, ComplexAmong(live, Elements(order[..i])))
      {
        ghost var t := order[i];
        var more, moreIds := Gather(matched[i].subsByID);
        assert order[..i + 1] == order[..i] + [t] && t !in order[..i];
        assert Elements(order[..i + 1]) == Elements(order[..i]) + {t};
        ComplexStep(live, Elements(order[..i]), t);
        CollectsBoth(handlers, ids, ComplexAmong(live, Elements(order[..i])), more, moreIds, matched[i].subsByID);
        handlers, ids := handlers + more, ids + moreIds;
      }
      assert order[..|order|] == order;
    }

    /** Refuses an empty topic and a closed broker; otherwise every matching handler is called. */
    method Publish(topic: string) returns (status: Status, handlers: seq<H>)
      requires Valid()
      ensures status == if topic == "" then EmptyTopic else if closed then Closed else Done
      ensures CollectsOnce(handlers, if status == Done then Matching(live, topic) else map[])
    {
      hide Matching, CollectsOnce;
      NothingToCollect<H>();
      if topic == "" {
        return EmptyTopic, [];
      }
      if closed {
        return Closed, [];
      }
      status := Done;
      handlers := PublishInternal(topic);
    }

    /** With no publication in flight; closing twice changes nothing. */
    method Close()
      requires Valid()
      modifies this
      ensures Valid() && closed && live == map[]
    {
      if closed {
        return;
      }
      closed := true;
      exactByTopic, prefixByPrefix, globalByID, complexByTopic := map[], map[], map[], map[];
      live := map[];
    }
  }
}
