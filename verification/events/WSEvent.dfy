/** The WebSocket event table: which registered pattern serves a topic. */
module WSEvents {
  import opened Collections
  import opened Patterns

  datatype Item<H> = Item(handler: Option<H>, middlewares: seq<H>)

  type Items<H> = map<string, Item<H>>

  predicate Handled<H>(items: Items<H>, raw: string) {
    raw in items && items[raw].handler.Some?
  }

  /** A registered pattern with a handler that means the topic. */
  predicate Serves<H>(items: Items<H>, raw: string, topic: string) {
    Handled(items, raw) && Accepts(raw, topic)
  }

  // ----- what the index holds for a list of patterns in the order they were first added

  function Globals(order: seq<string>): string {
    if WILD in order then WILD else ""
  }

  function Prefixes(order: seq<string>): map<string, string> {
    if order == [] then map[] else
    var n := |order| - 1;
    var m := Prefixes(order[..n]);
    if KindOf(order[n]) == SuffixWildcard then m[PrefixOf(order[n]) := order[n]] else m
  }

  function Complexes(order: seq<string>): seq<Pattern> {
    if order == [] then [] else
    var n := |order| - 1;
    Complexes(order[..n]) + if KindOf(order[n]) == Complex then [PatternOf(order[n])] else []
  }

  lemma OneMore(order: seq<string>, raw: string)
    ensures Globals(order + [raw]) == if raw == WILD then WILD else Globals(order)
    ensures Prefixes(order + [raw])
         == if KindOf(raw) == SuffixWildcard then Prefixes(order)[PrefixOf(raw) := raw] else Prefixes(order)
    ensures Complexes(order + [raw]) == Complexes(order) + if KindOf(raw) == Complex then [PatternOf(raw)] else []
  {
    hide KindOf, PrefixOf, Split;
    assert (order + [raw])[..|order|] == order;
  }

  /** The prefix index finds exactly the suffix patterns that were added. */
  lemma {:induction false} PrefixIndexed(order: seq<string>, prefix: string)
    ensures prefix in Prefixes(order) <==>
              var raw := prefix + [SEP] + WILD; raw in order && KindOf(raw) == SuffixWildcard
    ensures prefix in Prefixes(order) ==> Prefixes(order)[prefix] == prefix + [SEP] + WILD
  {
    hide KindOf, PrefixOf;
    if order != [] {
      var n := |order| - 1;
      var raw := prefix + [SEP] + WILD;
      PrefixIndexed(order[..n], prefix);
      assert raw in order <==> raw in order[..n] || raw == order[n];
      if KindOf(order[n]) == SuffixWildcard {
        SuffixShape(order[n]);
      }
      if KindOf(raw) == SuffixWildcard {
        SuffixShape(raw);
        assert |PrefixOf(raw)| == |prefix|;
        assert raw[..|prefix|] == prefix && raw[..|prefix|] == PrefixOf(raw);
      }
    }
  }

  /** The complex list holds exactly the complex patterns. */
  lemma {:induction false} ComplexListed(order: seq<string>)
    ensures forall p | p in Complexes(order) :: p == PatternOf(p.raw) && p.raw in order && KindOf(p.raw) == Complex
    ensures forall raw | raw in order && KindOf(raw) == Complex :: PatternOf(raw) in Complexes(order)
  {
    hide KindOf, PrefixOf, Split;
    if order != [] {
      var n := |order| - 1;
      ComplexListed(order[..n]);
      assert forall raw :: raw in order <==> raw in order[..n] || raw == order[n];
    }
  }

  /** p is listed before q. */
  predicate Before(order: seq<string>, p: string, q: string) {
    exists i, j :: 0 <= i < j < |order| && order[i] == p && order[j] == q
  }

  /** The complex list keeps the order of registration. */
  lemma {:induction false} ComplexOrder(order: seq<string>, i: nat, j: nat)
    requires i < j < |Complexes(order)|
    ensures Before(order, Complexes(order)[i].raw, Complexes(order)[j].raw)
  {
    hide KindOf, PrefixOf, Split;
    var n := |order| - 1;
    var front := order[..n];
    var p, q := Complexes(order)[i].raw, Complexes(order)[j].raw;
    if j < |Complexes(front)| {
      ComplexOrder(front, i, j);
      var a, b :| 0 <= a < b < |front| && front[a] == p && front[b] == q;
      assert order[a] == p && order[b] == q;
    } else {
      ComplexListed(front);
      assert Complexes(order)[i] in Complexes(front);
      var a :| 0 <= a < |front| && front[a] == p;
      assert order[a] == p && order[n] == q;
    }
  }

  // ----- preference

  /** The topic itself first, then suffix patterns, then complex ones, then the global one. */
  function Tier(raw: string, topic: string): nat {
    if raw == topic then 0
    else match KindOf(raw) case SuffixWildcard => 1 case Complex => 2 case _ => 3
  }

  /** Within a tier the longer prefix, and the complex pattern added earlier. */
  predicate Preferred(order: seq<string>, p: string, q: string, topic: string) {
    || Tier(p, topic) < Tier(q, topic)
    || (Tier(p, topic) == Tier(q, topic) == 1 && |p| > |q|)
    || (Tier(p, topic) == Tier(q, topic) == 2 && Before(order, p, q))
  }

  /** Serves the topic and is preferred to everything else that does. */
  predicate Best<H>(items: Items<H>, order: seq<string>, p: string, topic: string) {
    && Serves(items, p, topic)
    && forall q | q in items && Serves(items, q, topic) && q != p :: Preferred(order, p, q, topic)
  }

  /** The preference is strict on distinct registrations, so there is at most one best pattern. */
  lemma PreferredIsStrict(order: seq<string>, p: string, q: string, topic: string)
    requires Distinct(order) && Preferred(order, p, q, topic)
    ensures !Preferred(order, q, p, topic)
  {
  }

  lemma BestIsUnique<H>(items: Items<H>, order: seq<string>, p: string, q: string, topic: string)
    requires Distinct(order) && Best(items, order, p, topic) && Best(items, order, q, topic)
    ensures p == q
  {
    hide Preferred, Accepts;
    if p != q {
      PreferredIsStrict(order, p, q, topic);
    }
  }

  predicate IsSuffix(raw: string) {
    KindOf(raw) == SuffixWildcard
  }

  /**
   * The best pattern is the topic's own if that has a handler, else the longest suffix pattern,
   * else the complex one that was registered first, else the global one.
   */
  lemma BestMeans<H>(items: Items<H>, order: seq<string>, p: string, topic: string)
    requires Distinct(order) && forall q | q in items :: q in order
    ensures Best(items, order, p, topic) <==>
              && Handled(items, p) && Accepts(p, topic)
              && (if Handled(items, topic) then p == topic
                  else if exists q | Serves(items, q, topic) :: IsSuffix(q) then
                    IsSuffix(p) && forall q | Serves(items, q, topic) && IsSuffix(q) && q != p :: |q| < |p|
                  else if exists q | Serves(items, q, topic) :: KindOf(q) == Complex then
                    && KindOf(p) == Complex
                    && forall q | Serves(items, q, topic) && KindOf(q) == Complex && q != p :: Before(order, p, q)
                  else p == WILD)
  {
    hide Accepts, KindOf, Before;
    AcceptsItself(topic);
    forall q | Serves(items, q, topic) ensures q == topic || Tier(q, topic) == 1 || Tier(q, topic) == 2 || q == WILD {
      ServedKinds(q, topic);
    }
    GlobalIsWild(WILD);
  }

  /** A pattern that means a topic is the topic itself, or has a wildcard. */
  lemma ServedKinds(raw: string, topic: string)
    requires Accepts(raw, topic)
    ensures raw == topic || raw == WILD || KindOf(raw) == SuffixWildcard || KindOf(raw) == Complex
  {
    hide Accepts, PrefixOf, Split;
    if KindOf(raw) == Exact {
      ExactMeaning(raw, topic);
    }
  }

  lemma SuffixServed(raw: string, topic: string)
    requires KindOf(raw) == SuffixWildcard
    ensures Accepts(raw, topic) <==> PrefixOf(raw) + [SEP] <= topic
    ensures raw == PrefixOf(raw) + [SEP] + WILD && |raw| == |PrefixOf(raw)| + 2
  {
    hide Accepts, PrefixOf, Split, KindOf;
    SuffixMeaning(raw, topic);
    SuffixShape(raw);
  }

  /** Two suffix patterns that mean one topic and are equally long are the same. */
  lemma SameLength(p: string, q: string, topic: string)
    requires KindOf(p) == SuffixWildcard && KindOf(q) == SuffixWildcard && Accepts(p, topic) && Accepts(q, topic)
    ensures |p| == |q| ==> p == q
  {
    hide Accepts, PrefixOf, Split, KindOf;
    SuffixServed(p, topic);
    SuffixServed(q, topic);
    if |p| == |q| {
      var n := |PrefixOf(p)|;
      assert PrefixOf(p) == topic[..n] == PrefixOf(q);
    }
  }

  lemma ComplexNeverBare(raw: string, topic: string)
    requires KindOf(raw) == Complex
    ensures PatternOf(raw).raw == raw && !BarePrefix(raw, topic)
  {
  }

  lemma PatternRaw(raw: string)
    ensures PatternOf(raw).raw == raw
  {
  }

  class WSEvent<H> {
    var itemByPattern: Items<H>
    var prefixByPrefix: map<string, string>
    var globalPattern: string
    var complexPatterns: seq<Pattern>
    /** The patterns in the order they were first added. */
    ghost var order: seq<string>

    ghost predicate Valid()
      reads this
    {
      && Distinct(order) && Elements(order) == itemByPattern.Keys
      && prefixByPrefix == Prefixes(order)
      && globalPattern == Globals(order)
      && complexPatterns == Complexes(order)
    }

    constructor ()
      ensures Valid() && itemByPattern == map[]
    {
      itemByPattern, prefixByPrefix, globalPattern, complexPatterns := map[], map[], "", [];
      order := [];
    }

    method Index(pattern: string)
      requires prefixByPrefix == Prefixes(order) && globalPattern == Globals(order)
               && complexPatterns == Complexes(order)
      requires pattern !in order
      modifies this
      ensures itemByPattern == old(itemByPattern) && order == old(order) + [pattern]
      ensures prefixByPrefix == Prefixes(order) && globalPattern == Globals(order)
              && complexPatterns == Complexes(order)
    {
      hide KindOf, PrefixOf, Split, Prefixes, Complexes, Globals;
      OneMore(order, pattern);
      GlobalIsWild(pattern);
      var pat := NewPattern(pattern);
      match pat.kind {
        case Global =>
          globalPattern := pattern;
        case SuffixWildcard =>
          prefixByPrefix := prefixByPrefix[pat.simplePrefix := pattern];
        case Complex =>
          complexPatterns := complexPatterns + [pat];
        case Exact =>
      }
      order := order + [pattern];
    }

    /** Replaces or adds the whole item. */
    method Add(pattern: string, value: Item<H>)
      requires Valid()
      modifies this
      ensures Valid() && itemByPattern == old(itemByPattern)[pattern := value]
      ensures order == if pattern in old(itemByPattern) then old(order) else old(order) + [pattern]
    {
      hide Prefixes, Globals, Complexes;
      assert pattern in order <==> pattern in Elements(order);
      if pattern !in itemByPattern {
        Index(pattern);
        assert Elements(order) == Elements(old(order)) + {pattern};
      }
      itemByPattern := itemByPattern[pattern := value];
      assert pattern in Elements(order);
    }

    method AddMiddlewares(pattern: string, middlewares: seq<H>)
      requires Valid()
      modifies this
      ensures Valid()
      ensures var item := if pattern in old(itemByPattern) then old(itemByPattern)[pattern] else Item(None, []);
              itemByPattern == old(itemByPattern)[pattern := item.(middlewares := item.middlewares + middlewares)]
      ensures order == if pattern in old(itemByPattern) then old(order) else old(order) + [pattern]
    {
      var item := if pattern in itemByPattern then itemByPattern[pattern] else Item(None, []);
      Add(pattern, item.(middlewares := item.middlewares + middlewares));
    }

    /** Fails, changing nothing, where the source panics: without a function to call. */
    method AddInjectableHandler(pattern: string, handler: Option<H>) returns (ok: bool)
      requires Valid()
      modifies this
      ensures Valid() && ok == handler.Some?
      ensures !ok ==> itemByPattern == old(itemByPattern) && order == old(order)
      ensures ok ==> var item := if pattern in old(itemByPattern) then old(itemByPattern)[pattern] else Item(None, []);
                     && itemByPattern == old(itemByPattern)[pattern := item.(handler := handler)]
                     && order == if pattern in old(itemByPattern) then old(order) else old(order) + [pattern]
    {
      if handler.None? {
        return false;
      }
      var item := if pattern in itemByPattern then itemByPattern[pattern] else Item(None, []);
      Add(pattern, item.(handler := handler));
      return true;
    }

    /** A suffix pattern that means the topic is found at the dot after its prefix. */
    lemma PrefixHit(q: string, topic: string, i: nat)
      requires Valid() && q in itemByPattern && KindOf(q) == SuffixWildcard && Accepts(q, topic) && i < |topic|
      ensures |PrefixOf(q)| == i ==>
                topic[i] == SEP && topic[..i] in prefixByPrefix && prefixByPrefix[topic[..i]] == q
    {
      hide KindOf, PrefixOf, Split, Prefixes, Complexes, Means, Accepts;
      SuffixServed(q, topic);
      if |PrefixOf(q)| == i {
        assert topic[i] == (PrefixOf(q) + [SEP])[i] && topic[..i] == PrefixOf(q);
        assert q in Elements(order);
        PrefixIndexed(order, topic[..i]);
      }
    }

    /** From the last dot to the first. */
    method LongestPrefix(topic: string) returns (r: Option<string>)
      requires Valid()
      ensures r.Some? ==>
                && KindOf(r.value) == SuffixWildcard && Serves(itemByPattern, r.value, topic)
                && forall q | q in itemByPattern && KindOf(q) == SuffixWildcard
                   && Serves(itemByPattern, q, topic) && q != r.value ::
                     |q| < |r.value|
      ensures r.None? ==>
              forall q | q in itemByPattern && KindOf(q) == SuffixWildcard :: !Serves(itemByPattern, q, topic)
    {
      hide KindOf, PrefixOf, Split, Prefixes, Complexes, Means, Accepts;
      forall q | q in itemByPattern && KindOf(q) == SuffixWildcard && Serves(itemByPattern, q, topic)
        ensures |PrefixOf(q)| < |topic|
      {
        SuffixServed(q, topic);
      }
      for i := |topic| downto 0
        invariant forall q | q in itemByPattern && KindOf(q) == SuffixWildcard && Serves(itemByPattern, q, topic) ::
                    |PrefixOf(q)| < i
      {
        if topic[i] == SEP {
          PrefixIndexed(order, topic[..i]);
          if topic[..i] in prefixByPrefix {
            var pattern := prefixByPrefix[topic[..i]];
            assert pattern in Elements(order);
            SuffixServed(pattern, topic);
            assert PrefixOf(pattern) == pattern[..i] == topic[..i];
            if itemByPattern[pattern].handler.Some? {
              forall q | q in itemByPattern && KindOf(q) == SuffixWildcard
                && Serves(itemByPattern, q, topic) && q != pattern
                ensures |q| < |pattern|
              {
                SuffixServed(q, topic);
                SameLength(q, pattern, topic);
              }
              return Some(pattern);
            }
          }
        }
        forall q | q in itemByPattern && KindOf(q) == SuffixWildcard && Serves(itemByPattern, q, topic)
          ensures |PrefixOf(q)| < i
        {
          PrefixHit(q, topic, i);
        }
      }
      return None;
    }

    /** The first in the order of registration. */
    method EarliestComplex(topic: string) returns (r: Option<string>)
      requires Valid()
      ensures r.Some? ==>
                && KindOf(r.value) == Complex && Serves(itemByPattern, r.value, topic)
                && forall q | q in itemByPattern && KindOf(q) == Complex
                   && Serves(itemByPattern, q, topic) && q != r.value ::
                     Before(order, r.value, q)
      ensures r.None? ==> forall q | q in itemByPattern && KindOf(q) == Complex :: !Serves(itemByPattern, q, topic)
    {
      hide KindOf, PrefixOf, Split, Prefixes, Complexes, Means, Accepts, PatternOf, Before;
      ComplexListed(order);
      for i := 0 to |complexPatterns|
        invariant forall k | 0 <= k < i :: !Serves(itemByPattern, complexPatterns[k].raw, topic)
      {
        var pat := complexPatterns[i];
        assert pat in complexPatterns && pat.raw in Elements(order);
        ComplexNeverBare(pat.raw, topic);
        var ok := Patterns.Match(pat, topic);
        if ok && itemByPattern[pat.raw].handler.Some? {
          forall q | q in itemByPattern && KindOf(q) == Complex && Serves(itemByPattern, q, topic) && q != pat.raw
            ensures Before(order, pat.raw, q)
          {
            var j := Listed(q);
            ComplexOrder(order, i, j);
          }
          return Some(pat.raw);
        }
      }
      forall q | q in itemByPattern && KindOf(q) == Complex ensures !Serves(itemByPattern, q, topic) {
        var j := Listed(q);
      }
      return None;
    }

    lemma Listed(q: string) returns (j: nat)
      requires Valid() && q in itemByPattern && KindOf(q) == Complex
      ensures j < |complexPatterns| && complexPatterns[j].raw == q
    {
      hide KindOf, PrefixOf, Split, Prefixes, Complexes;
      ComplexListed(order);
      assert q in Elements(order);
      PatternRaw(q);
      j :| 0 <= j < |complexPatterns| && complexPatterns[j] == PatternOf(q);
    }

    /** Finds the one best pattern for a topic, and fails only when no handled pattern means the topic. */
    method Match(topic: string) returns (item: Item<H>, pattern: string, ok: bool)
      requires Valid()
      ensures ok ==> Best(itemByPattern, order, pattern, topic) && item == itemByPattern[pattern]
      ensures ok <==> exists q :: q in itemByPattern && Serves(itemByPattern, q, topic)
      ensures !ok ==> item == Item(None, []) && pattern == ""
    {
      hide KindOf, PrefixOf, Split, Prefixes, Complexes, Means, Accepts;
      if topic in itemByPattern && itemByPattern[topic].handler.Some? {
        AcceptsItself(topic);
        return itemByPattern[topic], topic, true;
      }
      var prefix := LongestPrefix(topic);
      forall q | q in itemByPattern && Serves(itemByPattern, q, topic)
        ensures q != topic && (q == WILD || KindOf(q) == SuffixWildcard || KindOf(q) == Complex)
      {
        ServedKinds(q, topic);
      }
      GlobalIsWild(WILD);
      if prefix.Some? {
        return itemByPattern[prefix.value], prefix.value, true;
      }
      var first := EarliestComplex(topic);
      if first.Some? {
        return itemByPattern[first.value], first.value, true;
      }
      forall q | q in itemByPattern && Serves(itemByPattern, q, topic) ensures q == WILD {
        ServedKinds(q, topic);
      }
      GlobalMeaning(topic);
      GlobalIsWild(WILD);
      assert WILD in order <==> WILD in Elements(order);
      if globalPattern != "" && itemByPattern[globalPattern].handler.Some? {
        return itemByPattern[globalPattern], globalPattern, true;
      }
      return Item(None, []), "", false;
    }
  }
}
