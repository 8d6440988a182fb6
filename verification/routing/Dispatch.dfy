/** The router: items by method and version under each route, and the item that serves a request. */
module Dispatch {
  import opened Collections
  import opened Paths
  import opened RouteTrie
  import opened Lookup
  import opened Params
  import opened Captures
  import opened Router

  const SLASH := '/'

  /** Who hands in the handlers. */
  datatype Caller = ADD | USE | FOR | GROUP

  /** The handlers of a route for one method and version; the main one is at handlerIndex, if there is one. */
  datatype Item<H> = Item(verb: string, version: string, handlers: seq<H>, handlerIndex: int,
                          paramKeys: map<string, seq<nat>>)
  {
    predicate Placed() {
      -1 <= handlerIndex < |handlers|
    }

    function Main(): Option<H>
      requires Placed()
    {
      if handlerIndex >= 0 then Some(handlers[handlerIndex]) else None
    }

    /** The handlers in front of the main one and behind it. */
    function Others(): seq<H>
      requires Placed()
    {
      if handlerIndex >= 0 then handlers[..handlerIndex] + handlers[handlerIndex + 1..] else handlers
    }
  }

  /** The branches of a push, on one item. */
  function Merged<H>(it: Item<H>, caller: Caller, globals: seq<H>, handlers: seq<H>): Item<H>
    requires it.Placed()
  {
    var n := |it.handlers|;
    match caller
    case USE => it.(handlers := it.handlers + handlers)
    case GROUP => it.(handlers := it.handlers + handlers)
    case FOR => it.(handlers := (if n == 0 then globals else it.handlers) + handlers)
    case ADD =>
      if n == 0 then it.(handlers := globals + handlers, handlerIndex := |globals|)
      else if it.handlerIndex > -1 then
        var i := it.handlerIndex;
        it.(handlers := it.handlers[..i] + it.handlers[i + 1..] + handlers, handlerIndex := n - 1)
      else it.(handlers := it.handlers + handlers, handlerIndex := n)
  }

  /**
   * Adding puts the handler behind all others, as the main one, in the place of the one before;
   * the other callers put theirs behind and leave the main one what it is. An empty item starts
   * with the global handlers, except for handlers that are handed to all.
   */
  lemma MergedMain<H>(it: Item<H>, caller: Caller, globals: seq<H>, handlers: seq<H>)
    requires it.Placed() && (caller == ADD ==> |handlers| == 1)
    ensures var it' := Merged(it, caller, globals, handlers);
            && it'.Placed() && it'.verb == it.verb && it'.version == it.version && it'.paramKeys == it.paramKeys
            && it'.Main() == (if caller == ADD then Some(handlers[0]) else it.Main())
    ensures var it', hs, i := Merged(it, caller, globals, handlers), it.handlers, it.handlerIndex;
            caller == ADD ==>
              && it'.handlers == (if hs == [] then globals else if i < 0 then hs else hs[..i] + hs[i + 1..]) + handlers
              && it'.handlerIndex == |it'.handlers| - 1
    ensures var it', hs := Merged(it, caller, globals, handlers), it.handlers;
            caller != ADD ==>
              && it'.handlers == (if hs == [] && caller == FOR then globals else hs) + handlers
              && it'.handlerIndex == it.handlerIndex
  {
    if caller == ADD {
      MergedAdd(it, globals, handlers);
    } else {
      MergedBehind(it, caller, globals, handlers);
    }
  }

  lemma PlacedIs<H>(it: Item<H>)
    requires it.Placed()
    ensures -1 <= it.handlerIndex < |it.handlers|
  {
  }

  lemma MergedAdd<H>(it: Item<H>, globals: seq<H>, handlers: seq<H>)
    requires it.Placed() && |handlers| == 1
    ensures var it' := Merged(it, ADD, globals, handlers);
            && it'.Placed() && it'.Main() == Some(handlers[0])
            && it'.handlers == (if it.handlers == [] then globals else it.Others()) + [handlers[0]]
            && it'.handlerIndex == |it'.handlers| - 1
  {
    var it', front := Merged(it, ADD, globals, handlers), if it.handlers == [] then globals else it.Others();
    assert handlers == [handlers[0]];
    assert it'.handlers == front + [handlers[0]] && it'.handlerIndex == |front|;
    LastOf(front, handlers[0]);
  }

  lemma MergedBehind<H>(it: Item<H>, caller: Caller, globals: seq<H>, handlers: seq<H>)
    requires it.Placed() && caller != ADD
    ensures var it' := Merged(it, caller, globals, handlers);
            it'.Placed() && it'.Main() == it.Main()
  {
    if it.handlerIndex >= 0 {
      Behind(it.handlers, it.handlerIndex, handlers);
    }
  }

  lemma LastOf<H>(front: seq<H>, h: H)
    ensures var all := front + [h];
            all[|front|] == h && all[..|front|] == front && all[|front| + 1..] == [] && front + [] == front
  {
  }

  lemma Behind<H>(all: seq<H>, i: nat, more: seq<H>)
    requires i < |all|
    ensures var all' := all + more;
            all'[i] == all[i]
  {
  }

  predicate Serves<H>(it: Item<H>, verb: string, version: string) {
    it.verb == verb && it.version == version
  }

  /** No method and version twice. */
  ghost predicate Single<H>(items: seq<Item<H>>) {
    forall i, j | 0 <= i < j < |items| :: !Serves(items[j], items[i].verb, items[i].version)
  }

  /** The item of a method and version. */
  function ItemFor<H>(items: seq<Item<H>>, verb: string, version: string): (r: Option<Item<H>>)
    ensures r.Some? ==> r.value in items && Serves(r.value, verb, version)
    ensures r.None? ==> forall it | it in items :: !Serves(it, verb, version)
  {
    if items == [] then None
    else if Serves(items[0], verb, version) then Some(items[0])
    else ItemFor(items[1..], verb, version)
  }

  /** The position of that item, or none. */
  method FindItem<H>(items: seq<Item<H>>, verb: string, version: string) returns (pos: int)
    ensures -1 <= pos < |items|
    ensures pos >= 0 ==> Serves(items[pos], verb, version) && ItemFor(items, verb, version) == Some(items[pos])
    ensures pos == -1 ==> ItemFor(items, verb, version).None?
  {
    for i := 0 to |items|
      invariant ItemFor(items[i..], verb, version) == ItemFor(items, verb, version)
    {
      if Serves(items[i], verb, version) {
        return i;
      }
      assert items[i..][1..] == items[i + 1..];
    }
    return -1;
  }

  /** An item with this method and version is in its place, and the others are as they were. */
  lemma ItemAfter<H>(items: seq<Item<H>>, pos: int, it: Item<H>, verb: string, version: string)
    requires Single(items) && -1 <= pos < |items|
    requires if pos >= 0 then Serves(it, items[pos].verb, items[pos].version)
             else forall x | x in items :: !Serves(x, it.verb, it.version)
    ensures var items' := if pos >= 0 then items[pos := it] else items + [it];
            && Single(items')
            && ItemFor(items', verb, version)
               == if Serves(it, verb, version) then Some(it) else ItemFor(items, verb, version)
  {
    var items' := if pos >= 0 then items[pos := it] else items + [it];
    ItemIsOnly(items, verb, version);
    assert Single(items') by {
      if pos < 0 {
        forall i | 0 <= i < |items| ensures !Serves(it, items[i].verb, items[i].version) {
          assert items[i] in items;
        }
      }
    }
    ItemIsOnly(items', verb, version);
    if Serves(it, verb, version) {
      assert items'[if pos >= 0 then pos else |items|] == it;
    }
  }

  /** Where no method and version stands twice, an item that serves is the one picked. */
  lemma {:induction false} ItemIsOnly<H>(items: seq<Item<H>>, verb: string, version: string)
    requires Single(items)
    ensures forall i | 0 <= i < |items| && Serves(items[i], verb, version) ::
              ItemFor(items, verb, version) == Some(items[i])
  {
    if items != [] {
      assert forall i | 1 <= i < |items| :: items[i] == items[1..][i - 1];
      ItemIsOnly(items[1..], verb, version);
    }
  }

  type Table<H> = map<string, seq<Item<H>>>

  function ItemsIn<H>(m: Table<H>, pattern: string): seq<Item<H>> {
    if pattern in m then m[pattern] else []
  }

  /** Every item knows the positions of its route's names, and none stands twice. */
  ghost predicate ItemsOk<H>(m: Table<H>, pattern: string) {
    && Single(ItemsIn(m, pattern))
    && forall it | it in ItemsIn(m, pattern) :: it.Placed() && it.paramKeys == Positions(Names(pattern, 0))
  }

  ghost predicate AllOk<H>(m: Table<H>) {
    forall pattern :: ItemsOk(m, pattern)
  }

  /** Every stored route has items. */
  ghost predicate Served<H>(routes: map<Path, string>, m: Table<H>) {
    forall p | p in routes :: ItemsIn(m, routes[p]) != []
  }

  lemma ServedMore<H>(routes: map<Path, string>, m: Table<H>, at: Path, pattern: string, items: seq<Item<H>>)
    requires Served(routes, m) && items != []
    ensures Served(routes, m[pattern := items]) && Served(routes[at := pattern], m[pattern := items])
  {
  }

  /** One item written into the table. */
  lemma PutItem<H>(m: Table<H>, pattern: string, pos: int, item: Item<H>)
    requires AllOk(m)
    requires -1 <= pos < |ItemsIn(m, pattern)| && item.Placed() && item.paramKeys == Positions(Names(pattern, 0))
    requires if pos >= 0 then Serves(item, ItemsIn(m, pattern)[pos].verb, ItemsIn(m, pattern)[pos].version)
             else forall x | x in ItemsIn(m, pattern) :: !Serves(x, item.verb, item.version)
    ensures var items := ItemsIn(m, pattern);
            var m' := m[pattern := if pos >= 0 then items[pos := item] else items + [item]];
            && AllOk(m') && ItemsIn(m', pattern) != []
            && (forall p | p != pattern :: ItemsIn(m', p) == ItemsIn(m, p))
            && forall v, w :: ItemFor(ItemsIn(m', pattern), v, w)
                              == if Serves(item, v, w) then Some(item) else ItemFor(items, v, w)
  {
    hide Item.Placed, Positions, Names, ItemFor, Single;
    var items := ItemsIn(m, pattern);
    var items' := if pos >= 0 then items[pos := item] else items + [item];
    var m' := m[pattern := items'];
    assert ItemsOk(m, pattern);
    forall v, w ensures Single(items')
                && ItemFor(items', v, w) == if Serves(item, v, w) then Some(item) else ItemFor(items, v, w)
    {
      ItemAfter(items, pos, item, v, w);
    }
    ItemAfter(items, pos, item, "", "");
    forall it | it in items' ensures it in items || it == item {
    }
    forall p ensures ItemsOk(m', p) {
      assert ItemsOk(m, p);
    }
  }

  class Routes<H> {
    const trie: Trie
    var itemsByPattern: map<string, seq<Item<H>>>
    var globals: seq<H>

    constructor ()
      ensures Valid() && itemsByPattern == map[] && globals == [] && fresh(trie) && fresh(trie.nodes.Values)
    {
      trie := new Trie();
      itemsByPattern, globals := map[], [];
    }

    function Items(pattern: string): seq<Item<H>>
      reads this
    {
      ItemsIn(itemsByPattern, pattern)
    }

    /** Every stored route has items, and every item knows the positions of its route's names. */
    ghost predicate Valid()
      reads this, trie, trie.nodes.Values
    {
      && trie.Valid() && Keyed(trie.Routes(), SLASH)
      && AllOk(itemsByPattern) && Served(trie.Routes(), itemsByPattern) && "" !in itemsByPattern
    }

    /** Hands handlers to the item of a method and version, which is made if it is not there. */
    method Push(verb: string, pattern: string, version: string, caller: Caller, handlers: seq<H>,
                ghost parts: seq<Part>)
      requires Valid() && (caller == ADD ==> |handlers| == 1)
      requires AllPlain(parts, SLASH) && pattern == Render(Texts(parts), SLASH)
      modifies this, trie, trie.nodes.Values
      ensures Valid() && globals == old(globals)
      ensures trie.Routes() == if parts == [] then old(trie.Routes()) else old(trie.Routes())[Edges(parts) := pattern]
      ensures var was := old(ItemFor(Items(pattern), verb, version));
              var start := if was.Some? then was.value
                           else Item(verb, version, [], -1, Positions(Names(pattern, 0)));
              && start.Placed()
              && ItemFor(Items(pattern), verb, version) == Some(Merged(start, caller, globals, handlers))
      ensures forall p, v, w | (p, v, w) != (pattern, verb, version) ::
                ItemFor(Items(p), v, w) == old(ItemFor(Items(p), v, w))
    {
      hide Trie.Valid, Trie.Routes, Names, Render, Plain, Positions, Keyed, AllOk, Served, ItemFor, Merged;
      hide ItemsIn;
      RouteParsed(parts, SLASH);
      var paramKey := Router.Push(trie, pattern, SLASH, parts);
      ghost var m := itemsByPattern;
      PushItem(verb, pattern, version, caller, handlers, paramKey);
      ServedMore(old(trie.Routes()), m, Edges(parts), pattern, itemsByPattern[pattern]);
    }

    /** Registers the main handler of a route. */
    method Add(verb: string, route: string, version: string, handler: H, ghost parts: seq<Part>)
      requires Valid() && AllPlain(parts, SLASH) && Enclosed(route, SLASH) == Render(Texts(parts), SLASH)
      modifies this, trie, trie.nodes.Values
      ensures Valid() && globals == old(globals)
      ensures var r := ItemFor(Items(Enclosed(route, SLASH)), verb, version);
              var was := old(ItemFor(Items(Enclosed(route, SLASH)), verb, version));
              var hs := if was.Some? then was.value.handlers else [];
              var i := if was.Some? then was.value.handlerIndex else -1;
              var front := if hs == [] then globals else if 0 <= i < |hs| then hs[..i] + hs[i + 1..] else hs;
              r.Some? && r.value.handlers == front + [handler] && r.value.handlerIndex == |front|
      ensures forall p, v, w | (p, v, w) != (Enclosed(route, SLASH), verb, version) ::
                ItemFor(Items(p), v, w) == old(ItemFor(Items(p), v, w))
    {
      hide Valid, Enclosed, Render, Merged, ItemFor, Names, Positions, Item.Placed, Item.Main, Item.Others;
      var pattern := Enclose(route, SLASH);
      ghost var was := ItemFor(Items(pattern), verb, version);
      ghost var start := if was.Some? then was.value else Item(verb, version, [], -1, Positions(Names(pattern, 0)));
      Push(verb, pattern, version, ADD, [handler], parts);
      MergedMain(start, ADD, globals, [handler]);
      assert start.handlerIndex < |start.handlers| by { PlacedIs(start); }
    }

    /**
     * The item for a request: that of the full match if it has one for the method and version,
     * and otherwise that of the star.
     */
    method Match(verb: string, path: string, version: string) returns (item: Option<Item<H>>, paramVals: seq<string>)
      requires Valid()
      ensures exists walk, full, star ::
                && Answers(trie.Info(), walk, path, SLASH, true, full, star, paramVals)
                && Chooses(full, star, verb, version, item)
      ensures item.Some? ==> Serves(item.value, verb, version) && exists pattern ::
                && item == ItemFor(Items(pattern), verb, version)
                && item.value.paramKeys == Positions(Names(pattern, 0))
                && (Fits(pattern, Segments(path, SLASH), paramVals, SLASH)
                    || FitsFront(pattern, Segments(path, SLASH), paramVals, SLASH))
    {
      hide Trie.Valid, Trie.Routes, Trie.Info, Keyed, Answers, Fits, FitsFront, AllOk, Served, Segments, ItemFor;
      var full, star;
      full, star, paramVals := trie.Find(path, SLASH, true);
      ghost var walk :| Answers(trie.Info(), walk, path, SLASH, true, full, star, paramVals);
      assert Fits(full, Segments(path, SLASH), paramVals, SLASH) || full == "" by {
        TrieFits(trie, walk, path, full, star, paramVals);
      }
      assert FitsFront(star, Segments(path, SLASH), paramVals, SLASH) || star == "" by {
        TrieFits(trie, walk, path, full, star, paramVals);
      }
      KnownItem(itemsByPattern, full, verb, version);
      KnownItem(itemsByPattern, star, verb, version);
      var pos := FindItem(Items(full), verb, version);
      if pos >= 0 {
        item := Some(Items(full)[pos]);
      } else {
        pos := FindItem(Items(star), verb, version);
        item := if pos >= 0 then Some(Items(star)[pos]) else None;
      }
      assert Chooses(full, star, verb, version, item);
      assert Answers(trie.Info(), walk, path, SLASH, true, full, star, paramVals);
    }

    /** The full match's item for the method and version comes first, the star's only where there is none. */
    ghost predicate Chooses(full: string, star: string, verb: string, version: string, item: Option<Item<H>>)
      reads this
    {
      if exists it :: it in Items(full) && Serves(it, verb, version)
      then item.Some? && item.value in Items(full) && Serves(item.value, verb, version)
      else if exists it :: it in Items(star) && Serves(it, verb, version)
      then item.Some? && item.value in Items(star) && Serves(item.value, verb, version)
      else item.None?
    }

    /** The part of a push that concerns the items. */
    method PushItem(verb: string, pattern: string, version: string, caller: Caller, handlers: seq<H>,
                    paramKey: map<string, seq<nat>>)
      requires AllOk(itemsByPattern) && (caller == ADD ==> |handlers| == 1)
      requires paramKey == Positions(Names(pattern, 0))
      modifies `itemsByPattern
      ensures AllOk(itemsByPattern) && pattern in itemsByPattern && itemsByPattern[pattern] != []
      ensures itemsByPattern == old(itemsByPattern)[pattern := itemsByPattern[pattern]]
      ensures var was := old(ItemFor(Items(pattern), verb, version));
              var start := if was.Some? then was.value else Item(verb, version, [], -1, paramKey);
              && start.Placed()
              && ItemFor(Items(pattern), verb, version) == Some(Merged(start, caller, globals, handlers))
      ensures forall p, v, w | (p, v, w) != (pattern, verb, version) ::
                ItemFor(Items(p), v, w) == old(ItemFor(Items(p), v, w))
    {
      hide Names, Positions, AllOk, ItemFor, Merged, ItemsIn, Item.Placed, Item.Main, Item.Others;
      var items := Items(pattern);
      var pos := FindItem(items, verb, version);
      var start := if pos >= 0 then items[pos] else Item(verb, version, [], -1, map[]);
      if |paramKey| > 0 {
        start := start.(paramKeys := paramKey);
      }
      KnownStart(itemsByPattern, pattern, pos, verb, version, start);
      MergedMain(start, caller, globals, handlers);
      var item := Merged(start, caller, globals, handlers);
      PutItem(itemsByPattern, pattern, pos, item);
      items := if pos >= 0 then items[pos := item] else items + [item];
      itemsByPattern := itemsByPattern[pattern := items];
      ItemsInPut(old(itemsByPattern), pattern, items);
    }
  }

  lemma TrieFits(trie: Trie, walk: Path, path: string, full: string, star: string, vals: seq<string>)
    requires trie.Valid() && Keyed(trie.Routes(), SLASH)
    requires Answers(trie.Info(), walk, path, SLASH, true, full, star, vals)
    ensures full != "" ==> Fits(full, Segments(path, SLASH), vals, SLASH)
    ensures star != "" ==> FitsFront(star, Segments(path, SLASH), vals, SLASH)
  {
    hide Keyed, Answers, Fits, FitsFront, Segments, TreeOk;
    AnswersFit(trie.Info(), walk, path, SLASH, full, star, vals);
  }

  lemma KnownItem<H>(m: Table<H>, pattern: string, verb: string, version: string)
    requires AllOk(m) && "" !in m
    ensures var r := ItemFor(ItemsIn(m, pattern), verb, version);
            r.Some? ==>
              && pattern != "" && Serves(r.value, verb, version)
              && r.value.paramKeys == Positions(Names(pattern, 0))
  {
    hide Names, Positions;
    assert ItemsOk(m, pattern);
  }

  lemma ItemsInPut<H>(m: Table<H>, pattern: string, items: seq<Item<H>>)
    ensures ItemsIn(m[pattern := items], pattern) == items
  {
  }

  /** The item that a push goes on from. */
  lemma KnownStart<H>(m: Table<H>, pattern: string, pos: int, verb: string, version: string, start: Item<H>)
    requires AllOk(m) && -1 <= pos < |ItemsIn(m, pattern)|
    requires var keys := Positions(Names(pattern, 0));
             if pos >= 0 then start == ItemsIn(m, pattern)[pos] || start == ItemsIn(m, pattern)[pos].(paramKeys := keys)
             else start == Item(verb, version, [], -1, keys)
    ensures start.Placed() && start.paramKeys == Positions(Names(pattern, 0))
    ensures pos >= 0 ==> start == ItemsIn(m, pattern)[pos]
  {
    hide Positions, Names, Single;
    assert ItemsOk(m, pattern);
  }
}
