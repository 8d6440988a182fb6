/** Routes stored under their keys, and the parameters a handler sees for a path. */
module Router {
  import opened Collections
  import opened Paths
  import opened RouteTrie
  import opened Lookup
  import opened Params
  import opened Captures

  /** A separator that no part of the syntax of a route uses. */
  predicate Separates(sep: char) {
    sep != '{' && sep != '$' && sep != '*'
  }

  ghost predicate AllPlain(parts: seq<Part>, sep: char) {
    forall p | p in parts :: Plain(p, sep)
  }

  /** raw is a route written part by part, and p is where its key files it. */
  ghost predicate OwnKey(p: Path, raw: string, sep: char) {
    exists parts :: AllPlain(parts, sep) && p == Edges(parts) && raw == Render(Texts(parts), sep)
  }

  /** Every stored route stands under its own key. */
  ghost predicate Keyed(routes: map<Path, string>, sep: char) {
    forall p | p in routes :: OwnKey(p, routes[p], sep)
  }

  /** Files a route under the key that its parsing gives. */
  method Push(trie: Trie, route: string, sep: char, ghost parts: seq<Part>) returns (paramKey: map<string, seq<nat>>)
    requires trie.Valid() && Keyed(trie.Routes(), sep)
    requires Separates(sep) && AllPlain(parts, sep) && route == Render(Texts(parts), sep)
    modifies trie, trie.nodes.Values
    ensures trie.Valid() && Keyed(trie.Routes(), sep) && paramKey == Positions(NamesOf(parts))
    ensures old(Pruned(trie.Info())) ==> Pruned(trie.Info())
    ensures trie.Routes() == if parts == [] then old(trie.Routes()) else old(trie.Routes())[Edges(parts) := route]
  {
    hide Trie.Valid, Trie.Routes, Signed, Names, Render, Plain;
    RouteParsed(parts, sep);
    var key;
    key, paramKey := ParseToParamKey(route);
    trie.Insert(route, key, sep);
    assert OwnKey(Edges(parts), route, sep);
  }

  /** Taking a route out leaves the others under their keys. */
  method Withdraw(trie: Trie, key: string, sep: char) returns (removed: bool)
    requires trie.Valid() && Keyed(trie.Routes(), sep)
    modifies trie.nodes.Values
    ensures trie.Valid() && Keyed(trie.Routes(), sep)
  {
    removed := trie.Remove(key, sep);
  }

  /** raw was written in parts that match the segments, and its names see the segments their parts took if they can. */
  ghost predicate Fits(raw: string, segs: seq<string>, vals: seq<string>, sep: char) {
    exists parts ::
      && AllPlain(parts, sep) && raw == Render(Texts(parts), sep) && |parts| == |segs|
      && PathMatches(Edges(parts), segs, true)
      && LinedUp(raw, parts, segs, vals)
  }

  /** The same for a route that ends in a star, by the segments in front of the star. */
  ghost predicate FitsFront(raw: string, segs: seq<string>, vals: seq<string>, sep: char) {
    exists front ::
      && AllPlain(front, sep) && raw == Render(Texts(front + [Lit(STAR)]), sep) && |front| <= |segs|
      && StarMatches(Edges(front) + [STAR], segs, true)
      && LinedUp(raw, front, segs, vals)
  }

  lemma FullFits(info: Infos, walk: Path, path: string, sep: char, matchedRaw: string, paramVals: seq<string>)
    requires Separates(sep) && Keyed(RoutesOf(info), sep)
    requires walk in RoutesOf(info) && RoutesOf(info)[walk] == matchedRaw
    requires PathMatches(walk, Segments(path, sep), true) && Captured(walk, Segments(path, sep)) == paramVals
    ensures Fits(matchedRaw, Segments(path, sep), paramVals, sep)
  {
    hide PathMatches, Render, Captured, Segments, Plain, LinedUp;
    var segs := Segments(path, sep);
    assert OwnKey(walk, matchedRaw, sep);
    var parts :| AllPlain(parts, sep) && walk == Edges(parts) && matchedRaw == Render(Texts(parts), sep);
    SameLength(walk, segs);
    CapturedIsPicked(walk, segs);
    ParamsLineUp(parts, segs, paramVals, sep);
  }

  lemma SameLength(walk: Path, segs: seq<string>)
    requires PathMatches(walk, segs, true)
    ensures |walk| == |segs|
  {
  }

  lemma StarLength(route: Path, segs: seq<string>)
    requires StarMatches(route, segs, true)
    ensures route != [] && route == Front(route) + [STAR] && |Front(route)| <= |segs|
  {
  }

  /** A part whose edge is the star is the star. */
  lemma StarPart(parts: seq<Part>, sep: char)
    requires parts != [] && Plain(parts[|parts| - 1], sep) && Edges(parts)[|parts| - 1] == STAR
    ensures var front := parts[..|parts| - 1]; parts == front + [Lit(STAR)] && Edges(parts) == Edges(front) + [STAR]
  {
    var last := parts[|parts| - 1];
    assert Edge(last) == STAR;
    SignedStar(last.text);
    EdgesMore(parts);
  }

  lemma SignedStar(t: string)
    ensures Signed(t, 0) == STAR ==> t == STAR
  {
    if t != "" && |Signed(t, 0)| == 1 {
      assert t[0] == STAR[0] && MatchEnd(t, 0) == -1 ==> Signed(t, 1) == "";
    }
  }

  lemma FrontFits(routes: map<Path, string>, route: Path, segs: seq<string>, sep: char, raw: string, vals: seq<string>)
    requires Separates(sep) && Keyed(routes, sep) && PARAM !in vals && StarFound(routes, route, segs, true, raw, vals)
    ensures FitsFront(raw, segs, vals, sep)
  {
    hide StarMatches, Render, Captured, Plain, LinedUp, Edges, Texts;
    assert OwnKey(route, raw, sep);
    var parts :| AllPlain(parts, sep) && route == Edges(parts) && raw == Render(Texts(parts), sep);
    StarLength(route, segs);
    assert parts[|parts| - 1] in parts;
    StarPart(parts, sep);
    FrontPartsFit(parts[..|parts| - 1], segs, raw, vals, sep);
  }

  lemma FrontPartsFit(front: seq<Part>, segs: seq<string>, raw: string, vals: seq<string>, sep: char)
    requires Separates(sep) && PARAM !in vals && AllPlain(front, sep) && |front| <= |segs|
    requires raw == Render(Texts(front + [Lit(STAR)]), sep) && StarMatches(Edges(front) + [STAR], segs, true)
    requires Captured(Edges(front), segs) <= vals
    ensures FitsFront(raw, segs, vals, sep)
  {
    hide StarMatches, Render, Captured, Plain, LinedUp, Edges, Texts;
    WildcardParamsLineUp(front, segs, vals, sep);
  }

  /**
   * A lookup in a trie filled by Push: what it returns are routes that match the path, and where
   * their parts are fair, every index of their names is in range of the captured values and under
   * each name stand exactly the segments that its parts took.
   */
  method Match(trie: Trie, path: string, sep: char)
    returns (matchedRaw: string, wildcardRaw: string, paramVals: seq<string>)
    requires trie.Valid() && Keyed(trie.Routes(), sep) && Separates(sep)
    ensures matchedRaw != "" ==> Fits(matchedRaw, Segments(path, sep), paramVals, sep)
    ensures wildcardRaw != "" ==> FitsFront(wildcardRaw, Segments(path, sep), paramVals, sep)
  {
    hide Keyed, Fits, FitsFront, Segments, Answers, TreeOk;
    matchedRaw, wildcardRaw, paramVals := trie.Find(path, sep, true);
    ghost var info := trie.Info();
    ghost var walk :| Answers(info, walk, path, sep, true, matchedRaw, wildcardRaw, paramVals);
    AnswersFit(info, walk, path, sep, matchedRaw, wildcardRaw, paramVals);
  }

  lemma AnswersFit(info: Infos, walk: Path, path: string, sep: char,
                   matchedRaw: string, wildcardRaw: string, paramVals: seq<string>)
    requires InfosOk(info) && Answers(info, walk, path, sep, true, matchedRaw, wildcardRaw, paramVals)
    requires Separates(sep) && Keyed(RoutesOf(info), sep)
    ensures matchedRaw != "" ==> Fits(matchedRaw, Segments(path, sep), paramVals, sep)
    ensures wildcardRaw != "" ==> FitsFront(wildcardRaw, Segments(path, sep), paramVals, sep)
  {
    hide Keyed, Fits, FitsFront, Segments, Answers, InfosOk, RoutesOf, PathMatches, StarFound, Captured;
    FindIsSound(info, walk, path, sep, true, matchedRaw, wildcardRaw, paramVals);
    if matchedRaw != "" {
      FullFits(info, walk, path, sep, matchedRaw, paramVals);
    }
    if wildcardRaw != "" {
      VoidOfSign(info, walk, path, sep, matchedRaw, wildcardRaw, paramVals);
      var route :| StarFound(RoutesOf(info), route, Segments(path, sep), true, wildcardRaw, paramVals);
      FrontFits(RoutesOf(info), route, Segments(path, sep), sep, wildcardRaw, paramVals);
    }
  }

  lemma VoidOfSign(info: Infos, walk: Path, path: string, sep: char,
                   matchedRaw: string, wildcardRaw: string, paramVals: seq<string>)
    requires Answers(info, walk, path, sep, true, matchedRaw, wildcardRaw, paramVals)
    ensures PARAM !in paramVals
  {
    hide Captured, StarRaw;
    CapturedIsPicked(walk, Segments(path, sep));
  }

  /**
   * The input: a route with a parameter, looked up by its own key. It is found and nothing is
   * captured, so every index that its names were given is out of range.
   */
  method OwnKeyCapturesNothing(route: string, sep: char, ghost parts: seq<Part>)
    returns (matchedRaw: string, paramKey: map<string, seq<nat>>, paramVals: seq<string>)
    requires Separates(sep) && AllPlain(parts, sep) && parts != [] && route == Render(Texts(parts), sep)
    ensures matchedRaw == route && paramKey == Positions(NamesOf(parts)) && paramVals == []
  {
    hide Trie.Valid, Trie.Routes, Trie.Info, Signed, Names, Render, Plain, Segments, Closed, Answers;
    RouteParsed(parts, sep);
    var trie := new Trie();
    paramKey := Push(trie, route, sep, parts);
    var key, again := ParseToParamKey(route);
    var wildcardRaw;
    matchedRaw, wildcardRaw, paramVals := trie.Find(key, sep, true);
    ghost var walk :| Answers(trie.Info(), walk, key, sep, true, matchedRaw, wildcardRaw, paramVals);
    FoundByOwnKey(trie, walk, key, sep, matchedRaw, wildcardRaw, paramVals);
  }

  lemma FoundByOwnKey(trie: Trie, walk: Path, key: string, sep: char,
                      matchedRaw: string, wildcardRaw: string, paramVals: seq<string>)
    requires trie.Valid() && Segments(key, sep) in trie.Routes() && Segments(key, sep) != [] && Closed(key, sep)
    requires Answers(trie.Info(), walk, key, sep, true, matchedRaw, wildcardRaw, paramVals)
    ensures matchedRaw == trie.Routes()[Segments(key, sep)] && paramVals == []
  {
    hide TreeOk, InfosOk, Segments, Closed, Walks, Stuck, Captured, StarRaw, Reached;
    OwnPathFound(trie, trie.nodes, trie.Info(), walk, key, sep, true);
  }

  /** A trie that holds one route of two signs takes any two segments along it. */
  lemma TwoSigns(trie: Trie, walk: Path, segs: seq<string>)
    requires trie.Valid() && Pruned(trie.Info()) && trie.Routes().Keys == {[PARAM, PARAM]} && |segs| == 2
    requires Maximal(trie.Info(), walk, segs, true)
    ensures walk == [PARAM, PARAM]
  {
    hide InfosOk, Chosen, OneEach;
    var info, r := trie.Info(), [PARAM, PARAM];
    assert r[..2] == r && r[..1] == [PARAM] && Front(r) == [PARAM] && Front([PARAM]) == [];
    assert Linked(trie.nodes, info, r);
    assert Linked(trie.nodes, info, [PARAM]);
    if walk != [] {
      var q := LeadsToRoute(trie, trie.nodes, info, walk);
      assert walk == r[..|walk|];
    }
  }

  /**
   * The input: a part that is the sign itself in front of a name, on segments that are not. The
   * handler sees the first of them under the name, where the second stands.
   */
  method LiteralSignShifts(name: string, a: string, b: string, sep: char)
    returns (matchedRaw: string, paramKey: map<string, seq<nat>>, paramVals: seq<string>)
    requires Separates(sep) && Plain(Par(name), sep) && sep !in a && sep !in b && a != PARAM && b != PARAM
    ensures matchedRaw == Render([PARAM, "{" + name + "}"], sep)
    ensures paramKey == map[name := [0]] && paramVals == [a, b]
  {
    hide Trie.Valid, Trie.Routes, Trie.Info, Signed, Names, Render, Segments, Closed, Answers, Pruned;
    hide Positions, NamesOf, Edges, Texts;
    ghost var parts := [Lit(PARAM), Par(name)];
    ghost var segs := [a, b];
    SignParts(name, sep);
    var trie := new Trie();
    var route := Render([PARAM, "{" + name + "}"], sep);
    paramKey := Push(trie, route, sep, parts);
    var path := Render([a, b], sep);
    SegmentsOfRender(segs, sep);
    var wildcardRaw;
    matchedRaw, wildcardRaw, paramVals := trie.Find(path, sep, true);
    ghost var walk :| Answers(trie.Info(), walk, path, sep, true, matchedRaw, wildcardRaw, paramVals);
    FoundAlongSigns(trie, walk, path, sep, matchedRaw, wildcardRaw, paramVals);
  }

  lemma SignParts(name: string, sep: char)
    requires Separates(sep) && Plain(Par(name), sep)
    ensures var parts := [Lit(PARAM), Par(name)];
            && AllPlain(parts, sep) && Texts(parts) == [PARAM, "{" + name + "}"] && Edges(parts) == [PARAM, PARAM]
            && Positions(NamesOf(parts)) == map[name := [0]]
  {
    hide Positions;
    var parts := [Lit(PARAM), Par(name)];
    assert Signed(PARAM, 0) == PARAM && Names(PARAM, 0) == [];
    assert parts[..1] == [Lit(PARAM)] && parts[..1][..0] == [];
    NamesFront(parts);
    NamesFront(parts[1..]);
    assert parts[1..][1..] == [] && NamesIn(parts[0]) == [] && NamesIn(parts[1]) == [name];
    assert NamesOf(parts) == [name];
    OnePosition(name);
  }

  lemma OnePosition(name: string)
    ensures Positions([name]) == map[name := [0]]
  {
    var none: seq<nat> := [];
    assert [name][..0] == [] && [name][0] == name;
    assert Positions([]) == map[];
    assert none + [0] == [0];
    assert Positions([name]) == Positions([])[name := none + [0]];
  }

  lemma FoundAlongSigns(trie: Trie, walk: Path, path: string, sep: char,
                        matchedRaw: string, wildcardRaw: string, paramVals: seq<string>)
    requires trie.Valid() && Pruned(trie.Info()) && trie.Routes().Keys == {[PARAM, PARAM]}
    requires |Segments(path, sep)| == 2 && Closed(path, sep) && PARAM !in Segments(path, sep)
    requires Answers(trie.Info(), walk, path, sep, true, matchedRaw, wildcardRaw, paramVals)
    ensures matchedRaw == trie.Routes()[[PARAM, PARAM]] && paramVals == Segments(path, sep)
  {
    hide TreeOk, InfosOk, Segments, Closed, Walks, Stuck, StarRaw, Pruned;
    var segs := Segments(path, sep);
    TwoSigns(trie, walk, segs);
    CapturedAll(segs);
  }

  lemma CapturedAll(segs: seq<string>)
    requires |segs| == 2 && PARAM !in segs
    ensures Captured([PARAM, PARAM], segs) == segs
  {
    var walk := [PARAM, PARAM];
    assert segs[0] in segs && segs[1] in segs;
    assert walk[..1] == [PARAM] && walk[..1][..0] == [];
    assert Captured(walk[..1][..0], segs) == [] && Captured(walk[..1], segs) == [segs[0]];
    assert segs == [segs[0], segs[1]];
  }

  /** What a handler sees: the captured values of every name. */
  method Param(paramKeys: map<string, seq<nat>>, paramVals: seq<string>) returns (param: map<string, seq<string>>)
    requires forall name, k | name in paramKeys && k in paramKeys[name] :: k < |paramVals|
    ensures forall name :: name in param <==> name in paramKeys && paramKeys[name] != []
    ensures forall name | name in param :: param[name] == Values(paramKeys, paramVals, name)
  {
    var names := List(paramKeys.Keys);
    param := map[];
    for i := 0 to |names|
      invariant forall name :: name in param <==> name in names[..i] && paramKeys[name] != []
      invariant forall name | name in param :: name in paramKeys && param[name] == Values(paramKeys, paramVals, name)
    {
      var name := names[i];
      assert name in Elements(names) && name !in names[..i];
      var values := Collect(paramKeys[name], paramVals);
      if values != [] {
        param := param[name := values];
      }
    }
    assert forall name | name in paramKeys :: name in Elements(names);
    assert names[..|names|] == names;
  }

  method Collect(indexes: seq<nat>, paramVals: seq<string>) returns (values: seq<string>)
    requires forall k | k in indexes :: k < |paramVals|
    ensures |values| == |indexes|
    ensures forall i | 0 <= i < |indexes| :: indexes[i] < |paramVals| && values[i] == paramVals[indexes[i]]
  {
    values := [];
    for i := 0 to |indexes|
      invariant |values| == i
      invariant forall j | 0 <= j < i :: indexes[j] < |paramVals| && values[j] == paramVals[indexes[j]]
    {
      assert indexes[i] in indexes;
      values := values + [paramVals[indexes[i]]];
    }
  }
}
