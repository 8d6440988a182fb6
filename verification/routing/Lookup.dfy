/** What the trie promises: lookups are sound, captures line up, and own paths are found. */
module Lookup {
  import opened Collections
  import opened Paths
  import opened Glob
  import opened RouteTrie

  /** What a single edge stands for. */
  ghost predicate EdgeMatches(edge: string, seg: string, supportParams: bool) {
    edge == seg || edge == STAR || (supportParams && edge == PARAM) || (IsGlob(edge) && Globs(seg, edge))
  }

  ghost predicate PathMatches(route: Path, segs: seq<string>, supportParams: bool) {
    |route| == |segs| && forall i | 0 <= i < |route| :: EdgeMatches(route[i], segs[i], supportParams)
  }

  /** A route whose last edge is a star that takes whatever is left. */
  ghost predicate StarMatches(route: Path, segs: seq<string>, supportParams: bool) {
    && route != [] && Last(route) == STAR && |route| - 1 <= |segs|
    && PathMatches(Front(route), segs[..|route| - 1], supportParams)
  }

  lemma ChosenMatches(i: Node, seg: string, supportParams: bool, edge: string)
    requires InfoOk(i) && Chosen(i, seg, supportParams, edge)
    ensures EdgeMatches(edge, seg, supportParams) && edge in i.kids
  {
    if seg !in i.kids && !(supportParams && PARAM in i.kids) && STAR !in i.kids {
      assert edge in i.globs;
    }
  }

  lemma WalkMatches(info: Infos, walk: Path, segs: seq<string>, supportParams: bool)
    requires InfosOk(info) && Walks(info, walk, segs, supportParams)
    ensures PathMatches(walk, segs[..|walk|], supportParams)
  {
    forall i | 0 <= i < |walk| ensures EdgeMatches(walk[i], segs[i], supportParams) {
      ChosenMatches(info[walk[..i]], segs[i], supportParams, walk[i]);
    }
  }

  /**
   * The full match: a non-empty result is a stored route whose edges match the
   * segments one by one.
   */
  lemma MatchIsSound(info: Infos, walk: Path, path: string, sep: char, supportParams: bool)
    requires InfosOk(info) && Walks(info, walk, Segments(path, sep), supportParams)
    requires Reached(walk, path, sep) && info[walk].raw != ""
    ensures walk in RoutesOf(info) && RoutesOf(info)[walk] == info[walk].raw
    ensures PathMatches(walk, Segments(path, sep), supportParams)
  {
    assert InfoOk(info[walk]);
    WalkMatches(info, walk, Segments(path, sep), supportParams);
    assert Segments(path, sep)[..|walk|] == Segments(path, sep);
  }

  /**
   * The wildcard result: a non-empty one is a stored route that ends in a star and
   * whose other edges match the first segments; its own captures are the first of
   * those returned.
   */
  lemma {:induction false} StarIsSound(info: Infos, walk: Path, segs: seq<string>, supportParams: bool, n: nat)
    returns (route: Path)
    requires InfosOk(info) && Walks(info, walk, segs, supportParams) && n <= |walk| + 1
    requires StarRaw(info, walk, n) != ""
    ensures route in RoutesOf(info) && RoutesOf(info)[route] == StarRaw(info, walk, n)
    ensures StarMatches(route, segs, supportParams) && |route| <= n
    ensures Captured(Front(route), segs) <= Captured(walk, segs)
    ensures NoDeeperStar(info, walk, |route|, n)
  {
    hide StarRaw, Walks, EdgeMatches, InfosOk, Captured, RoutesOf, NoDeeperStar;
    WalkLength(info, walk, segs, supportParams);
    StarRawStep(info, walk, n);
    var q := walk[..n - 1] + [STAR];
    if q in RoutesOf(info) {
      route := q;
      StarAt(info, walk, segs, supportParams, n - 1);
      CapturedPrefix(walk, segs, n - 1);
    } else {
      route := StarIsSound(info, walk, segs, supportParams, n - 1);
    }
    DeeperStars(info, walk, |route|, n);
  }

  /** No star that ends a route hangs below the nodes lo to n - 1 of the walk. */
  ghost predicate NoDeeperStar(info: Infos, walk: Path, lo: nat, n: nat)
    requires n <= |walk| + 1
  {
    forall k | lo <= k < n :: walk[..k] + [STAR] !in RoutesOf(info)
  }

  lemma DeeperStars(info: Infos, walk: Path, lo: nat, n: nat)
    requires 0 < n <= |walk| + 1
    ensures n <= lo ==> NoDeeperStar(info, walk, lo, n)
    ensures walk[..n - 1] + [STAR] !in RoutesOf(info) && NoDeeperStar(info, walk, lo, n - 1) ==>
            NoDeeperStar(info, walk, lo, n)
  {
  }

  lemma StarRawStep(info: Infos, walk: Path, n: nat)
    requires n <= |walk| + 1 && StarRaw(info, walk, n) != ""
    ensures n > 0
    ensures var q := walk[..n - 1] + [STAR];
            StarRaw(info, walk, n) == if q in RoutesOf(info) then RoutesOf(info)[q] else StarRaw(info, walk, n - 1)
  {
  }

  lemma StarAt(info: Infos, walk: Path, segs: seq<string>, supportParams: bool, k: nat)
    requires InfosOk(info) && Walks(info, walk, segs, supportParams) && k <= |walk|
    ensures Front(walk[..k] + [STAR]) == walk[..k] && StarMatches(walk[..k] + [STAR], segs, supportParams)
  {
    hide EdgeMatches, Walks, InfosOk;
    assert |walk| <= |segs| by { WalkLength(info, walk, segs, supportParams); }
    WalkMatches(info, walk, segs, supportParams);
    assert Front(walk[..k] + [STAR]) == walk[..k];
    assert forall i | 0 <= i < k :: segs[..|walk|][i] == segs[..k][i];
  }

  lemma WalkLength(info: Infos, walk: Path, segs: seq<string>, supportParams: bool)
    requires Walks(info, walk, segs, supportParams)
    ensures |walk| <= |segs|
  {
  }

  lemma {:induction false} CapturedPrefix(walk: Path, segs: seq<string>, n: nat)
    requires n <= |walk| <= |segs|
    ensures Captured(walk[..n], segs) <= Captured(walk, segs)
  {
    if n < |walk| {
      CapturedPrefix(walk[..|walk| - 1], segs, n);
      assert walk[..|walk| - 1][..n] == walk[..n];
    } else {
      assert walk[..n] == walk;
    }
  }

  /** A stored route that ends in a star, matches the segments and captures what the values begin with. */
  ghost predicate StarFound(routes: map<Path, string>, route: Path, segs: seq<string>, supportParams: bool,
                            raw: string, vals: seq<string>) {
    && route in routes && routes[route] == raw
    && StarMatches(route, segs, supportParams) && Captured(Front(route), segs) <= vals
  }

  /**
   * What a lookup returns, put together: a full match and a wildcard result are both stored
   * routes that match the path, and the captured values begin with those of either.
   */
  lemma FindIsSound(info: Infos, walk: Path, path: string, sep: char, supportParams: bool,
                    matchedRaw: string, wildcardRaw: string, paramVals: seq<string>)
    requires InfosOk(info) && Answers(info, walk, path, sep, supportParams, matchedRaw, wildcardRaw, paramVals)
    ensures var segs := Segments(path, sep);
            matchedRaw != "" ==>
              && walk in RoutesOf(info) && RoutesOf(info)[walk] == matchedRaw
              && PathMatches(walk, segs, supportParams) && Captured(walk, segs) == paramVals
    ensures var segs := Segments(path, sep);
            wildcardRaw != "" ==>
              exists route :: StarFound(RoutesOf(info), route, segs, supportParams, wildcardRaw, paramVals)
  {
    hide InfosOk, Walks, Captured, StarRaw, PathMatches, StarMatches, RoutesOf;
    if matchedRaw != "" {
      MatchIsSound(info, walk, path, sep, supportParams);
    }
    if wildcardRaw != "" {
      var route := StarIsSound(info, walk, Segments(path, sep), supportParams,
                               if Reached(walk, path, sep) then |walk| + 1 else |walk|);
      assert StarFound(RoutesOf(info), route, Segments(path, sep), supportParams, wildcardRaw, paramVals);
    }
  }

  /** Two walks of one path agree as far as both go. */
  lemma {:induction false} WalkIsUnique(info: Infos, w: Path, v: Path, segs: seq<string>, supportParams: bool, n: nat)
    requires Walks(info, w, segs, supportParams) && Walks(info, v, segs, supportParams)
    requires n <= |w| && n <= |v|
    ensures w[..n] == v[..n]
  {
    if n > 0 {
      WalkIsUnique(info, w, v, segs, supportParams, n - 1);
      var i := info[w[..n - 1]];
      OneChoice(i, segs[n - 1], supportParams, w[n - 1], v[n - 1]);
    }
  }

  lemma OneChoice(i: Node, seg: string, supportParams: bool, a: string, b: string)
    requires Chosen(i, seg, supportParams, a) && Chosen(i, seg, supportParams, b)
    ensures a == b
  {
    if seg !in i.kids && !(supportParams && PARAM in i.kids) && STAR !in i.kids {
      var k :| 0 <= k < |i.globs| && i.globs[k] == a && Globs(seg, a)
             && forall j | 0 <= j < k :: !Globs(seg, i.globs[j]);
      var l :| 0 <= l < |i.globs| && i.globs[l] == b && Globs(seg, b)
             && forall j | 0 <= j < l :: !Globs(seg, i.globs[j]);
      assert k == l;
    }
  }

  /** A walk that has gone as far as it can: to the end of the segments, or to where no edge matches. */
  ghost predicate Maximal(info: Infos, walk: Path, segs: seq<string>, supportParams: bool) {
    && Walks(info, walk, segs, supportParams)
    && (|walk| < |segs| ==> Stuck(info[walk], segs[|walk|], supportParams))
  }

  lemma StuckIsStuck(i: Node, seg: string, supportParams: bool, edge: string)
    requires Stuck(i, seg, supportParams)
    ensures !Chosen(i, seg, supportParams, edge)
  {
  }

  lemma StuckBehind(info: Infos, w: Path, v: Path, segs: seq<string>, supportParams: bool)
    requires Maximal(info, w, segs, supportParams) && Walks(info, v, segs, supportParams)
    requires |w| <= |v| && v[..|w|] == w
    ensures |w| == |v|
  {
    hide Stuck, Chosen;
    if |w| < |v| {
      StuckIsStuck(info[w], segs[|w|], supportParams, v[|w|]);
    }
  }

  /** Two walks of one path that have both gone as far as they can are the same: what Find returns is determined. */
  lemma MaximalIsUnique(info: Infos, w: Path, v: Path, segs: seq<string>, supportParams: bool)
    requires Maximal(info, w, segs, supportParams) && Maximal(info, v, segs, supportParams)
    ensures w == v
  {
    hide Stuck, Chosen;
    var n := if |w| <= |v| then |w| else |v|;
    WalkIsUnique(info, w, v, segs, supportParams, n);
    assert w[..|w|] == w && v[..|v|] == v;
    if |w| <= |v| {
      StuckBehind(info, w, v, segs, supportParams);
    } else {
      StuckBehind(info, v, w, segs, supportParams);
    }
  }

  /** So two lookups of one path in one trie return the same. */
  lemma AnswersAreUnique(info: Infos, w: Path, v: Path, path: string, sep: char, supportParams: bool,
                         m: string, m': string, s: string, s': string, vals: seq<string>, vals': seq<string>)
    requires Answers(info, w, path, sep, supportParams, m, s, vals)
    requires Answers(info, v, path, sep, supportParams, m', s', vals')
    ensures m == m' && s == s' && vals == vals'
  {
    hide Stuck, Walks, StarRaw, Captured;
    MaximalIsUnique(info, w, v, Segments(path, sep), supportParams);
  }

  /**
   * A stored route is always found by its own segments, whatever else is stored:
   * every step of the walk takes the edge of that very name.
   */
  lemma {:induction false} OwnPathWalk(root: Trie, nodes: Nodes, info: Infos, walk: Path, segs: seq<string>,
                                       supportParams: bool, n: nat)
    requires TreeOk(root, nodes, info) && segs in info
    requires Walks(info, walk, segs, supportParams) && n <= |walk|
    ensures walk[..n] == segs[..n] && segs[..n] in info
    ensures n < |segs| ==> segs[n] in info[segs[..n]].kids
  {
    hide TreeOk, Chosen;
    OneNodeEach(root, nodes, info);
    if n > 0 {
      OwnPathWalk(root, nodes, info, walk, segs, supportParams, n - 1);
      ExactFirst(info[walk[..n - 1]], segs[n - 1], supportParams, walk[n - 1]);
    }
    PrefixThere(root, nodes, info, segs, n);
    if n < |segs| {
      PrefixThere(root, nodes, info, segs, n + 1);
      assert segs[..n + 1] == segs[..n] + [segs[n]];
      NotThere(root, nodes, info, segs[..n], segs[n]);
    }
  }

  lemma ExactFirst(i: Node, seg: string, supportParams: bool, edge: string)
    requires Chosen(i, seg, supportParams, edge) && seg in i.kids
    ensures edge == seg
  {
  }

  lemma {:induction false} PrefixThere(root: Trie, nodes: Nodes, info: Infos, p: Path, n: nat)
    requires TreeOk(root, nodes, info) && p in info && n <= |p|
    ensures p[..n] in info
    decreases |p|
  {
    if n < |p| {
      assert Linked(nodes, info, p);
      PrefixThere(root, nodes, info, Front(p), n);
      assert Front(p)[..n] == p[..n];
    } else {
      assert p[..n] == p;
    }
  }

  /** Find returns a stored route on its own closed path, with nothing captured. */
  lemma OwnPathFound(root: Trie, nodes: Nodes, info: Infos, walk: Path, path: string, sep: char, supportParams: bool)
    requires TreeOk(root, nodes, info)
    requires var segs := Segments(path, sep);
             && segs != [] && Closed(path, sep) && segs in info
             && Walks(info, walk, segs, supportParams)
             && (|walk| < |segs| ==> Stuck(info[walk], segs[|walk|], supportParams))
    ensures Reached(walk, path, sep) && walk == Segments(path, sep)
    ensures Captured(walk, Segments(path, sep)) == []
  {
    var segs := Segments(path, sep);
    OwnPathWalk(root, nodes, info, walk, segs, supportParams, |walk|);
    assert walk[..|walk|] == walk;
    if |walk| == |segs| {
      assert segs[..|walk|] == segs;
    }
    NothingCaptured(segs, segs);
  }

  lemma {:induction false} NothingCaptured(walk: Path, segs: seq<string>)
    requires walk <= segs
    ensures Captured(walk, segs) == []
  {
    if walk != [] {
      NothingCaptured(walk[..|walk| - 1], segs);
    }
  }

  /** In a pruned trie every node but the root leads to a route. */
  lemma {:induction false} LeadsToRoute(root: Trie, nodes: Nodes, info: Infos, p: Path) returns (r: Path)
    requires TreeOk(root, nodes, info) && Pruned(info) && p in info && p != []
    ensures r in RoutesOf(info) && p <= r
    decreases |set q | q in info && p <= q|
  {
    if info[p].kids == map[] {
      r := p;
    } else {
      var k :| k in info[p].kids;
      var below, here := set q | q in info && p + [k] <= q, set q | q in info && p <= q;
      assert below <= here && p in here && p !in below;
      ProperSize(below, here);
      r := LeadsToRoute(root, nodes, info, p + [k]);
    }
  }
}
