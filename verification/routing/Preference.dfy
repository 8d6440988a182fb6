/** Which stored route a lookup prefers, said by the routes alone. */
module Preference {
  import opened Collections
  import opened Paths
  import opened Glob
  import opened RouteTrie
  import opened Lookup

  /** Some stored route goes along this path. */
  ghost predicate Leads(routes: map<Path, string>, p: Path) {
    exists r :: r in routes && p <= r
  }

  /** The k-th glob matches and none in front of it does. */
  ghost predicate FirstMatch(seg: string, globs: seq<string>, k: int) {
    0 <= k < |globs| && Globs(seg, globs[k]) && forall j | 0 <= j < k :: !Globs(seg, globs[j])
  }

  /** In a pruned trie the nodes below the root are the beginnings of routes. */
  lemma NodesLead(trie: Trie, p: Path)
    requires trie.Valid() && Pruned(trie.Info()) && p != []
    ensures p in trie.nodes <==> Leads(trie.Routes(), p)
  {
    hide InfosOk, Pruned;
    if p in trie.nodes {
      var r := LeadsToRoute(trie, trie.nodes, trie.Info(), p);
    }
    if r :| r in trie.Routes() && p <= r {
      Beginnings(trie, r, |p|);
      assert r[..|p|] == p;
    }
  }

  lemma {:induction false} Beginnings(trie: Trie, r: Path, n: nat)
    requires trie.Valid() && r in trie.nodes && n <= |r|
    ensures r[..n] in trie.nodes
    decreases |r| - n
  {
    hide InfosOk, TreeOk;
    if n == |r| {
      assert r[..n] == r;
    } else {
      Beginnings(trie, r, n + 1);
      assert r[..n + 1] == r[..n] + [r[n]];
      trie.Above(r[..n], r[n]);
    }
  }

  /** An edge leads somewhere exactly if some route goes along it. */
  lemma EdgesLead(trie: Trie, p: Path, k: string)
    requires trie.Valid() && Pruned(trie.Info()) && p in trie.Info()
    ensures k in trie.Info()[p].kids <==> Leads(trie.Routes(), p + [k])
  {
    hide InfosOk, Pruned, Leads;
    NodesLead(trie, p + [k]);
    NotThere(trie, trie.nodes, trie.Info(), p, k);
  }

  /**
   * Every step of a walk takes the segment's own name if some route goes on with it, else the
   * parameter sign if some route goes on with that, else the star, else the glob that was there first
   * of those that match.
   */
  lemma StepPrefers(trie: Trie, walk: Path, segs: seq<string>, supportParams: bool, i: nat)
    requires trie.Valid() && Pruned(trie.Info()) && Walks(trie.Info(), walk, segs, supportParams) && i < |walk|
    ensures var routes, p := trie.Routes(), walk[..i]; var globs := GlobsIn(trie.Info(), p);
            if Leads(routes, p + [segs[i]]) then walk[i] == segs[i]
            else if supportParams && Leads(routes, p + ["$"]) then walk[i] == "$"
            else if Leads(routes, p + ["*"]) then walk[i] == "*"
            else exists k :: FirstMatch(segs[i], globs, k) && globs[k] == walk[i]
  {
    hide Trie.Valid, Pruned, Leads, Globs;
    var p := walk[..i];
    EdgesLead(trie, p, segs[i]);
    EdgesLead(trie, p, PARAM);
    EdgesLead(trie, p, STAR);
    var here := trie.Info()[p];
    assert GlobsIn(trie.Info(), p) == here.globs && Chosen(here, segs[i], supportParams, walk[i]);
    if segs[i] !in here.kids && !(supportParams && PARAM in here.kids) && STAR !in here.kids {
      var k :| 0 <= k < |here.globs| && here.globs[k] == walk[i] && Globs(segs[i], walk[i])
               && forall j | 0 <= j < k :: !Globs(segs[i], here.globs[j]);
      assert FirstMatch(segs[i], here.globs, k);
    }
  }

  /** A walk ends before the path does only where no route goes on with the segment, the sign, the star or a glob. */
  lemma EndPrefers(trie: Trie, walk: Path, segs: seq<string>, supportParams: bool)
    requires trie.Valid() && Pruned(trie.Info()) && Maximal(trie.Info(), walk, segs, supportParams)
    ensures |walk| < |segs| ==>
              && !Leads(trie.Routes(), walk + [segs[|walk|]]) && !Leads(trie.Routes(), walk + ["*"])
              && !(supportParams && Leads(trie.Routes(), walk + ["$"]))
              && forall g | g in GlobsIn(trie.Info(), walk) :: !Globs(segs[|walk|], g)
  {
    hide Trie.Valid, Pruned, Leads, Globs;
    if |walk| < |segs| {
      EdgesLead(trie, walk, segs[|walk|]);
      EdgesLead(trie, walk, PARAM);
      EdgesLead(trie, walk, STAR);
    }
  }

  /** The n-th node of a walk is the last one below which a star ends a route. */
  ghost predicate LastStar(routes: map<Path, string>, walk: Path, n: nat) {
    n <= |walk| && walk[..n] + ["*"] in routes && forall k | n < k <= |walk| :: walk[..k] + ["*"] !in routes
  }

  /**
   * What a lookup makes of its walk: the route at its end if the path ends there too, and of the routes
   * that leave the walk with a last star the one that leaves it last; nothing where there is none.
   */
  lemma ResultsAre(trie: Trie, walk: Path, path: string, sep: char, supportParams: bool,
                   m: string, w: string, vals: seq<string>)
    requires trie.Valid() && Answers(trie.Info(), walk, path, sep, supportParams, m, w, vals)
    requires Closed(path, sep) && Segments(path, sep) != []
    ensures var routes := trie.Routes();
            && m == (if |walk| == |Segments(path, sep)| && walk in routes then routes[walk] else "")
            && (forall n: nat | LastStar(routes, walk, n) :: w == routes[walk[..n] + ["*"]])
            && ((forall n | 0 <= n <= |walk| :: walk[..n] + ["*"] !in routes) ==> w == "")
  {
    hide TreeOk, Captured, StarRaw, Segments, Closed, Globs;
    var info, segs := trie.Info(), Segments(path, sep);
    assert InfoOk(info[walk]);
    assert walk[..|walk|] == walk;
    if |walk| < |segs| {
      NotThere(trie, trie.nodes, info, walk, STAR);
      StarRawIs(info, walk, |walk|);
    } else {
      StarRawIs(info, walk, |walk| + 1);
    }
  }

  lemma {:induction false} StarRawIs(info: Infos, walk: Path, n: nat)
    requires n <= |walk| + 1
    ensures forall k: nat | k < n && walk[..k] + ["*"] in RoutesOf(info)
                            && (forall l | k < l < n :: walk[..l] + ["*"] !in RoutesOf(info)) ::
              StarRaw(info, walk, n) == RoutesOf(info)[walk[..k] + ["*"]]
    ensures (forall k | 0 <= k < n :: walk[..k] + ["*"] !in RoutesOf(info)) ==> StarRaw(info, walk, n) == ""
  {
    if n > 0 {
      StarRawIs(info, walk, n - 1);
    }
  }

  /** A walk goes along its path by name as far as some route does. */
  lemma {:induction false} ByName(trie: Trie, walk: Path, segs: seq<string>, supportParams: bool, f: Path, n: nat)
    requires trie.Valid() && Pruned(trie.Info()) && Maximal(trie.Info(), walk, segs, supportParams)
    requires f <= segs && n <= |f| && (f == [] || Leads(trie.Routes(), f))
    ensures n <= |walk| && walk[..n] == f[..n]
  {
    hide Trie.Valid, Pruned, Walks, Stuck;
    if n > 0 {
      ByName(trie, walk, segs, supportParams, f, n - 1);
      var p := f[..n - 1];
      assert f[..n] == p + [segs[n - 1]] && walk[..n - 1] == p;
      assert Leads(trie.Routes(), p + [segs[n - 1]]) by {
        var r :| r in trie.Routes() && f <= r;
        assert f[..n] <= r;
      }
      if |walk| == n - 1 {
        assert walk[..n - 1] == walk;
        EndPrefers(trie, walk, segs, supportParams);
      } else {
        StepPrefers(trie, walk, segs, supportParams, n - 1);
        assert walk[..n] == walk[..n - 1] + [walk[n - 1]];
      }
    }
  }

  /** What a lookup returns when its walk follows the whole of a closed path to the end of a route. */
  lemma Ends(trie: Trie, walk: Path, path: string, sep: char, supportParams: bool,
             m: string, w: string, vals: seq<string>)
    requires Answers(trie.Info(), walk, path, sep, supportParams, m, w, vals)
    requires walk in trie.Routes() && walk != [] && |walk| == |Segments(path, sep)| && Closed(path, sep)
    ensures m == trie.Routes()[walk] && vals == Captured(walk, Segments(path, sep))
  {
    hide Captured, StarRaw, Walks, Stuck, Segments, Closed;
  }

  lemma OneMoreEdge(walk: Path, f: Path, n: nat)
    requires n == |f| < |walk| && walk[..n] == f
    ensures |walk| == n + 1 ==> walk == f + [walk[n]]
  {
    if |walk| == n + 1 {
      assert walk == walk[..n] + [walk[n]];
    }
  }

  lemma CapturedLast(f: Path, edge: string, seg: string)
    ensures Captured(f + [edge], f + [seg]) == if edge == PARAM && seg != PARAM then [seg] else []
  {
    var w, segs := f + [edge], f + [seg];
    assert w[..|f|] == f && f <= segs;
    NothingCaptured(f, segs);
  }

  /**
   * What a lookup prefers for the last segment behind f, where no route goes on with the segment's own
   * name: the parameter, whose value is the segment; without it the star; without both the glob that
   * was there first of those that match.
   */
  lemma LastEdge(trie: Trie, walk: Path, path: string, sep: char, supportParams: bool,
                 m: string, w: string, vals: seq<string>, f: Path, seg: string)
    requires trie.Valid() && Pruned(trie.Info()) && (f == [] || Leads(trie.Routes(), f))
    requires Segments(path, sep) == f + [seg] && Closed(path, sep) && !Leads(trie.Routes(), f + [seg])
    requires Answers(trie.Info(), walk, path, sep, supportParams, m, w, vals)
    ensures supportParams && f + ["$"] in trie.Routes() ==>
              m == trie.Routes()[f + ["$"]] && vals == [seg]
    ensures !(supportParams && Leads(trie.Routes(), f + ["$"])) && f + ["*"] in trie.Routes() ==>
              m == trie.Routes()[f + ["*"]] && vals == []
    ensures var globs := GlobsIn(trie.Info(), f);
            !(supportParams && Leads(trie.Routes(), f + ["$"])) && !Leads(trie.Routes(), f + ["*"]) ==>
              forall k | FirstMatch(seg, globs, k) && f + [globs[k]] in trie.Routes() ::
                m == trie.Routes()[f + [globs[k]]] && vals == []
  {
    hide Trie.Valid, Trie.Routes, Pruned, Leads, Globs, Walks, Stuck, StarRaw, Captured, Closed;
    var segs, n := f + [seg], |f|;
    assert segs[n] == seg && f <= segs && segs[..n] == f;
    ByName(trie, walk, segs, supportParams, f, n);
    assert f[..n] == f && walk[..n] == f;
    if |walk| == n {
      assert walk == f;
      EndPrefers(trie, walk, segs, supportParams);
      LeadsIfThere(trie.Routes(), f + ["$"]);
      LeadsIfThere(trie.Routes(), f + ["*"]);
    } else {
      StepPrefers(trie, walk, segs, supportParams, n);
      WalkLength(trie.Info(), walk, segs, supportParams);
      OneMoreEdge(walk, f, n);
      CapturedLast(f, walk[n], seg);
      NotTheSign(trie, walk, segs, supportParams, f, seg);
      LeadsIfThere(trie.Routes(), f + ["$"]);
      LeadsIfThere(trie.Routes(), f + ["*"]);
      if walk in trie.Routes() {
        Ends(trie, walk, path, sep, supportParams, m, w, vals);
      }
      var globs := GlobsIn(trie.Info(), f);
      FirstIsOnly(seg, globs);
      if !(supportParams && Leads(trie.Routes(), f + ["$"])) && !Leads(trie.Routes(), f + ["*"]) {
        var l :| FirstMatch(seg, globs, l) && globs[l] == walk[n];
        assert globs[l] in globs;
        forall k | FirstMatch(seg, globs, k) && f + [globs[k]] in trie.Routes()
          ensures m == trie.Routes()[f + [globs[k]]] && vals == []
        {
          assert k == l;
        }
      }
    }
  }

  /** Only one glob is the first that matches. */
  lemma FirstIsOnly(seg: string, globs: seq<string>)
    ensures forall k, l | FirstMatch(seg, globs, k) && FirstMatch(seg, globs, l) :: k == l
  {
    hide Globs;
  }

  lemma LeadsIfThere(routes: map<Path, string>, p: Path)
    ensures p in routes ==> Leads(routes, p)
  {
  }

  /** Where a route goes on with the sign, the segment is not the sign; a glob is not the sign either. */
  lemma NotTheSign(trie: Trie, walk: Path, segs: seq<string>, supportParams: bool, f: Path, seg: string)
    requires trie.Valid() && !Leads(trie.Routes(), f + [seg])
    ensures Leads(trie.Routes(), f + ["$"]) ==> seg != PARAM
    ensures forall g | g in GlobsIn(trie.Info(), f) :: g != PARAM
  {
    hide TreeOk, Leads;
    if f in trie.Info() {
      assert InfoOk(trie.Info()[f]);
    }
  }

  /** The same of a lookup of the path that f and the segment make. */
  method FindLast(trie: Trie, f: Path, seg: string, sep: char, supportParams: bool)
    returns (m: string, w: string, vals: seq<string>)
    requires trie.Valid() && Pruned(trie.Info()) && (f == [] || Leads(trie.Routes(), f))
    requires (forall k | k in f + [seg] :: sep !in k) && !Leads(trie.Routes(), f + [seg])
    ensures supportParams && f + ["$"] in trie.Routes() ==>
              m == trie.Routes()[f + ["$"]] && vals == [seg]
    ensures !(supportParams && Leads(trie.Routes(), f + ["$"])) && f + ["*"] in trie.Routes() ==>
              m == trie.Routes()[f + ["*"]] && vals == []
    ensures var globs := GlobsIn(trie.Info(), f);
            !(supportParams && Leads(trie.Routes(), f + ["$"])) && !Leads(trie.Routes(), f + ["*"]) ==>
              forall k | FirstMatch(seg, globs, k) && f + [globs[k]] in trie.Routes() ::
                m == trie.Routes()[f + [globs[k]]] && vals == []
  {
    hide Trie.Valid, Trie.Routes, Pruned, Leads, Globs, Answers, Render, Segments, Closed, FirstMatch, GlobsIn;
    var path := Render(f + [seg], sep);
    SegmentsOfRender(f + [seg], sep);
    m, w, vals := trie.Find(path, sep, supportParams);
    ghost var walk :| Answers(trie.Info(), walk, path, sep, supportParams, m, w, vals);
    LastEdge(trie, walk, path, sep, supportParams, m, w, vals, f, seg);
  }

  // ----- globs are tried in the order in which they were registered

  /** The globs that go on from p, in the order in which these keys first bring them. */
  function FirstSeen(keys: seq<Path>, p: Path): seq<string> {
    if keys == [] then [] else GlobsWith(FirstSeen(keys[..|keys| - 1], p), p, keys[|keys| - 1])
  }

  /** The n-th of the keys goes on from p with k. */
  predicate Brings(keys: seq<Path>, n: nat, p: Path, k: string) {
    n < |keys| && p + [k] <= keys[n]
  }

  /** They are the globs that some key brings, each once, and one comes first whose first key comes first. */
  lemma {:induction false} FirstSeenIs(keys: seq<Path>, p: Path)
    ensures Distinct(FirstSeen(keys, p))
    ensures forall k :: k in FirstSeen(keys, p) <==> IsGlob(k) && exists n :: Brings(keys, n, p, k)
    ensures forall a, b, n: nat | Before(FirstSeen(keys, p), a, b) && Brings(keys, n, p, b) ::
              exists m: nat | m <= n :: Brings(keys, m, p, a)
  {
    hide IsGlob;
    if keys != [] {
      var front, last := keys[..|keys| - 1], keys[|keys| - 1];
      FirstSeenIs(front, p);
      BringsMore(keys, p);
      var old', new', l := FirstSeen(front, p), FirstSeen(keys, p), |keys| - 1;
      forall k ensures k in new' <==> IsGlob(k) && exists n :: Brings(keys, n, p, k) {
        assert k in new' <==> k in old' || (IsGlob(k) && Brings(keys, l, p, k));
        if n :| Brings(keys, n, p, k) {
          assert n == l || Brings(front, n, p, k);
        }
        if n :| Brings(front, n, p, k) {
          assert Brings(keys, n, p, k);
        }
      }
      forall a, b, n: nat | Before(new', a, b) && Brings(keys, n, p, b)
        ensures exists m: nat | m <= n :: Brings(keys, m, p, a)
      {
        BeforeMore(old', new', a, b);
        if Before(old', a, b) && n < |front| {
          assert Brings(front, n, p, b);
          var m: nat :| m <= n && Brings(front, m, p, a);
          assert Brings(keys, m, p, a);
        } else {
          assert a in old';
          var m :| Brings(front, m, p, a);
          assert Brings(keys, m, p, a);
        }
      }
    }
  }

  lemma BringsMore(keys: seq<Path>, p: Path)
    requires keys != []
    ensures forall k, n: nat | n < |keys| - 1 :: Brings(keys, n, p, k) <==> Brings(keys[..|keys| - 1], n, p, k)
    ensures var l := |keys| - 1; forall k :: Brings(keys, l, p, k) <==> p < keys[l] && keys[l][|p|] == k
  {
  }

  lemma BeforeMore(xs: seq<string>, ys: seq<string>, a: string, b: string)
    requires xs <= ys && |ys| <= |xs| + 1 && Before(ys, a, b)
    ensures a in xs && (Before(xs, a, b) || (|ys| > |xs| && b == ys[|xs|]))
  {
  }

  /** Stores routes under their keys one after the other in a new trie: the globs stand in the order of registration. */
  method InsertAll(routes: seq<(string, string)>, sep: char) returns (trie: Trie)
    ensures trie.Valid()
    ensures forall p :: GlobsIn(trie.Info(), p) == FirstSeen(Keys(routes, sep), p)
  {
    hide Trie.Valid, Segments, GlobsWith;
    trie := new Trie();
    for i := 0 to |routes|
      invariant trie.Valid() && fresh(trie) && fresh(trie.nodes.Values)
      invariant forall p :: GlobsIn(trie.Info(), p) == FirstSeen(Keys(routes[..i], sep), p)
    {
      ghost var info := trie.Info();
      trie.Insert(routes[i].0, routes[i].1, sep);
      KeysMore(routes, i, sep);
    }
    assert routes[..|routes|] == routes;
  }

  function Keys(routes: seq<(string, string)>, sep: char): seq<Path> {
    seq(|routes|, i requires 0 <= i < |routes| => Segments(routes[i].1, sep))
  }

  lemma KeysMore(routes: seq<(string, string)>, i: nat, sep: char)
    requires i < |routes|
    ensures Keys(routes[..i + 1], sep) == Keys(routes[..i], sep) + [Segments(routes[i].1, sep)]
    ensures forall p ::
              FirstSeen(Keys(routes[..i + 1], sep), p)
              == GlobsWith(FirstSeen(Keys(routes[..i], sep), p), p, Segments(routes[i].1, sep))
  {
    hide GlobsWith, Segments;
    var keys := Keys(routes[..i + 1], sep);
    assert keys[..|keys| - 1] == Keys(routes[..i], sep);
  }
}
