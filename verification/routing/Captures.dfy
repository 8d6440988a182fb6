/** The names of a route and the values a lookup captures along it: when they line up. */
module Captures {
  import opened Collections
  import opened Paths
  import opened RouteTrie
  import opened Lookup
  import opened Params

  /**
   * What the names of a route stand for in the segments it matched, in order: a name that fills
   * a part for its segment, any other for the sign that is written for it.
   */
  function PairsOf(parts: seq<Part>, segs: seq<string>): seq<(string, string)>
    requires |parts| <= |segs|
  {
    if parts == [] then [] else
    var n := |parts| - 1;
    PairsOf(parts[..n], segs) + PairsIn(NamesIn(parts[n]), if parts[n].Par? then segs[n] else PARAM)
  }

  function PairsIn(names: seq<string>, value: string): seq<(string, string)> {
    seq(|names|, i requires 0 <= i < |names| => (names[i], value))
  }

  function ValuesOf(pairs: seq<(string, string)>): seq<string> {
    seq(|pairs|, i requires 0 <= i < |pairs| => pairs[i].1)
  }

  /** Under each name stand exactly the values of the pairs, and every index is in range. */
  ghost predicate LinesUp(raw: string, vals: seq<string>, pairs: seq<(string, string)>) {
    InStep(Positions(Names(raw, 0)), vals, pairs)
  }

  ghost predicate InStep(paramKey: map<string, seq<nat>>, vals: seq<string>, pairs: seq<(string, string)>) {
    forall name | name in paramKey ::
      && (forall k | k in paramKey[name] :: k < |vals|)
      && Values(paramKey, vals, name) == ValuesNamed(pairs, name)
  }

  // ----- in step is in front

  /** The pairs are those of the names, in order. */
  ghost predicate Named(names: seq<string>, pairs: seq<(string, string)>) {
    |names| == |pairs| && forall k | 0 <= k < |names| :: pairs[k].0 == names[k]
  }

  lemma {:induction false} NamesStand(parts: seq<Part>, segs: seq<string>)
    requires |parts| <= |segs|
    ensures Named(NamesOf(parts), PairsOf(parts, segs))
  {
    hide NamesIn;
    if parts != [] {
      NamesStand(parts[..|parts| - 1], segs);
    }
  }

  /** One name's positions lie within the values, and what stands there is wanted. */
  ghost predicate OneInStep(at: seq<nat>, vals: seq<string>, want: seq<string>) {
    |at| == |want| && forall i | 0 <= i < |at| :: at[i] < |vals| && vals[at[i]] == want[i]
  }

  lemma OneIs(paramKey: map<string, seq<nat>>, vals: seq<string>, name: string, want: seq<string>)
    requires name in paramKey
    ensures OneInStep(paramKey[name], vals, want)
            <==> (forall k | k in paramKey[name] :: k < |vals|) && Values(paramKey, vals, name) == want
  {
    if (forall k | k in paramKey[name] :: k < |vals|) && Values(paramKey, vals, name) == want {
      var at := paramKey[name];
      forall i | 0 <= i < |at| ensures at[i] < |vals| && vals[at[i]] == want[i] {
        assert at[i] in at && Values(paramKey, vals, name)[i] == want[i];
      }
    }
  }

  lemma OneMore(at: seq<nat>, n: nat, vals: seq<string>, want: seq<string>, w: string)
    ensures OneInStep(at + [n], vals, want + [w])
            <==> OneInStep(at, vals, want) && n < |vals| && vals[n] == w
  {
    var at', want' := at + [n], want + [w];
    assert at'[..|at|] == at && at'[|at|] == n && n in at';
    assert want'[..|want|] == want && want'[|want|] == w;
    assert forall k :: k in at' <==> k in at || k == n;
    if OneInStep(at', vals, want') {
      forall i | 0 <= i < |at| ensures at[i] < |vals| && vals[at[i]] == want[i] {
        assert at'[i] == at[i] && want'[i] == want[i];
      }
    }
  }

  function PositionsOf(names: seq<string>, name: string): seq<nat> {
    if name in Positions(names) then Positions(names)[name] else []
  }

  /** Under every name, those without a position included, stand the values of its pairs. */
  ghost predicate AllInStep(names: seq<string>, vals: seq<string>, pairs: seq<(string, string)>) {
    forall name :: OneInStep(PositionsOf(names, name), vals, ValuesNamed(pairs, name))
  }

  lemma {:induction false} NoValues(names: seq<string>, pairs: seq<(string, string)>, name: string)
    requires Named(names, pairs) && name !in Positions(names)
    ensures ValuesNamed(pairs, name) == []
  {
    if names != [] {
      NoValues(names[..|names| - 1], pairs[..|names| - 1], name);
    }
  }

  lemma InStepAll(names: seq<string>, vals: seq<string>, pairs: seq<(string, string)>)
    requires Named(names, pairs)
    ensures InStep(Positions(names), vals, pairs) <==> AllInStep(names, vals, pairs)
  {
    hide OneInStep, Positions, Values, ValuesNamed, Named;
    forall name | name !in Positions(names)
      ensures OneInStep(PositionsOf(names, name), vals, ValuesNamed(pairs, name))
    {
      NoValues(names, pairs, name);
      NoneInStep(vals);
    }
    forall name | name in Positions(names) {
      OneIs(Positions(names), vals, name, ValuesNamed(pairs, name));
    }
    if InStep(Positions(names), vals, pairs) {
      forall name ensures OneInStep(PositionsOf(names, name), vals, ValuesNamed(pairs, name)) {
        if name in Positions(names) {
          OneIs(Positions(names), vals, name, ValuesNamed(pairs, name));
        }
      }
    }
    if AllInStep(names, vals, pairs) {
      forall name | name in Positions(names)
        ensures (forall k | k in Positions(names)[name] :: k < |vals|)
                && Values(Positions(names), vals, name) == ValuesNamed(pairs, name)
      {
        assert OneInStep(PositionsOf(names, name), vals, ValuesNamed(pairs, name));
        OneIs(Positions(names), vals, name, ValuesNamed(pairs, name));
      }
    }
  }

  lemma NoneInStep(vals: seq<string>)
    ensures OneInStep([], vals, [])
  {
  }

  lemma LastName(names: seq<string>, pairs: seq<(string, string)>, name: string)
    requires names != [] && Named(names, pairs)
    ensures var n, last := |names| - 1, names[|names| - 1];
            && PositionsOf(names, name) == PositionsOf(names[..n], name) + (if name == last then [n] else [])
            && ValuesNamed(pairs, name) == ValuesNamed(pairs[..n], name) + (if name == last then [pairs[n].1] else [])
  {
  }

  lemma LastInStep(names: seq<string>, vals: seq<string>, pairs: seq<(string, string)>)
    requires names != [] && Named(names, pairs)
    ensures var n := |names| - 1;
            AllInStep(names, vals, pairs)
            <==> AllInStep(names[..n], vals, pairs[..n]) && n < |vals| && vals[n] == pairs[n].1
  {
    hide OneInStep, PositionsOf, ValuesNamed;
    var n, last := |names| - 1, names[|names| - 1];
    forall name ensures OneInStep(PositionsOf(names, name), vals, ValuesNamed(pairs, name))
                        <==> OneInStep(PositionsOf(names[..n], name), vals, ValuesNamed(pairs[..n], name))
                             && (name == last ==> n < |vals| && vals[n] == pairs[n].1)
    {
      LastName(names, pairs, name);
      if name == last {
        OneMore(PositionsOf(names[..n], name), n, vals, ValuesNamed(pairs[..n], name), pairs[n].1);
      } else {
        assert PositionsOf(names[..n], name) + [] == PositionsOf(names[..n], name);
        assert ValuesNamed(pairs[..n], name) + [] == ValuesNamed(pairs[..n], name);
      }
    }
    if AllInStep(names, vals, pairs) {
      assert OneInStep(PositionsOf(names, last), vals, ValuesNamed(pairs, last));
    }
  }

  lemma {:induction false} AllInFront(names: seq<string>, vals: seq<string>, pairs: seq<(string, string)>)
    requires Named(names, pairs)
    ensures AllInStep(names, vals, pairs) <==> ValuesOf(pairs) <= vals
  {
    if names == [] {
      assert pairs == [];
      forall name ensures OneInStep(PositionsOf(names, name), vals, ValuesNamed(pairs, name)) {
        NoneInStep(vals);
      }
    } else {
      hide AllInStep;
      var n := |names| - 1;
      AllInFront(names[..n], vals, pairs[..n]);
      LastInStep(names, vals, pairs);
      assert ValuesOf(pairs) == ValuesOf(pairs[..n]) + [pairs[n].1];
    }
  }

  /** The values are in step with the names if and only if they start with the values of the pairs. */
  lemma InStepIff(names: seq<string>, vals: seq<string>, pairs: seq<(string, string)>)
    requires Named(names, pairs)
    ensures InStep(Positions(names), vals, pairs) <==> ValuesOf(pairs) <= vals
  {
    hide InStep, AllInStep, Named;
    InStepAll(names, vals, pairs);
    AllInFront(names, vals, pairs);
  }

  // ----- which segments are captured

  /** The segments at some positions. */
  function Pick(segs: seq<string>, at: seq<nat>): seq<string>
    requires forall k | k in at :: k < |segs|
  {
    seq(|at|, i requires 0 <= i < |at| => assert at[i] in at; segs[at[i]])
  }

  /** Where a name fills a part. */
  function PlacesOf(parts: seq<Part>): (at: seq<nat>)
    ensures forall k | k in at :: k < |parts| && parts[k].Par?
  {
    if parts == [] then [] else
    var n := |parts| - 1;
    PlacesOf(parts[..n]) + if parts[n].Par? then [n] else []
  }

  /** Where a walk captures a segment. */
  function TakenAt(walk: Path, segs: seq<string>): (at: seq<nat>)
    requires |walk| <= |segs|
    ensures forall k | k in at :: k < |walk| && segs[k] != PARAM
  {
    if walk == [] then [] else
    var n := |walk| - 1;
    TakenAt(walk[..n], segs) + if walk[n] == PARAM && segs[n] != PARAM then [n] else []
  }

  lemma {:induction false} CapturedIsPicked(walk: Path, segs: seq<string>)
    requires |walk| <= |segs|
    ensures Captured(walk, segs) == Pick(segs, TakenAt(walk, segs)) && PARAM !in Captured(walk, segs)
  {
    if walk != [] {
      CapturedIsPicked(walk[..|walk| - 1], segs);
    }
  }

  /** Names stand only where they fill a part. */
  predicate Nameless(parts: seq<Part>) {
    forall i | 0 <= i < |parts| && parts[i].Lit? :: NamesIn(parts[i]) == []
  }

  /** No name takes a segment that is the parameter sign itself. */
  predicate NoSignTaken(parts: seq<Part>, segs: seq<string>)
    requires |parts| <= |segs|
  {
    forall i | 0 <= i < |parts| && parts[i].Par? :: segs[i] != PARAM
  }

  /** And a part that is the sign, in front of a name, takes nothing but the sign. */
  predicate InOrder(parts: seq<Part>, segs: seq<string>)
    requires |parts| <= |segs|
  {
    && NoSignTaken(parts, segs)
    && forall j, i | 0 <= j < i < |parts| && parts[j] == Lit(PARAM) && parts[i].Par? :: segs[j] == PARAM
  }

  predicate SignsTaken(parts: seq<Part>, segs: seq<string>)
    requires |parts| <= |segs|
  {
    forall j | 0 <= j < |parts| && parts[j] == Lit(PARAM) :: segs[j] == PARAM
  }

  lemma {:induction false} WantedIsPicked(parts: seq<Part>, segs: seq<string>)
    requires |parts| <= |segs| && Nameless(parts)
    ensures ValuesOf(PairsOf(parts, segs)) == Pick(segs, PlacesOf(parts))
  {
    hide NamesIn;
    if parts != [] {
      var n := |parts| - 1;
      assert Nameless(parts[..n]);
      WantedIsPicked(parts[..n], segs);
      NamesInPar(parts[n]);
      assert parts[n].Lit? ==> NamesIn(parts[n]) == [];
      var front, last := PairsOf(parts[..n], segs), if parts[n].Par? then [(parts[n].name, segs[n])] else [];
      assert PairsOf(parts, segs) == front + last;
      assert ValuesOf(front + last) == ValuesOf(front) + ValuesOf(last);
    }
  }

  lemma {:induction false} SignWanted(parts: seq<Part>, segs: seq<string>)
    requires |parts| <= |segs| && !(Nameless(parts) && NoSignTaken(parts, segs))
    ensures PARAM in ValuesOf(PairsOf(parts, segs))
  {
    hide NamesIn;
    var n := |parts| - 1;
    var front, last := PairsOf(parts[..n], segs), PairsIn(NamesIn(parts[n]), if parts[n].Par? then segs[n] else PARAM);
    assert ValuesOf(PairsOf(parts, segs)) == ValuesOf(front) + ValuesOf(last);
    if !(Nameless(parts[..n]) && NoSignTaken(parts[..n], segs)) {
      SignWanted(parts[..n], segs);
    } else {
      NamesInPar(parts[n]);
      assert ValuesOf(last)[0] == PARAM;
    }
  }

  lemma NamesInPar(p: Part)
    ensures p.Par? ==> NamesIn(p) == [p.name]
  {
  }

  lemma LastTaken(parts: seq<Part>, segs: seq<string>, sep: char)
    requires parts != [] && |parts| <= |segs| && Plain(parts[|parts| - 1], sep)
    ensures var n := |parts| - 1; var signed := parts[n].Par? || parts[n] == Lit(PARAM);
            && PlacesOf(parts) == PlacesOf(parts[..n]) + (if parts[n].Par? then [n] else [])
            && TakenAt(Edges(parts), segs)
               == TakenAt(Edges(parts[..n]), segs) + (if signed && segs[n] != PARAM then [n] else [])
  {
    hide Edge, Plain, TakenAt, Edges;
    var n := |parts| - 1;
    EdgesMore(parts);
    EdgeIsSign(parts[n], sep);
    TakenMore(Edges(parts[..n]), Edge(parts[n]), segs);
  }

  lemma TakenMore(walk: Path, edge: string, segs: seq<string>)
    requires |walk| < |segs|
    ensures var n := |walk|;
            TakenAt(walk + [edge], segs) == TakenAt(walk, segs) + if edge == PARAM && segs[n] != PARAM then [n] else []
  {
    assert (walk + [edge])[..|walk|] == walk;
  }

  lemma EdgesMore(parts: seq<Part>)
    requires parts != []
    ensures Edges(parts) == Edges(parts[..|parts| - 1]) + [Edge(parts[|parts| - 1])]
  {
    hide Edge;
  }

  lemma EdgeIsSign(p: Part, sep: char)
    requires Plain(p, sep)
    ensures Edge(p) == PARAM <==> p.Par? || p == Lit(PARAM)
  {
    hide Tight;
    assert Signed(PARAM, 0) == PARAM;
  }

  /** The names' places are the first to be captured if and only if the parts are in order. */
  lemma {:induction false} PlacesFirst(parts: seq<Part>, segs: seq<string>, sep: char)
    requires |parts| <= |segs| && forall p | p in parts :: Plain(p, sep)
    ensures PlacesOf(parts) <= TakenAt(Edges(parts), segs) <==> InOrder(parts, segs)
    ensures PlacesOf(parts) == TakenAt(Edges(parts), segs) <==> InOrder(parts, segs) && SignsTaken(parts, segs)
  {
    hide Plain;
    if parts != [] {
      var n := |parts| - 1;
      assert parts[n] in parts && forall p | p in parts[..n] :: p in parts;
      PlacesFirst(parts[..n], segs, sep);
      LastTaken(parts, segs, sep);
      LastPlace(parts, segs);
      var p, t := PlacesOf(parts[..n]), TakenAt(Edges(parts[..n]), segs);
      hide InOrder, SignsTaken, PlacesOf, TakenAt, Edges;
      OneMorePlace(p, t, n, parts[n].Par?, parts[n].Par? || parts[n] == Lit(PARAM), segs[n] != PARAM);
    }
  }

  lemma LastPlace(parts: seq<Part>, segs: seq<string>)
    requires parts != [] && |parts| <= |segs|
    ensures var n := |parts| - 1; var front := parts[..n];
            && (InOrder(parts, segs)
                <==> InOrder(front, segs) && (parts[n].Par? ==> segs[n] != PARAM && SignsTaken(front, segs)))
            && (SignsTaken(parts, segs) <==> SignsTaken(front, segs) && (parts[n] == Lit(PARAM) ==> segs[n] == PARAM))
  {
  }

  lemma OneMorePlace(p: seq<nat>, t: seq<nat>, n: nat, named: bool, signed: bool, free: bool)
    requires (forall k | k in p :: k < n) && (forall k | k in t :: k < n) && (named ==> signed)
    ensures var p', t' := p + (if named then [n] else []), t + (if signed && free then [n] else []);
            && (p' <= t' <==> if named then free && p == t else p <= t)
            && (p' == t' <==> if named then free && p == t else !(signed && free) && p == t)
  {
    LastPrefix(p, t, n);
    assert p + [] == p && t + [] == t;
  }

  lemma LastPrefix(p: seq<nat>, t: seq<nat>, n: nat)
    requires (forall k | k in p :: k < n) && forall k | k in t :: k < n
    ensures p + [n] <= t + [n] <==> p == t
    ensures p <= t + [n] <==> p <= t
    ensures !(p + [n] <= t) && p != t + [n]
  {
    forall i | 0 <= i < |p| ensures p[i] < n {
      assert p[i] in p;
    }
    forall i | 0 <= i < |t| ensures t[i] < n {
      assert t[i] in t;
    }
    assert (p + [n])[..|p|] == p && (p + [n])[|p|] == n;
    assert (t + [n])[..|t|] == t && (t + [n])[|t|] == n;
  }

  // ----- names and captured values line up

  /** No name stands inside a longer part, none takes a sign, and literal signs in front of one take signs only. */
  predicate Fair(parts: seq<Part>, segs: seq<string>)
    requires |parts| <= |segs|
  {
    Nameless(parts) && InOrder(parts, segs)
  }

  /** No two of the first n segments are alike, signs aside. */
  predicate AllDiffer(segs: seq<string>, n: nat)
    requires n <= |segs|
  {
    forall i, j | 0 <= i < j < n && segs[i] != PARAM && segs[j] != PARAM :: segs[i] != segs[j]
  }

  /**
   * When names and values line up: always if the parts are fair, never if a name stands inside a
   * longer part or takes a sign, and otherwise only by equal segments.
   */
  ghost predicate LinedUp(raw: string, parts: seq<Part>, segs: seq<string>, vals: seq<string>)
    requires |parts| <= |segs|
  {
    var lines := LinesUp(raw, vals, PairsOf(parts, segs));
    && (Fair(parts, segs) ==> lines)
    && (lines ==> Nameless(parts) && NoSignTaken(parts, segs))
    && (AllDiffer(segs, |parts|) ==> (lines <==> Fair(parts, segs)))
  }

  lemma PickFront(segs: seq<string>, p: seq<nat>, t: seq<nat>)
    requires p <= t && forall k | k in t :: k < |segs|
    ensures (forall k | k in p :: k < |segs|) && Pick(segs, p) <= Pick(segs, t)
  {
    forall k | k in p ensures k in t {
      var i :| 0 <= i < |p| && p[i] == k;
      assert t[i] == k;
    }
  }

  lemma {:induction false} NotMoreNames(parts: seq<Part>, segs: seq<string>, sep: char)
    requires |parts| <= |segs| && (forall p | p in parts :: Plain(p, sep)) && NoSignTaken(parts, segs)
    ensures |PlacesOf(parts)| <= |TakenAt(Edges(parts), segs)|
  {
    hide Plain, Edges;
    if parts != [] {
      var n := |parts| - 1;
      assert parts[n] in parts && forall p | p in parts[..n] :: p in parts;
      NotMoreNames(parts[..n], segs, sep);
      LastTaken(parts, segs, sep);
    }
  }

  /** Where the segments differ, equal values come from equal places. */
  lemma SamePlaces(segs: seq<string>, n: nat, p: seq<nat>, t: seq<nat>, vals: seq<string>)
    requires n <= |segs| && AllDiffer(segs, n) && |p| <= |t|
    requires (forall k | k in p :: k < n && segs[k] != PARAM) && (forall k | k in t :: k < n && segs[k] != PARAM)
    requires Pick(segs, p) <= vals && Pick(segs, t) <= vals
    ensures p <= t
  {
    forall i | 0 <= i < |p| ensures p[i] == t[i] {
      assert p[i] in p && t[i] in t;
      assert Pick(segs, p)[i] == vals[i] == Pick(segs, t)[i];
    }
  }

  lemma WantedFirst(parts: seq<Part>, segs: seq<string>, vals: seq<string>, sep: char)
    requires |parts| <= |segs| && forall p | p in parts :: Plain(p, sep)
    requires Captured(Edges(parts), segs) <= vals && PARAM !in vals
    ensures var lines := ValuesOf(PairsOf(parts, segs)) <= vals;
            && (Fair(parts, segs) ==> lines)
            && (lines ==> Nameless(parts) && NoSignTaken(parts, segs))
            && (AllDiffer(segs, |parts|) ==> (lines <==> Fair(parts, segs)))
  {
    hide Plain, Captured, PairsOf, AllDiffer, InOrder, NoSignTaken, Nameless, Edges, PlacesOf, TakenAt, ValuesOf;
    CapturedIsPicked(Edges(parts), segs);
    if Nameless(parts) && NoSignTaken(parts, segs) {
      var p, t := PlacesOf(parts), TakenAt(Edges(parts), segs);
      WantedIsPicked(parts, segs);
      PlacesFirst(parts, segs, sep);
      if p <= t {
        PickFront(segs, p, t);
        assert Pick(segs, p) <= vals;
      } else if AllDiffer(segs, |parts|) && Pick(segs, p) <= vals {
        NotMoreNames(parts, segs, sep);
        PlacesFree(parts, segs);
        SamePlaces(segs, |parts|, p, t, vals);
      }
    } else {
      SignWanted(parts, segs);
      InOrderIs(parts, segs);
      InFront(ValuesOf(PairsOf(parts, segs)), vals, PARAM);
    }
  }

  lemma InFront<T>(a: seq<T>, b: seq<T>, x: T)
    ensures a <= b && x in a ==> x in b
  {
  }

  lemma PlacesFree(parts: seq<Part>, segs: seq<string>)
    requires |parts| <= |segs| && NoSignTaken(parts, segs)
    ensures forall k | k in PlacesOf(parts) :: segs[k] != PARAM
  {
  }

  lemma InOrderIs(parts: seq<Part>, segs: seq<string>)
    requires |parts| <= |segs|
    ensures InOrder(parts, segs) ==> NoSignTaken(parts, segs)
  {
  }

  /**
   * For a path matched by a route written part by part. vals may hold more than the route's own
   * captures, as for a wildcard result.
   */
  lemma ParamsLineUp(parts: seq<Part>, segs: seq<string>, vals: seq<string>, sep: char)
    requires sep != '{' && sep != '$' && (forall p | p in parts :: Plain(p, sep))
    requires |parts| <= |segs| && Captured(Edges(parts), segs) <= vals && PARAM !in vals
    ensures LinedUp(Render(Texts(parts), sep), parts, segs, vals)
  {
    hide Names, Render, PairsOf, Positions, Captured, Plain, InStep, Fair, AllDiffer, Nameless, NoSignTaken, ValuesOf;
    hide Named, Edges;
    RouteParsed(parts, sep);
    NamesStand(parts, segs);
    InStepIff(NamesOf(parts), vals, PairsOf(parts, segs));
    WantedFirst(parts, segs, vals, sep);
  }

  /** Two paths with the sign at the same places. */
  predicate SameShape(segs: seq<string>, segs': seq<string>) {
    |segs| == |segs'| && forall i | 0 <= i < |segs| :: segs[i] == PARAM <==> segs'[i] == PARAM
  }

  function Marks(n: nat): string {
    seq(n, _ => 'x')
  }

  /** A path of the same shape whose segments differ. */
  function Renamed(segs: seq<string>): (segs': seq<string>)
    ensures SameShape(segs, segs') && AllDiffer(segs', |segs'|)
  {
    var segs' := seq(|segs|, i requires 0 <= i < |segs| => if segs[i] == PARAM then PARAM else Marks(i));
    assert forall i | 0 <= i < |segs| :: |Marks(i)| == i && (i == 1 ==> Marks(i)[0] == 'x');
    segs'
  }

  /**
   * Exactly when a route can be relied on: its names and values line up on every path of the shape
   * if and only if its parts are fair there.
   */
  lemma ShapeIff(parts: seq<Part>, segs: seq<string>, sep: char)
    requires sep != '{' && sep != '$' && (forall p | p in parts :: Plain(p, sep)) && |parts| <= |segs|
    ensures Fair(parts, segs) <==>
              forall segs' | SameShape(segs, segs') ::
                LinesUp(Render(Texts(parts), sep), Captured(Edges(parts), segs'), PairsOf(parts, segs'))
  {
    hide LinesUp, Render, PairsOf, Captured, Plain, Edges;
    forall segs' | SameShape(segs, segs')
      ensures Fair(parts, segs) <==> Fair(parts, segs')
      ensures LinedUp(Render(Texts(parts), sep), parts, segs', Captured(Edges(parts), segs'))
    {
      CapturedIsPicked(Edges(parts), segs');
      ParamsLineUp(parts, segs', Captured(Edges(parts), segs'), sep);
    }
    var differ := Renamed(segs);
    assert AllDiffer(differ, |parts|);
  }

  lemma StarAdds(front: seq<Part>, sep: char)
    requires sep != '*' && forall p | p in front :: Plain(p, sep)
    ensures var parts := front + [Lit(STAR)];
            && NamesOf(parts) == NamesOf(front) && Edges(parts) == Edges(front) + [STAR]
            && forall p | p in parts :: Plain(p, sep)
  {
    var parts := front + [Lit(STAR)];
    assert parts[..|parts| - 1] == front;
    assert Signed(STAR, 0) == STAR && Names(STAR, 0) == [];
    EdgesMore(parts);
    assert forall p | p in parts :: p in front || p == Lit(STAR);
  }

  /** The same for a route that ends in a star: its names are those before the star, and so are its values. */
  lemma WildcardParamsLineUp(front: seq<Part>, segs: seq<string>, vals: seq<string>, sep: char)
    requires sep != '{' && sep != '$' && sep != '*' && (forall p | p in front :: Plain(p, sep))
    requires |front| <= |segs| && Captured(Edges(front), segs) <= vals && PARAM !in vals
    ensures var parts := front + [Lit(STAR)];
            Edges(parts) == Edges(front) + [STAR] && LinedUp(Render(Texts(parts), sep), front, segs, vals)
  {
    hide Names, Render, PairsOf, Positions, Captured, Plain, InStep, Fair, AllDiffer, Nameless, NoSignTaken, ValuesOf;
    hide Named, Edges, Texts, NamesOf;
    StarAdds(front, sep);
    RouteParsed(front + [Lit(STAR)], sep);
    NamesStand(front, segs);
    InStepIff(NamesOf(front), vals, PairsOf(front, segs));
    WantedFirst(front, segs, vals, sep);
  }
}
