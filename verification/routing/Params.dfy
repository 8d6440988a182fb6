/**
 * Route parameters: the keys of a route are numbered by one function and their
 * values captured by another, and the two have to agree.
 */
module Params {
  import opened Paths
  import opened RouteTrie
  import opened Lookup

  /** The regular expression \{(.*?)\} at a brace: up to the first closing brace, on one line. */
  function MatchEnd(s: string, pos: nat): (j: int)
    requires pos < |s|
    ensures j == -1 || (pos < j < |s| && s[j] == '}')
  {
    var j := if s[pos] == '{' then IndexFrom(s, '}', pos + 1) else -1;
    if j != -1 && '\n' !in s[pos + 1..j] then j else -1
  }

  /** All matches from pos on, leftmost first and not overlapping. */
  function FindAll(s: string, pos: nat): seq<(nat, nat)>
    decreases |s| - pos
  {
    if pos >= |s| then [] else
    var j := MatchEnd(s, pos);
    if j != -1 then [(pos, j)] + FindAll(s, j + 1) else FindAll(s, pos + 1)
  }

  /** s from pos on with every match written as the parameter sign. */
  function Signed(s: string, pos: nat): string
    decreases |s| - pos
  {
    if pos >= |s| then "" else
    var j := MatchEnd(s, pos);
    if j != -1 then PARAM + Signed(s, j + 1) else [s[pos]] + Signed(s, pos + 1)
  }

  /** The names between the braces, in order. */
  function Names(s: string, pos: nat): seq<string>
    decreases |s| - pos
  {
    if pos >= |s| then [] else
    var j := MatchEnd(s, pos);
    if j != -1 then [s[pos + 1..j]] + Names(s, j + 1) else Names(s, pos + 1)
  }

  /** The positions of every name. */
  function Positions(names: seq<string>): map<string, seq<nat>> {
    if names == [] then map[] else
    var n := |names| - 1;
    var m := Positions(names[..n]);
    m[names[n] := (if names[n] in m then m[names[n]] else []) + [n]]
  }

  lemma MatchIs(s: string, pos: nat, j: nat)
    requires pos < |s|
    ensures MatchEnd(s, pos) == j
            <==> s[pos] == '{' && pos < j < |s| && s[j] == '}'
                 && forall k | pos < k < j :: s[k] != '}' && s[k] != '\n'
  {
    assert pos < j < |s| ==> forall k | pos < k < j :: s[pos + 1..j][k - pos - 1] == s[k];
  }

  predicate Covers(m: (nat, nat), i: nat, j: nat) {
    m == (i, j) || m.0 < i <= m.1
  }

  /** Every brace that starts a match is found, unless it lies inside the match before it. */
  lemma {:induction false} FoundAt(s: string, pos: nat, i: nat)
    requires pos <= i < |s| && MatchEnd(s, i) != -1
    ensures exists m | m in FindAll(s, pos) :: Covers(m, i, MatchEnd(s, i))
    decreases |s| - pos
  {
    hide MatchEnd, Covers;
    var j := MatchEnd(s, pos);
    if j == -1 {
      FoundAt(s, pos + 1, i);
    } else if i <= j {
      assert Covers((pos, j as nat), i, MatchEnd(s, i)) by {
        CoversHere(pos, j, i, MatchEnd(s, i));
      }
      assert (pos, j as nat) in FindAll(s, pos);
    } else {
      FoundAt(s, j + 1, i);
      var m :| m in FindAll(s, j + 1) && Covers(m, i, MatchEnd(s, i));
      assert m in FindAll(s, pos);
    }
  }

  lemma CoversHere(pos: nat, j: nat, i: nat, e: nat)
    requires pos <= i <= j && (i == pos ==> e == j)
    ensures Covers((pos, j), i, e)
  {
  }

  /** What is found are matches, each behind the one before it. */
  lemma {:induction false} FoundApart(s: string, pos: nat)
    ensures forall m | m in FindAll(s, pos) :: pos <= m.0 < |s| && MatchEnd(s, m.0) == m.1
    ensures forall k, l | 0 <= k < l < |FindAll(s, pos)| :: FindAll(s, pos)[k].1 < FindAll(s, pos)[l].0
    decreases |s| - pos
  {
    hide MatchEnd;
    if pos < |s| {
      var j := MatchEnd(s, pos);
      FoundApart(s, if j == -1 then pos + 1 else j + 1);
    }
  }

  lemma Unfold(s: string, pos: nat)
    requires pos < |s|
    ensures var j := MatchEnd(s, pos);
            && FindAll(s, pos) == (if j == -1 then FindAll(s, pos + 1) else [(pos, j as nat)] + FindAll(s, j + 1))
            && Signed(s, pos) == (if j == -1 then [s[pos]] + Signed(s, pos + 1) else PARAM + Signed(s, j + 1))
            && Names(s, pos) == (if j == -1 then Names(s, pos + 1) else [s[pos + 1..j]] + Names(s, j + 1))
  {
    hide MatchEnd;
  }

  lemma AtEnd(s: string)
    ensures FindAll(s, |s|) == [] && Signed(s, |s|) == "" && Names(s, |s|) == []
  {
  }

  /** What the first match, from i to j, says about the reading from pos on. */
  predicate Splits(s: string, pos: nat, i: nat, j: nat) {
    && pos <= i < j < |s|
    && FindAll(s, pos) == [(i, j)] + FindAll(s, j + 1)
    && Signed(s, pos) == s[pos..i] + PARAM + Signed(s, j + 1)
    && Names(s, pos) == [s[i + 1..j]] + Names(s, j + 1)
  }

  lemma SplitsEarlier(s: string, pos: nat, i: nat, j: nat)
    requires pos < |s| && MatchEnd(s, pos) == -1 && Splits(s, pos + 1, i, j)
    ensures Splits(s, pos, i, j)
  {
    hide FindAll, Signed, Names, MatchEnd;
    Unfold(s, pos);
    assert s[pos..i] == [s[pos]] + s[pos + 1..i];
    InFrontOf([s[pos]], s[pos + 1..i], PARAM, Signed(s, j + 1));
  }

  lemma InFrontOf(a: string, b: string, c: string, d: string)
    ensures a + (b + c + d) == (a + b) + c + d
  {
  }

  lemma SplitsHere(s: string, pos: nat)
    requires pos < |s| && MatchEnd(s, pos) != -1
    ensures FindAll(s, pos) != [] && FindAll(s, pos)[0] == (pos, MatchEnd(s, pos) as nat)
    ensures Splits(s, pos, pos, MatchEnd(s, pos))
  {
    hide FindAll, Signed, Names, MatchEnd;
    Unfold(s, pos);
    assert s[pos..pos] + PARAM == PARAM;
  }

  predicate Untouched(s: string, pos: nat)
    requires pos <= |s|
  {
    Signed(s, pos) == s[pos..] && Names(s, pos) == []
  }

  lemma UntouchedEarlier(s: string, pos: nat)
    requires pos < |s| && MatchEnd(s, pos) == -1
    ensures FindAll(s, pos) == FindAll(s, pos + 1) && (Untouched(s, pos + 1) ==> Untouched(s, pos))
  {
    hide FindAll, Signed, Names, MatchEnd;
    Unfold(s, pos);
    assert s[pos..] == [s[pos]] + s[pos + 1..];
  }

  /** s from pos on goes through unchanged up to the first match. */
  lemma {:induction false} FirstMatch(s: string, pos: nat)
    requires pos <= |s|
    ensures FindAll(s, pos) == [] ==> Untouched(s, pos)
    ensures FindAll(s, pos) != [] ==> Splits(s, pos, FindAll(s, pos)[0].0, FindAll(s, pos)[0].1)
    decreases |s| - pos
  {
    hide FindAll, Signed, Names, MatchEnd, Splits;
    if pos == |s| {
      AtEnd(s);
    } else if MatchEnd(s, pos) != -1 {
      SplitsHere(s, pos);
    } else {
      FirstMatch(s, pos + 1);
      UntouchedEarlier(s, pos);
      if FindAll(s, pos) != [] {
        SplitsEarlier(s, pos, FindAll(s, pos)[0].0, FindAll(s, pos)[0].1);
      }
    }
  }

  /** What has been written so far, and the rest of the string, when the next match is taken. */
  lemma TakeMatch(s: string, pos: nat, written: string, names: seq<string>)
    requires pos <= |s| && FindAll(s, pos) != []
    ensures var (i, j) := FindAll(s, pos)[0];
            && pos <= i < j < |s| && FindAll(s, pos)[1..] == FindAll(s, j + 1)
            && (written + s[pos..i] + PARAM) + Signed(s, j + 1) == written + Signed(s, pos)
            && (names + [s[i + 1..j]]) + Names(s, j + 1) == names + Names(s, pos)
  {
    hide FindAll, Signed, Names;
    FirstMatch(s, pos);
  }

  lemma NoPositions()
    ensures Positions([]) == map[]
  {
  }

  lemma PositionsMore(names: seq<string>, name: string)
    ensures var m := Positions(names);
            Positions(names + [name]) == m[name := (if name in m then m[name] else []) + [|names|]]
  {
    assert (names + [name])[..|names|] == names;
  }

  /** Writes the parameter signs and numbers the names in the order they appear. */
  method ParseToParamKey(str: string) returns (key: string, paramKey: map<string, seq<nat>>)
    ensures key == Signed(str, 0) && paramKey == Positions(Names(str, 0))
  {
    hide Signed, Names, FindAll, Splits, Positions;
    FirstMatch(str, 0);
    assert Positions([]) == map[] by { NoPositions(); }
    var matches := FindAll(str, 0);
    if |matches| == 0 {
      assert str[0..] == str;
      return str, map[];
    }
    var b, prev := "", 0;
    ghost var names: seq<string> := [];
    paramKey := map[];
    for i := 0 to |matches|
      invariant prev <= |str| && matches[i..] == FindAll(str, prev)
      invariant b + Signed(str, prev) == Signed(str, 0)
      invariant names + Names(str, prev) == Names(str, 0) && |names| == i
      invariant paramKey == Positions(names)
    {
      assert matches[i] == matches[i..][0] && matches[i + 1..] == matches[i..][1..];
      TakeMatch(str, prev, b, names);
      var (start, end) := matches[i];
      var name := str[start + 1..end];
      b := b + str[prev..start] + PARAM;
      PositionsMore(names, name);
      paramKey := paramKey[name := (if name in paramKey then paramKey[name] else []) + [i]];
      names := names + [name];
      prev := end + 1;
    }
    FirstMatch(str, prev);
    b := b + str[prev..];
    assert names + [] == names;
    return b, paramKey;
  }

  // ----- routes written part by part

  /** A segment of a route: a text, in which names may stand, or a name that fills it. */
  datatype Part = Lit(text: string) | Par(name: string)

  function Text(p: Part): string {
    match p case Lit(t) => t case Par(n) => "{" + n + "}"
  }

  function Edge(p: Part): string {
    match p case Lit(t) => Signed(t, 0) case Par(_) => PARAM
  }

  function NamesIn(p: Part): seq<string> {
    match p case Lit(t) => Names(t, 0) case Par(n) => [n]
  }

  /** Every brace that opens a name from pos on is closed in the same text. */
  predicate Tight(t: string, pos: nat)
    decreases |t| - pos
  {
    if pos >= |t| then true else
    var j := MatchEnd(t, pos);
    if j != -1 then Tight(t, j + 1) else t[pos] != '{' && Tight(t, pos + 1)
  }

  /** A part that ends where its segment ends; a text is not just a name. */
  predicate Plain(p: Part, sep: char) {
    match p
    case Lit(t) => sep !in t && Tight(t, 0) && (Signed(t, 0) == PARAM ==> t == PARAM)
    case Par(n) => '}' !in n && '\n' !in n && sep !in n
  }

  function Texts(parts: seq<Part>): (ts: seq<string>)
    ensures |ts| == |parts|
  {
    seq(|parts|, i requires 0 <= i < |parts| => Text(parts[i]))
  }

  function Edges(parts: seq<Part>): (es: seq<string>)
    ensures |es| == |parts|
  {
    seq(|parts|, i requires 0 <= i < |parts| => Edge(parts[i]))
  }

  function NamesOf(parts: seq<Part>): seq<string> {
    if parts == [] then [] else
    NamesOf(parts[..|parts| - 1]) + NamesIn(parts[|parts| - 1])
  }

  lemma {:induction false} NamesFront(parts: seq<Part>)
    requires parts != []
    ensures NamesOf(parts) == NamesIn(parts[0]) + NamesOf(parts[1..])
  {
    hide NamesIn;
    if |parts| > 1 {
      var front := parts[..|parts| - 1];
      NamesFront(front);
      assert front[1..] == parts[1..][..|parts| - 2];
    }
  }

  /** Characters that open no match are copied. */
  lemma {:induction false} Copied(s: string, pos: nat, n: nat)
    requires pos <= n <= |s| && (forall k | pos <= k < n :: s[k] != '{')
    ensures Signed(s, pos) == s[pos..n] + Signed(s, n) && Names(s, pos) == Names(s, n)
    decreases n - pos
  {
    hide FindAll, Signed, Names;
    if pos < n {
      Copied(s, pos + 1, n);
      Unfold(s, pos);
      assert s[pos..n] == [s[pos]] + s[pos + 1..n];
      assert [s[pos]] + (s[pos + 1..n] + Signed(s, n)) == s[pos..n] + Signed(s, n);
    } else {
      assert s[pos..n] == "";
    }
  }

  lemma BracedEnd(s: string, pos: nat, name: string)
    requires '}' !in name && '\n' !in name
    requires pos + |name| + 2 <= |s| && s[pos..pos + |name| + 2] == "{" + name + "}"
    ensures MatchEnd(s, pos) == pos + |name| + 1 && s[pos + 1..pos + |name| + 1] == name
  {
    var j := pos + |name| + 1;
    var t := s[pos..pos + |name| + 2];
    assert s[pos] == t[0] && s[j] == t[|name| + 1];
    forall i | 0 <= i < |name| ensures s[pos + 1 + i] == name[i] {
      assert s[pos + 1 + i] == t[i + 1];
    }
    assert s[pos + 1..j] == name;
    forall k | pos + 1 <= k < j ensures s[k] != '}' {
      assert s[k] == name[k - pos - 1];
    }
    assert IndexFrom(s, '}', pos + 1) == j;
  }

  /** A braced name is one match. */
  lemma Braced(s: string, pos: nat, name: string)
    requires '}' !in name && '\n' !in name
    requires pos + |name| + 2 <= |s| && s[pos..pos + |name| + 2] == "{" + name + "}"
    ensures Signed(s, pos) == PARAM + Signed(s, pos + |name| + 2)
    ensures Names(s, pos) == [name] + Names(s, pos + |name| + 2)
  {
    hide FindAll, Signed, Names, MatchEnd;
    BracedEnd(s, pos, name);
    Unfold(s, pos);
  }

  lemma SameEnd(s: string, pos: nat, t: string, k: nat)
    requires k < |t| && pos + |t| <= |s| && s[pos..pos + |t|] == t
    requires t[k] == '{' ==> MatchEnd(t, k) != -1
    ensures MatchEnd(s, pos + k) == if MatchEnd(t, k) == -1 then -1 else pos + MatchEnd(t, k)
    ensures MatchEnd(t, k) != -1 ==> s[pos + k + 1..pos + MatchEnd(t, k)] == t[k + 1..MatchEnd(t, k)]
  {
    assert s[pos + k] == s[pos..pos + |t|][k];
    var j := MatchEnd(t, k);
    if j != -1 {
      forall i | k < i <= j ensures s[pos + i] == t[i] {
        assert s[pos + i] == s[pos..pos + |t|][i];
      }
      assert IndexFrom(s, '}', pos + k + 1) == pos + j;
      assert s[pos + k + 1..pos + j] == t[k + 1..j];
    }
  }

  /** A tight text is read in a longer one as it is on its own. */
  lemma {:induction false} Within(s: string, pos: nat, t: string, k: nat)
    requires Tight(t, k) && k <= |t| && pos + |t| <= |s| && s[pos..pos + |t|] == t
    ensures Signed(s, pos + k) == Signed(t, k) + Signed(s, pos + |t|)
    ensures Names(s, pos + k) == Names(t, k) + Names(s, pos + |t|)
    decreases |t| - k
  {
    hide FindAll, Signed, Names, MatchEnd, Tight;
    if k == |t| {
      AtEnd(t);
    } else {
      var next := Next(t, k);
      TightNext(t, k);
      Within(s, pos, t, next);
      ReadOne(s, pos, t, k);
      assert SignOf(t, k) + (Signed(t, next) + Signed(s, pos + |t|)) == Signed(t, k) + Signed(s, pos + |t|);
      assert NameAt(t, k) + (Names(t, next) + Names(s, pos + |t|)) == Names(t, k) + Names(s, pos + |t|);
    }
  }

  /** Where the reading goes on behind a position, and what it gives there. */
  function Next(t: string, k: nat): nat
    requires k < |t|
  {
    if MatchEnd(t, k) == -1 then k + 1 else MatchEnd(t, k) + 1
  }

  function SignOf(t: string, k: nat): string
    requires k < |t|
  {
    if MatchEnd(t, k) == -1 then [t[k]] else PARAM
  }

  function NameAt(t: string, k: nat): seq<string>
    requires k < |t|
  {
    if MatchEnd(t, k) == -1 then [] else [t[k + 1..MatchEnd(t, k)]]
  }

  lemma TightNext(t: string, k: nat)
    requires k < |t| && Tight(t, k)
    ensures k < Next(t, k) <= |t| && Tight(t, Next(t, k)) && (t[k] == '{' ==> MatchEnd(t, k) != -1)
  {
    hide MatchEnd;
  }

  lemma ReadOne(s: string, pos: nat, t: string, k: nat)
    requires k < |t| && pos + |t| <= |s| && s[pos..pos + |t|] == t
    requires t[k] == '{' ==> MatchEnd(t, k) != -1
    ensures Signed(t, k) == SignOf(t, k) + Signed(t, Next(t, k)) && Names(t, k) == NameAt(t, k) + Names(t, Next(t, k))
    ensures Signed(s, pos + k) == SignOf(t, k) + Signed(s, pos + Next(t, k))
    ensures Names(s, pos + k) == NameAt(t, k) + Names(s, pos + Next(t, k))
  {
    hide Signed, Names, SignOf, NameAt, Next;
    ReadHere(s, pos + k);
    ReadHere(t, k);
    SameRead(s, pos, t, k);
  }

  lemma ReadHere(s: string, pos: nat)
    requires pos < |s|
    ensures Signed(s, pos) == SignOf(s, pos) + Signed(s, Next(s, pos))
    ensures Names(s, pos) == NameAt(s, pos) + Names(s, Next(s, pos))
  {
    hide MatchEnd;
    Unfold(s, pos);
  }

  lemma SameRead(s: string, pos: nat, t: string, k: nat)
    requires k < |t| && pos + |t| <= |s| && s[pos..pos + |t|] == t
    requires t[k] == '{' ==> MatchEnd(t, k) != -1
    ensures SignOf(s, pos + k) == SignOf(t, k) && NameAt(s, pos + k) == NameAt(t, k)
    ensures Next(s, pos + k) == pos + Next(t, k)
  {
    hide MatchEnd;
    SameEnd(s, pos, t, k);
    assert s[pos + k] == s[pos..pos + |t|][k];
  }

  lemma {:induction false} SignedPlain(t: string, pos: nat, c: char)
    requires c != '$' && c !in t
    ensures c !in Signed(t, pos)
    decreases |t| - pos
  {
    if pos < |t| {
      hide MatchEnd;
      SignedPlain(t, if MatchEnd(t, pos) == -1 then pos + 1 else MatchEnd(t, pos) + 1, c);
    }
  }

  /** A separator and a part are parsed together. */
  lemma Piece(s: string, pos: nat, p: Part, sep: char)
    requires Plain(p, sep) && sep != '{'
    requires pos + 1 + |Text(p)| <= |s| && s[pos] == sep && s[pos + 1..pos + 1 + |Text(p)|] == Text(p)
    ensures var next := pos + 1 + |Text(p)|;
            && Signed(s, pos) == [sep] + Edge(p) + Signed(s, next)
            && Names(s, pos) == NamesIn(p) + Names(s, next)
  {
    hide FindAll, Signed, Names, MatchEnd, Tight;
    var next := pos + 1 + |Text(p)|;
    assert s[pos..pos + 1] == [sep];
    Copied(s, pos, pos + 1);
    match p
    case Lit(t) =>
      Within(s, pos + 1, t, 0);
      assert [sep] + (Signed(t, 0) + Signed(s, next)) == [sep] + Signed(t, 0) + Signed(s, next);
    case Par(n) =>
      Braced(s, pos + 1, n);
      assert [sep] + (PARAM + Signed(s, next)) == [sep] + PARAM + Signed(s, next);
  }

  lemma RenderNone(sep: char)
    ensures Render([], sep) == [sep]
  {
  }

  lemma {:induction false} RouteAfter(s: string, pos: nat, parts: seq<Part>, sep: char)
    requires sep != '{' && (forall p | p in parts :: Plain(p, sep))
    requires pos <= |s| && s[pos..] == Render(Texts(parts), sep)
    ensures Signed(s, pos) == Render(Edges(parts), sep) && Names(s, pos) == NamesOf(parts)
    decreases |parts|
  {
    hide Signed, Names, Plain, Text, Edge, Render, NamesOf, NamesIn;
    if parts == [] {
      RenderNone(sep);
      assert Texts(parts) == [] && Edges(parts) == [];
      assert s[pos] == s[pos..][0] && s[pos..|s|] == [sep];
      Copied(s, pos, |s|);
      AtEnd(s);
      NamesOfNone();
    } else {
      var p, more := parts[0], parts[1..];
      var next := pos + 1 + |Text(p)|;
      assert p in parts && forall q | q in more :: q in parts;
      assert Texts(parts)[1..] == Texts(more) && Edges(parts)[1..] == Edges(more);
      RenderFront(Texts(parts), sep);
      RenderFront(Edges(parts), sep);
      NamesFront(parts);
      Carve(s, pos, [sep], Text(p), Render(Texts(more), sep));
      Piece(s, pos, p, sep);
      RouteAfter(s, next, more, sep);
    }
  }

  lemma NamesOfNone()
    ensures NamesOf([]) == []
  {
  }

  lemma Carve(s: string, pos: nat, a: string, b: string, c: string)
    requires pos <= |s| && s[pos..] == a + b + c && |a| == 1
    ensures pos + 1 + |b| <= |s| && s[pos] == a[0]
    ensures s[pos + 1..pos + 1 + |b|] == b && s[pos + 1 + |b|..] == c
  {
    assert s[pos] == s[pos..][0];
    assert s[pos + 1..pos + 1 + |b|] == s[pos..][1..1 + |b|];
    assert s[pos + 1 + |b|..] == s[pos..][1 + |b|..];
  }

  lemma EdgesPlain(parts: seq<Part>, sep: char)
    requires sep != '$' && (forall p | p in parts :: Plain(p, sep))
    ensures forall e | e in Edges(parts) :: sep !in e
  {
    forall e | e in Edges(parts) ensures sep !in e {
      var i :| 0 <= i < |parts| && Edges(parts)[i] == e;
      assert parts[i] in parts;
      if parts[i].Lit? {
        SignedPlain(parts[i].text, 0, sep);
      }
    }
  }

  /**
   * A route written part by part is stored under its edges, and its names are
   * numbered in the order of its parameter parts.
   */
  lemma RouteParsed(parts: seq<Part>, sep: char)
    requires sep != '{' && sep != '$' && (forall p | p in parts :: Plain(p, sep))
    ensures var route := Render(Texts(parts), sep);
            && Signed(route, 0) == Render(Edges(parts), sep)
            && Names(route, 0) == NamesOf(parts)
            && Segments(Signed(route, 0), sep) == Edges(parts) && Closed(Signed(route, 0), sep)
  {
    hide Signed, Names, Render, Plain;
    RouteAfter(Render(Texts(parts), sep), 0, parts, sep);
    EdgesPlain(parts, sep);
    SegmentsOfRender(Edges(parts), sep);
  }

  // ----- positions

  /** A name stands at each of its positions. */
  lemma {:induction false} StandsAt(names: seq<string>, key: string, k: nat)
    requires key in Positions(names) && k in Positions(names)[key]
    ensures k < |names| && names[k] == key
  {
    var n := |names| - 1;
    if k != n || key != names[n] {
      StandsAt(names[..n], key, k);
    }
  }

  /** Every name is among the positions of its key. */
  lemma {:induction false} IsNumbered(names: seq<string>, k: nat)
    requires k < |names|
    ensures names[k] in Positions(names) && k in Positions(names)[names[k]]
  {
    var n := |names| - 1;
    if k < n {
      IsNumbered(names[..n], k);
    }
  }

  /** Positions numbers exactly the occurrences of each name, in order. */
  lemma NumberedExactly(names: seq<string>, key: string, k: nat)
    ensures (key in Positions(names) && k in Positions(names)[key]) <==> (k < |names| && names[k] == key)
  {
    if key in Positions(names) && k in Positions(names)[key] {
      StandsAt(names, key, k);
    }
    if k < |names| {
      IsNumbered(names, k);
    }
  }

  lemma {:induction false} PositionsInOrder(names: seq<string>, key: string)
    requires key in Positions(names)
    ensures forall i, j | 0 <= i < j < |Positions(names)[key]| :: Positions(names)[key][i] < Positions(names)[key][j]
    ensures forall k | k in Positions(names)[key] :: k < |names|
  {
    if names != [] {
      var front := names[..|names| - 1];
      var before := if key in Positions(front) then Positions(front)[key] else [];
      if key in Positions(front) {
        PositionsInOrder(front, key);
      }
      var ps := Positions(names)[key];
      assert ps == if names[|front|] == key then before + [|front|] else before;
      forall i, j | 0 <= i < j < |ps| ensures ps[i] < ps[j] {
        assert before[i] in before;
      }
    }
  }

  /** The values a handler sees under a name. */
  function Values(paramKey: map<string, seq<nat>>, paramVals: seq<string>, name: string): seq<string>
    requires name in paramKey && forall k | k in paramKey[name] :: k < |paramVals|
  {
    seq(|paramKey[name]|, i requires 0 <= i < |paramKey[name]| => 
      assert paramKey[name][i] in paramKey[name]; paramVals[paramKey[name][i]])
  }

  /** The values of the parts of that name, in order. */
  function ValuesNamed(pairs: seq<(string, string)>, name: string): seq<string> {
    if pairs == [] then [] else
    var n := |pairs| - 1;
    ValuesNamed(pairs[..n], name) + if pairs[n].0 == name then [pairs[n].1] else []
  }
}
