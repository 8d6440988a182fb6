/** Topic patterns: four matchers chosen by shape, and the one meaning behind them. */
module Patterns {

  const SEP := '.'
  const WILD := "*"

  /** The pieces so far with one more character. */
  function Grow(segs: seq<string>, c: char): (r: seq<string>)
    requires segs != []
    ensures r != []
  {
    var n := |segs| - 1;
    if c == SEP then segs + [""] else segs[..n] + [segs[n] + [c]]
  }

  /** The pieces between dots; never empty, and "" has the one piece "". */
  function Split(s: string): (r: seq<string>)
    ensures r != []
  {
    if s == "" then [""] else Grow(Split(s[..|s| - 1]), s[|s| - 1])
  }

  function Join(segs: seq<string>): string
    requires segs != []
  {
    if |segs| == 1 then segs[0] else Join(segs[..|segs| - 1]) + [SEP] + segs[|segs| - 1]
  }

  lemma SplitNone()
    ensures Split("") == [""]
  {
  }

  lemma SplitMore(s: string, c: char)
    ensures Split(s + [c]) == Grow(Split(s), c)
  {
    hide Grow;
    assert (s + [c])[..|s|] == s;
  }

  lemma JoinMore(segs: seq<string>, last: string)
    requires segs != []
    ensures Join(segs + [last]) == Join(segs) + [SEP] + last
  {
    assert (segs + [last])[..|segs|] == segs;
  }

  lemma {:induction false} SplitHasNoDot(s: string)
    ensures forall seg | seg in Split(s) :: SEP !in seg
  {
    if s != "" {
      SplitHasNoDot(s[..|s| - 1]);
    }
  }

  lemma JoinGrow(segs: seq<string>, c: char)
    requires segs != []
    ensures Join(Grow(segs, c)) == Join(segs) + [c]
  {
    hide Join;
    var n := |segs| - 1;
    var front, last := segs[..n], segs[n];
    if c == SEP {
      JoinMore(segs, "");
      assert Join(segs) + [SEP] + "" == Join(segs) + [c];
    } else if n == 0 {
      JoinOne(last);
      JoinOne(last + [c]);
      assert segs == [last] && Grow(segs, c) == [last + [c]];
    } else {
      assert segs == front + [last];
      JoinMore(front, last);
      JoinMore(front, last + [c]);
      assert Join(front) + [SEP] + (last + [c]) == Join(front) + [SEP] + last + [c];
    }
  }

  lemma JoinOne(s: string)
    ensures Join([s]) == s
  {
  }

  lemma {:induction false} JoinOfSplit(s: string)
    ensures Join(Split(s)) == s
  {
    hide Join, Split, Grow;
    if s == "" {
      SplitNone();
      JoinOne("");
    } else {
      var front, c := s[..|s| - 1], s[|s| - 1];
      assert s == front + [c];
      JoinOfSplit(front);
      SplitMore(front, c);
      JoinGrow(Split(front), c);
    }
  }

  lemma SplitSame(s: string, t: string)
    ensures Split(s) == Split(t) <==> s == t
  {
    hide Join, Split;
    JoinOfSplit(s);
    JoinOfSplit(t);
  }

  lemma GrowAfter(u: seq<string>, v: seq<string>, c: char)
    requires v != []
    ensures Grow(u + v, c) == u + Grow(v, c)
  {
    var n := |v| - 1;
    assert (u + v)[..|u| + n] == u + v[..n];
  }

  /** Cutting at a dot cuts the pieces. */
  lemma {:induction false} SplitAtDot(a: string, b: string)
    ensures Split(a + [SEP] + b) == Split(a) + Split(b)
  {
    hide Split, Grow;
    if b == "" {
      assert a + [SEP] + b == a + [SEP];
      SplitMore(a, SEP);
      SplitNone();
      GrowDot(Split(a));
    } else {
      var front, c := b[..|b| - 1], b[|b| - 1];
      assert b == front + [c] && a + [SEP] + b == (a + [SEP] + front) + [c];
      SplitAtDot(a, front);
      SplitMore(a + [SEP] + front, c);
      SplitMore(front, c);
      GrowAfter(Split(a), Split(front), c);
    }
  }

  lemma GrowDot(segs: seq<string>)
    requires segs != []
    ensures Grow(segs, SEP) == segs + [""]
  {
  }

  lemma {:induction false} SplitPlain(s: string)
    requires SEP !in s
    ensures Split(s) == [s]
  {
    hide Split;
    if s == "" {
      SplitNone();
    } else {
      var front, c := s[..|s| - 1], s[|s| - 1];
      assert s == front + [c];
      SplitPlain(front);
      SplitMore(front, c);
    }
  }

  lemma {:induction false} SplitOfJoin(segs: seq<string>)
    requires segs != [] && forall seg | seg in segs :: SEP !in seg
    ensures Split(Join(segs)) == segs
  {
    hide Split, Join;
    if |segs| == 1 {
      assert segs == [segs[0]] && segs[0] in segs;
      JoinOne(segs[0]);
      SplitPlain(segs[0]);
    } else {
      var front, last := segs[..|segs| - 1], segs[|segs| - 1];
      assert segs == front + [last];
      assert last in segs && forall seg | seg in front :: seg in segs;
      SplitOfJoin(front);
      SplitPlain(last);
      JoinMore(front, last);
      SplitAtDot(Join(front), last);
    }
  }

  // ----- the meaning

  /** A wildcard in the middle takes one segment, one at the end takes all that are left, at least one. */
  predicate Means(ps: seq<string>, ts: seq<string>)
    requires ps != []
  {
    && (if ps[|ps| - 1] == WILD then |ps| <= |ts| else |ps| == |ts|)
    && forall i | 0 <= i < |ps| && i < |ts| :: ps[i] == WILD || ps[i] == ts[i]
  }

  predicate Accepts(raw: string, topic: string) {
    Means(Split(raw), Split(topic))
  }

  datatype Kind = Exact | Global | SuffixWildcard | Complex

  /** Which of its segments are wildcards decides the kind of a pattern. */
  function KindOf(raw: string): Kind {
    var segs := Split(raw);
    if raw == WILD then Global
    else if WILD !in segs then Exact
    else if segs[|segs| - 1] == WILD && WILD !in segs[..|segs| - 1] then SuffixWildcard
    else Complex
  }

  lemma GlobalIsWild(raw: string)
    ensures KindOf(raw) == Global <==> raw == WILD
  {
  }

  /** What stands before the final ".*". */
  function PrefixOf(raw: string): string {
    var segs := Split(raw);
    if |segs| == 1 then "" else Join(segs[..|segs| - 1])
  }

  /** The one topic on which a suffix pattern's matcher leaves the meaning: nothing after the last dot. */
  predicate BarePrefix(raw: string, topic: string) {
    KindOf(raw) == SuffixWildcard && topic == PrefixOf(raw) + [SEP]
  }

  /** A lone wildcard segment is the global pattern. */
  lemma LoneWild(raw: string)
    ensures Split(raw) == [WILD] <==> raw == WILD
  {
    hide Split, Join;
    SplitPlain(WILD);
    SplitSame(raw, WILD);
  }

  lemma SuffixShape(raw: string)
    requires KindOf(raw) == SuffixWildcard
    ensures |Split(raw)| >= 2 && raw == PrefixOf(raw) + [SEP] + WILD
    ensures Split(raw) == Split(PrefixOf(raw)) + [WILD] && WILD !in Split(PrefixOf(raw))
  {
    hide Split, Join;
    var segs := Split(raw);
    var front := segs[..|segs| - 1];
    assert segs == front + [WILD];
    LoneWild(raw);
    assert front != [];
    JoinOfSplit(raw);
    JoinMore(front, WILD);
    SplitHasNoDot(raw);
    assert forall seg | seg in front :: seg in segs;
    SplitOfJoin(front);
  }

  /** A suffix pattern is a prefix without a wildcard segment, a dot and a star; there are no others. */
  lemma SuffixIff(raw: string)
    ensures KindOf(raw) == SuffixWildcard
            <==> exists prefix | WILD !in Split(prefix) :: raw == prefix + [SEP] + WILD
  {
    hide Split;
    if KindOf(raw) == SuffixWildcard {
      SuffixShape(raw);
    }
    if prefix :| WILD !in Split(prefix) && raw == prefix + [SEP] + WILD {
      SplitAtDot(prefix, WILD);
      SplitPlain(WILD);
      assert (Split(prefix) + [WILD])[..|Split(prefix)|] == Split(prefix);
      LoneWild(raw);
    }
  }

  // ----- the four matchers

  lemma GlobalMeaning(topic: string)
    ensures Accepts(WILD, topic)
  {
    SplitPlain(WILD);
  }

  lemma ExactMeaning(raw: string, topic: string)
    requires KindOf(raw) == Exact
    ensures Accepts(raw, topic) <==> raw == topic
  {
    var ps, ts := Split(raw), Split(topic);
    SplitSame(raw, topic);
    assert ps[|ps| - 1] in ps;
    if Accepts(raw, topic) {
      forall i | 0 <= i < |ps| ensures ps[i] == ts[i] {
        assert ps[i] in ps;
      }
      assert ps == ts;
    }
  }

  lemma PrefixMeans(ps: seq<string>, ts: seq<string>)
    requires WILD !in ps
    ensures Means(ps + [WILD], ts) <==> |ps| < |ts| && ts[..|ps|] == ps
  {
    var all := ps + [WILD];
    if Means(all, ts) {
      forall i | 0 <= i < |ps| ensures ts[i] == ps[i] {
        assert all[i] == ps[i] && ps[i] in ps;
      }
    }
    if |ps| < |ts| && ts[..|ps|] == ps {
      forall i | 0 <= i < |all| ensures all[i] == WILD || all[i] == ts[i] {
        if i < |ps| {
          assert ts[i] == ts[..|ps|][i];
        }
      }
    }
  }

  /** A suffix pattern means: the prefix, a dot, and anything. */
  lemma SuffixMeaning(raw: string, topic: string)
    requires KindOf(raw) == SuffixWildcard
    ensures Accepts(raw, topic) <==> PrefixOf(raw) + [SEP] <= topic
  {
    hide Split, Join, Means, KindOf, PrefixOf;
    SuffixShape(raw);
    var prefix := PrefixOf(raw);
    var ps, ts := Split(prefix), Split(topic);
    PrefixMeans(ps, ts);
    if prefix + [SEP] <= topic {
      var rest := topic[|prefix| + 1..];
      assert topic == prefix + [SEP] + rest;
      SplitAtDot(prefix, rest);
      assert (ps + Split(rest))[..|ps|] == ps;
    }
    if |ps| < |ts| && ts[..|ps|] == ps {
      var more := ts[|ps|..];
      SplitHasNoDot(topic);
      assert forall seg | seg in more :: seg in ts;
      SplitOfJoin(more);
      SplitAtDot(prefix, Join(more));
      assert ts == ps + more;
      SplitSame(topic, prefix + [SEP] + Join(more));
    }
  }

  /** A pattern of one segment means all topics or its own text. */
  lemma OneSegment(raw: string, topic: string)
    requires SEP !in raw
    ensures Accepts(raw, topic) <==> raw == WILD || raw == topic
  {
    hide Split;
    SplitPlain(raw);
    SplitSame(raw, topic);
    var ts := Split(topic);
    if Accepts(raw, topic) && raw != WILD {
      assert ts == [raw];
    }
  }

  /** The topic is a segment, a dot and more. */
  predicate Leads(b: string, more: string, topic: string) {
    SEP !in b && topic == b + [SEP] + more
  }

  /** A first segment with more behind it takes one segment of the topic: any, or its own text. */
  lemma FirstSegment(a: string, rest: string, topic: string)
    requires SEP !in a
    ensures Accepts(a + [SEP] + rest, topic)
            <==> exists b, more | Leads(b, more, topic) :: (a == WILD || a == b) && Accepts(rest, more)
  {
    hide Split, Means;
    SplitPlain(a);
    SplitAtDot(a, rest);
    MeansStep(a, Split(rest), Split(topic));
    if |Split(topic)| >= 2 {
      var b, more := Cut(topic);
      assert Accepts(a + [SEP] + rest, topic) <==> (a == WILD || a == b) && Accepts(rest, more);
      forall b', more' | Leads(b', more', topic) ensures b' == b && more' == more {
        LeadsOnce(b, more, b', more', topic);
      }
    } else {
      forall b, more | Leads(b, more, topic) ensures false {
        SplitAtDot(b, more);
      }
    }
  }

  lemma Cut(topic: string) returns (b: string, more: string)
    requires |Split(topic)| >= 2
    ensures Leads(b, more, topic) && b == Split(topic)[0] && Split(more) == Split(topic)[1..]
  {
    hide Split;
    var ts := Split(topic);
    var tail := ts[1..];
    SplitHasNoDot(topic);
    assert ts[0] in ts && forall seg | seg in tail :: seg in ts;
    b, more := ts[0], Join(tail);
    SplitOfJoin(tail);
    SplitPlain(b);
    SplitAtDot(b, more);
    assert ts == [b] + tail;
    SplitSame(topic, b + [SEP] + more);
  }

  lemma LeadsOnce(b: string, more: string, b': string, more': string, topic: string)
    requires Leads(b, more, topic) && Leads(b', more', topic)
    ensures b' == b && more' == more
  {
    hide Split;
    SplitAtDot(b, more);
    SplitAtDot(b', more');
    SplitPlain(b);
    SplitPlain(b');
    assert Split(topic)[0] == b && Split(topic)[0] == b';
    assert Split(topic)[1..] == Split(more) && Split(topic)[1..] == Split(more');
    SplitSame(more, more');
  }

  lemma MeansStep(a: string, ps: seq<string>, ts: seq<string>)
    requires ps != [] && ts != []
    ensures Means([a] + ps, ts) <==> |ts| >= 2 && (a == WILD || a == ts[0]) && Means(ps, ts[1..])
  {
    var all := [a] + ps;
    if Means(all, ts) {
      forall i | 0 <= i < |ps| && i < |ts| - 1 ensures ps[i] == WILD || ps[i] == ts[1..][i] {
        assert all[i + 1] == ps[i] && ts[1..][i] == ts[i + 1];
      }
    }
    if |ts| >= 2 && (a == WILD || a == ts[0]) && Means(ps, ts[1..]) {
      forall i | 0 <= i < |all| && i < |ts| ensures all[i] == WILD || all[i] == ts[i] {
        if i > 0 {
          assert all[i] == ps[i - 1] && ts[1..][i - 1] == ts[i];
        }
      }
    }
  }

  /** A pattern accepts itself read as a topic. */
  lemma AcceptsItself(raw: string)
    ensures Accepts(raw, raw)
  {
  }

  // ----- the source's value

  datatype Pattern = Pattern(raw: string, segments: seq<string>, kind: Kind, simplePrefix: string)

  /** The value that belongs to a raw pattern. */
  function PatternOf(raw: string): Pattern {
    var kind := KindOf(raw);
    Pattern(raw, if kind == Global then [] else Split(raw), kind, if kind == SuffixWildcard then PrefixOf(raw) else "")
  }

  method HasWild(segs: seq<string>) returns (found: bool)
    ensures found <==> WILD in segs
  {
    found := false;
    for i := 0 to |segs|
      invariant !found && WILD !in segs[..i]
    {
      if segs[i] == WILD {
        return true;
      }
    }
    assert segs[..|segs|] == segs;
  }

  method NewPattern(raw: string) returns (p: Pattern)
    ensures p == PatternOf(raw)
  {
    hide Split, Join;
    LoneWild(raw);
    if raw == WILD {
      return Pattern(raw, [], Global, "");
    }
    var segs := Split(raw);
    var hasWild := HasWild(segs);
    if !hasWild {
      return Pattern(raw, segs, Exact, "");
    }
    if |segs| >= 2 && segs[|segs| - 1] == WILD {
      var nested := HasWild(segs[..|segs| - 1]);
      if !nested {
        return Pattern(raw, segs, SuffixWildcard, Join(segs[..|segs| - 1]));
      }
    }
    return Pattern(raw, segs, Complex, "");
  }

  /** The two indices walk together; the pattern's length decides when to stop. */
  method MatchSegments(segments: seq<string>, topic: seq<string>) returns (ok: bool)
    requires segments != []
    ensures ok <==> Means(segments, topic)
  {
    var pi, ti := 0, 0;
    while pi < |segments|
      invariant pi == ti <= |segments| && pi <= |topic|
      invariant forall i | 0 <= i < pi :: segments[i] == WILD || segments[i] == topic[i]
      invariant pi == |segments| ==> segments[|segments| - 1] != WILD
    {
      if segments[pi] == WILD {
        if pi == |segments| - 1 {
          return ti < |topic|;
        }
        if ti >= |topic| {
          return false;
        }
        pi, ti := pi + 1, ti + 1;
        continue;
      }
      if ti >= |topic| || segments[pi] != topic[ti] {
        return false;
      }
      pi, ti := pi + 1, ti + 1;
    }
    return pi == |segments| && ti == |topic|;
  }

  /**
   * Whatever the kind, the matcher decides the segment-level meaning, except that a suffix
   * pattern refuses its own prefix followed by nothing but a dot.
   */
  method Match(p: Pattern, topic: string) returns (ok: bool)
    requires p == PatternOf(p.raw)
    ensures ok <==> Accepts(p.raw, topic) && !BarePrefix(p.raw, topic)
  {
    match p.kind
    case Global =>
      GlobalMeaning(topic);
      return true;
    case Exact =>
      ExactMeaning(p.raw, topic);
      return p.raw == topic;
    case SuffixWildcard =>
      SuffixMeaning(p.raw, topic);
      if !(p.simplePrefix + [SEP] <= topic) {
        return false;
      }
      return |topic| > |p.simplePrefix| + 1;
    case Complex =>
      ok := MatchSegments(p.segments, Split(topic));
  }

  /** Every suffix pattern has such a topic; that of a.* is a with a dot. */
  lemma SomeBarePrefix(prefix: string)
    requires WILD !in Split(prefix)
    ensures BarePrefix(prefix + [SEP] + WILD, prefix + [SEP])
    ensures BarePrefix("a.*", "a.")
  {
    hide BarePrefix, Split;
    HasBarePrefix(prefix);
    SplitOne();
    HasBarePrefix("a");
    assert "a" + [SEP] + WILD == "a.*" && "a" + [SEP] == "a.";
  }

  lemma SplitOne()
    ensures Split("a") == ["a"]
  {
    hide Split;
    SplitNone();
    SplitMore("", 'a');
    assert "" + ['a'] == "a" && [""][..0] + ["" + ['a']] == ["a"];
  }

  lemma HasBarePrefix(prefix: string)
    requires WILD !in Split(prefix)
    ensures BarePrefix(prefix + [SEP] + WILD, prefix + [SEP])
  {
    hide Split, Join;
    var raw := prefix + [SEP] + WILD;
    SplitAtDot(prefix, WILD);
    LoneWild(WILD);
    JoinOfSplit(prefix);
    assert Split(raw)[..|Split(raw)| - 1] == Split(prefix);
  }

  /** The exception is a real one: the meaning accepts such a topic. */
  lemma BarePrefixIsMeant(raw: string, topic: string)
    requires BarePrefix(raw, topic)
    ensures Accepts(raw, topic) && topic[|topic| - 1] == SEP
  {
    SuffixMeaning(raw, topic);
  }
}
