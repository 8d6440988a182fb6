/** Cutting paths into segments and bringing them to their enclosed form. */
module Paths {

  /** Index of the first c at or after start, or -1. */
  function IndexFrom(s: string, c: char, start: nat): (i: int)
    requires start <= |s|
    ensures i == -1 || (start <= i < |s| && s[i] == c)
    ensures forall k | start <= k < (if i == -1 then |s| else i) :: s[k] != c
    decreases |s| - start
  {
    if start == |s| then -1 else if s[start] == c then start else IndexFrom(s, c, start + 1)
  }

  /** The segment between the separator at start and the next one; next is -1 at the end. */
  function Segment(s: string, sep: char, start: int): (r: (string, int))
    ensures r.1 == -1 || (0 <= start < r.1 < |s| && s[r.1] == sep && r.0 == s[start + 1..r.1] && sep !in r.0)
  {
    if |s| == 0 || start < 0 || start > |s| - 1 then ("", -1) else
    var next := IndexFrom(s, sep, start + 1);
    if next < 0 then (s[start..], -1) else (s[start + 1..next], next)
  }

  /** The segments that a walk from start sees. */
  function SegmentsFrom(s: string, sep: char, start: int): seq<string>
    decreases if 0 <= start <= |s| then |s| - start else 0
  {
    var (seg, next) := Segment(s, sep, start);
    if next == -1 then [] else [seg] + SegmentsFrom(s, sep, next)
  }

  function Segments(s: string, sep: char): seq<string> {
    SegmentsFrom(s, sep, IndexFrom(s, sep, 0))
  }

  /** Only a path that ends in a separator names the last segment it walks to. */
  predicate Closed(s: string, sep: char) {
    s != "" && s[|s| - 1] == sep
  }

  /** The enclosed writing of segments. */
  function Render(segs: seq<string>, sep: char): (s: string)
    ensures s != "" && s[0] == sep && Closed(s, sep)
  {
    if segs == [] then [sep] else Render(segs[..|segs| - 1], sep) + segs[|segs| - 1] + [sep]
  }

  /** Front-to-back writing of the same. */
  lemma {:induction false} RenderFront(segs: seq<string>, sep: char)
    requires segs != []
    ensures Render(segs, sep) == [sep] + segs[0] + Render(segs[1..], sep)
  {
    if |segs| > 1 {
      var front := segs[..|segs| - 1];
      RenderFront(front, sep);
      assert front[1..] == segs[1..][..|segs| - 2];
    }
  }

  lemma SegmentIs(s: string, sep: char, start: nat, next: nat)
    requires start < next < |s| && s[next] == sep && (forall k | start < k < next :: s[k] != sep)
    ensures Segment(s, sep, start) == (s[start + 1..next], next)
  {
  }

  lemma FirstSegment(pre: string, seg: string, rest: string, sep: char)
    requires sep !in seg && rest != "" && rest[0] == sep
    ensures var s := pre + ([sep] + seg + rest);
            s == (pre + [sep] + seg) + rest && Segment(s, sep, |pre|) == (seg, |pre| + 1 + |seg|)
  {
    var s, next := pre + ([sep] + seg + rest), |pre| + 1 + |seg|;
    assert s == (pre + [sep] + seg) + rest;
    forall k | |pre| < k < next ensures s[k] != sep {
      assert s[k] == seg[k - |pre| - 1];
    }
    assert s[|pre| + 1..next] == seg;
    SegmentIs(s, sep, |pre|, next);
  }

  lemma NoMoreSegments(pre: string, sep: char)
    ensures SegmentsFrom(pre + [sep], sep, |pre|) == []
  {
  }

  lemma {:induction false} SegmentsAfter(pre: string, segs: seq<string>, sep: char)
    requires forall seg | seg in segs :: sep !in seg
    ensures SegmentsFrom(pre + Render(segs, sep), sep, |pre|) == segs
    decreases |segs|
  {
    hide SegmentsFrom, Segment, IndexFrom;
    if segs == [] {
      NoMoreSegments(pre, sep);
    } else {
      var first, rest := segs[0], segs[1..];
      assert first in segs && forall x | x in rest :: x in segs;
      SegmentsAfter(pre + [sep] + first, rest, sep);
      RenderFront(segs, sep);
      FirstSegment(pre, first, Render(rest, sep), sep);
      WalkOn(pre + Render(segs, sep), sep, |pre|);
      assert segs == [first] + rest;
    }
  }

  lemma WalkOn(s: string, sep: char, start: int)
    ensures var r := Segment(s, sep, start);
            SegmentsFrom(s, sep, start) == if r.1 == -1 then [] else [r.0] + SegmentsFrom(s, sep, r.1)
  {
  }

  /** Cutting an enclosed writing gives back its segments. */
  lemma SegmentsOfRender(segs: seq<string>, sep: char)
    requires forall seg | seg in segs :: sep !in seg
    ensures Segments(Render(segs, sep), sep) == segs
  {
    SegmentsAfter("", segs, sep);
    assert "" + Render(segs, sep) == Render(segs, sep);
  }

  // ----- the enclosed form

  lemma CollapseMore(t: string, c: char, sep: char)
    ensures Collapse(t + [c], sep) == Add(Collapse(t, sep), c, sep)
  {
    assert (t + [c])[..|t|] == t;
  }

  lemma StripMore(s: string, i: nat)
    requires i < |s|
    ensures Strip(s[..i + 1]) == if IsSpace(s[i]) then Strip(s[..i]) else Strip(s[..i]) + [s[i]]
  {
    assert s[..i + 1][..i] == s[..i];
  }

  predicate IsSpace(c: char) {
    c == ' ' || c == '\t' || c == '\n' || c == '\U{0B}' || c == '\U{0C}' || c == '\r'
  }

  function Strip(s: string): string {
    if s == "" then "" else
    var front, c := Strip(s[..|s| - 1]), s[|s| - 1];
    if IsSpace(c) then front else front + [c]
  }

  /** b and c behind it, unless c is a separator or star that is already there. */
  function Add(b: string, c: char, sep: char): string {
    if b != "" && b[|b| - 1] == c && (c == sep || c == '*') then b else b + [c]
  }

  /** Drops a separator behind a separator and a star behind a star. */
  function Collapse(s: string, sep: char): (r: string)
    ensures s != "" ==> r != "" && r[|r| - 1] == s[|s| - 1] && r[0] == s[0]
  {
    if s == "" then "" else Add(Collapse(s[..|s| - 1], sep), s[|s| - 1], sep)
  }

  function Enclosed(s: string, sep: char): string {
    if Strip(s) == "" then "" else Collapse([sep] + Strip(s) + [sep], sep)
  }

  /** No spaces, no doubled separator, no doubled star. */
  ghost predicate Tidy(s: string, sep: char) {
    && (forall c | c in s :: !IsSpace(c))
    && forall i, j | 0 <= i < j < |s| && j == i + 1 && (s[j] == sep || s[j] == '*') :: s[i] != s[j]
  }

  lemma {:induction false} CollapseTidies(s: string, sep: char)
    requires forall c | c in s :: !IsSpace(c)
    ensures Tidy(Collapse(s, sep), sep)
  {
    if s != "" {
      var front := s[..|s| - 1];
      assert s[|s| - 1] in s && forall c | c in front :: c in s;
      CollapseTidies(front, sep);
    }
  }

  lemma TidyFront(s: string, sep: char)
    requires s != "" && Tidy(s, sep)
    ensures Tidy(s[..|s| - 1], sep) && !IsSpace(s[|s| - 1])
    ensures |s| > 1 && (s[|s| - 1] == sep || s[|s| - 1] == '*') ==> s[|s| - 2] != s[|s| - 1]
  {
    assert s[|s| - 1] in s && forall c | c in s[..|s| - 1] :: c in s;
  }

  lemma {:induction false} TidyStays(s: string, sep: char)
    requires Tidy(s, sep)
    ensures Collapse(s, sep) == s && Strip(s) == s
  {
    if s != "" {
      var front, c := s[..|s| - 1], s[|s| - 1];
      TidyFront(s, sep);
      TidyStays(front, sep);
      assert s == front + [c] && s[..|s|] == s;
      CollapseMore(front, c, sep);
      StripMore(s, |s| - 1);
    }
  }

  lemma {:induction false} StripSpaces(s: string)
    ensures forall c | c in Strip(s) :: !IsSpace(c)
  {
    if s != "" {
      StripSpaces(s[..|s| - 1]);
    }
  }

  /** What enclosing gives is empty or a tidy path between separators, and enclosing it again changes nothing. */
  lemma EnclosedForm(s: string, sep: char)
    requires !IsSpace(sep)
    ensures var r := Enclosed(s, sep);
            && (r == "" <==> Strip(s) == "")
            && (r != "" ==> r[0] == sep && Closed(r, sep) && Tidy(r, sep))
            && Enclosed(r, sep) == r
  {
    var r := Enclosed(s, sep);
    StripSpaces(s);
    if r != "" {
      CollapseTidies([sep] + Strip(s) + [sep], sep);
      TidyStays(r, sep);
      CollapseTwice(r, sep);
    }
  }

  lemma CollapseTwice(r: string, sep: char)
    requires r != "" && r[0] == sep && Closed(r, sep) && Tidy(r, sep)
    ensures Collapse([sep] + r + [sep], sep) == r
  {
    var t := [sep] + r;
    CollapseFront(r, sep);
    assert (t + [sep])[..|t|] == t;
  }

  lemma {:induction false} CollapseFront(r: string, sep: char)
    requires r != "" && r[0] == sep && Tidy(r, sep)
    ensures Collapse([sep] + r, sep) == r
  {
    if |r| == 1 {
      assert [sep][..0] == "" && Collapse([sep], sep) == [sep];
      CollapseMore([sep], sep, sep);
      assert r == [sep];
    } else {
      hide Collapse;
      var front, last := r[..|r| - 1], r[|r| - 1];
      assert r == front + [last] && [sep] + r == ([sep] + front) + [last];
      assert forall c | c in front :: c in r;
      CollapseFront(front, sep);
      CollapseMore([sep] + front, last, sep);
    }
  }

  /** Every segment of a tidy enclosed path holds something. */
  lemma {:induction false} TidySegments(s: string, sep: char, start: int)
    requires Tidy(s, sep) && (0 <= start < |s| ==> s[start] == sep)
    ensures forall seg | seg in SegmentsFrom(s, sep, start) :: seg != "" && sep !in seg
    decreases if 0 <= start <= |s| then |s| - start else 0
  {
    var (seg, next) := Segment(s, sep, start);
    if next != -1 {
      assert s[next - 1] != s[next];
      TidySegments(s, sep, next);
    }
  }

  /** Writes c unless it doubles what was written last. */
  method Push(b: string, prev: char, c: char, sep: char) returns (b': string, prev': char)
    requires b != "" && prev == b[|b| - 1]
    ensures b' == Add(b, c, sep) && b' != "" && prev' == b'[|b'| - 1]
  {
    if (c == sep && prev == sep) || (c == '*' && prev == '*') {
      return b, prev;
    }
    return b + [c], c;
  }

  // ----- what the enclosed form contains

  /** The pieces between separators. */
  function Pieces(s: string, sep: char): (r: seq<string>)
    ensures r != []
  {
    if s == "" then [""] else
    var front, c := Pieces(s[..|s| - 1], sep), s[|s| - 1];
    if c == sep then front + [""] else front[..|front| - 1] + [front[|front| - 1] + [c]]
  }

  /** Pieces have no separator, and put together with separators they are the text again. */
  lemma {:induction false} PiecesAre(s: string, sep: char)
    ensures forall p | p in Pieces(s, sep) :: sep !in p
    ensures Joined(Pieces(s, sep), sep) == s
  {
    if s != "" {
      var front, c := s[..|s| - 1], s[|s| - 1];
      PiecesAre(front, sep);
      PiecesMore(front, c, sep);
      var ps := Pieces(front, sep);
      assert front + [c] == s && ps[|ps| - 1] in ps;
      hide Pieces;
      if c == sep {
        JoinedMore(ps, "", sep);
      } else {
        JoinedLast(ps, c, sep);
        assert forall p | p in Pieces(s, sep) :: p in ps || p == ps[|ps| - 1] + [c];
      }
    }
  }

  lemma JoinedMore(ps: seq<string>, p: string, sep: char)
    requires ps != []
    ensures Joined(ps + [p], sep) == Joined(ps, sep) + [sep] + p
  {
    assert (ps + [p])[..|ps|] == ps;
  }

  lemma JoinedLast(ps: seq<string>, c: char, sep: char)
    requires ps != []
    ensures var n := |ps| - 1; Joined(ps[..n] + [ps[n] + [c]], sep) == Joined(ps, sep) + [c]
  {
    var n := |ps| - 1;
    assert (ps[..n] + [ps[n] + [c]])[..n] == ps[..n];
  }

  function Joined(ps: seq<string>, sep: char): string
    requires ps != []
  {
    var n := |ps| - 1;
    if n == 0 then ps[0] else Joined(ps[..n], sep) + [sep] + ps[n]
  }

  /** Runs of stars made one. */
  function OneStar(p: string): string {
    if p == "" then "" else
    var front, c := OneStar(p[..|p| - 1]), p[|p| - 1];
    if c == '*' && front != "" && front[|front| - 1] == '*' then front else front + [c]
  }

  /** The pieces that are not empty, with runs of stars made one. */
  function Content(ps: seq<string>): seq<string> {
    if ps == [] then [] else
    var n := |ps| - 1;
    Content(ps[..n]) + if ps[n] == "" then [] else [OneStar(ps[n])]
  }

  lemma OneStarMore(p: string, c: char)
    ensures OneStar(p + [c]) == if c == '*' && OneStar(p) != "" && OneStar(p)[|OneStar(p)| - 1] == '*' then OneStar(p)
                                else OneStar(p) + [c]
    ensures OneStar(p) == "" <==> p == ""
  {
    assert (p + [c])[..|p|] == p;
  }

  lemma PiecesMore(s: string, c: char, sep: char)
    ensures var ps := Pieces(s, sep); var n := |ps| - 1; var more := Pieces(s + [c], sep);
            if c == sep then more == ps + [""] && more[..n + 1] == ps && more[n + 1] == ""
            else |more| == n + 1 && more[..n] == ps[..n] && more[n] == ps[n] + [c]
  {
    assert (s + [c])[..|s|] == s;
  }

  /** What has been collapsed so far: whole pieces between separators, and the last one as far as it goes. */
  lemma {:induction false} CollapsedSoFar(s: string, sep: char)
    requires sep != '*'
    ensures var ps := Pieces(s, sep); var n := |ps| - 1;
            Collapse([sep] + s, sep) == Render(Content(ps[..n]), sep) + OneStar(ps[n])
  {
    hide Content, OneStar, Render, Collapse, Pieces, Add;
    if s == "" {
      NoneCollapsed(sep);
    } else {
      var front, c := s[..|s| - 1], s[|s| - 1];
      CollapsedSoFar(front, sep);
      assert front + [c] == s && [sep] + s == ([sep] + front) + [c];
      CollapseMore([sep] + front, c, sep);
      PiecesMore(front, c, sep);
      PiecesAre(front, sep);
      var ps := Pieces(front, sep);
      assert ps[|ps| - 1] in ps;
      OneMoreCollapsed(ps, c, sep, Collapse([sep] + front, sep));
    }
  }

  lemma NoneCollapsed(sep: char)
    ensures Pieces("", sep) == [""] && [""][..0] == [] && [sep] + "" == [sep]
    ensures Collapse([sep], sep) == Render(Content([]), sep) + OneStar("")
  {
    assert [sep][..0] == "";
  }

  lemma OneMoreCollapsed(ps: seq<string>, c: char, sep: char, done: string)
    requires ps != [] && sep != '*' && done == Render(Content(ps[..|ps| - 1]), sep) + OneStar(ps[|ps| - 1])
    requires sep !in ps[|ps| - 1]
    ensures var n := |ps| - 1;
            Add(done, c, sep) == if c == sep then Render(Content(ps), sep) + OneStar("")
                                 else Render(Content(ps[..n]), sep) + OneStar(ps[n] + [c])
  {
    hide Content, OneStar, Render;
    var n := |ps| - 1;
    OneStarMore(ps[n], c);
    OneStarPlain(ps[n], sep);
    EndsIn(Content(ps[..n]), sep);
    ContentMore(ps, sep);
    OneStarMore("", c);
    AddTo(Render(Content(ps[..n]), sep), OneStar(ps[n]), c, sep);
  }

  lemma AddTo(base: string, tail: string, c: char, sep: char)
    requires base != "" && base[|base| - 1] == sep && sep != '*' && sep !in tail
    ensures Add(base + tail, c, sep)
            == if c == sep then base + (if tail == "" then "" else tail + [sep])
               else if c == '*' && tail != "" && tail[|tail| - 1] == '*' then base + tail
               else base + (tail + [c])
  {
    var b := base + tail;
    if tail == "" {
      assert b == base && base + "" == base && "" + [c] == [c];
    } else {
      assert b[|b| - 1] == tail[|tail| - 1] && tail[|tail| - 1] in tail;
    }
    assert b + [c] == base + (tail + [c]);
  }

  lemma EndsIn(segs: seq<string>, sep: char)
    ensures Render(segs, sep) != "" && Render(segs, sep)[|Render(segs, sep)| - 1] == sep
  {
  }

  lemma ContentMore(ps: seq<string>, sep: char)
    requires ps != []
    ensures var n := |ps| - 1;
            Render(Content(ps), sep)
            == if ps[n] == "" then Render(Content(ps[..n]), sep)
               else Render(Content(ps[..n]), sep) + OneStar(ps[n]) + [sep]
  {
    hide OneStar;
    var n := |ps| - 1;
    var front := Content(ps[..n]);
    if ps[n] == "" {
      assert Content(ps) == front;
    } else {
      assert Content(ps) == front + [OneStar(ps[n])] && Content(ps)[..|front|] == front;
    }
  }

  /**
   * The segments of the enclosed form are the non-empty pieces of the text without its blanks, with
   * runs of stars made one.
   */
  lemma EnclosedContent(s: string, sep: char)
    requires sep != '*'
    ensures Strip(s) == "" ==> Enclosed(s, sep) == ""
    ensures Strip(s) != "" ==> Enclosed(s, sep) == Render(Content(Pieces(Strip(s), sep)), sep)
    ensures Strip(s) != "" ==> Segments(Enclosed(s, sep), sep) == Content(Pieces(Strip(s), sep))
  {
    if Strip(s) != "" {
      var t := Strip(s) + [sep];
      CollapsedSoFar(t, sep);
      assert [sep] + Strip(s) + [sep] == [sep] + t;
      PiecesMore(Strip(s), sep, sep);
      assert Pieces(t, sep)[..|Pieces(t, sep)| - 1] == Pieces(Strip(s), sep);
      PiecesAre(Strip(s), sep);
      ContentPlain(Pieces(Strip(s), sep), sep);
      SegmentsOfRender(Content(Pieces(Strip(s), sep)), sep);
    }
  }

  lemma {:induction false} ContentPlain(ps: seq<string>, sep: char)
    requires forall p | p in ps :: sep !in p
    ensures forall p | p in Content(ps) :: sep !in p
  {
    if ps != [] {
      var n := |ps| - 1;
      assert ps[n] in ps && forall p | p in ps[..n] :: p in ps;
      ContentPlain(ps[..n], sep);
      OneStarPlain(ps[n], sep);
    }
  }

  lemma {:induction false} OneStarPlain(p: string, c: char)
    requires c !in p
    ensures c !in OneStar(p)
  {
    if p != "" {
      assert p[|p| - 1] in p && forall x | x in p[..|p| - 1] :: x in p;
      OneStarPlain(p[..|p| - 1], c);
    }
  }

  /** Blanks are taken out one by one. */
  lemma {:induction false} StripIs(a: string, b: string)
    ensures Strip(a + b) == Strip(a) + Strip(b)
    ensures (forall c | c in a :: !IsSpace(c)) ==> Strip(a) == a
    ensures (forall c | c in a :: IsSpace(c)) ==> Strip(a) == ""
  {
    StripOne(a);
    if b == "" {
      assert a + b == a;
    } else {
      var front, c := b[..|b| - 1], b[|b| - 1];
      StripIs(a, front);
      assert (a + b)[..|a + b| - 1] == a + front && (a + b)[|a + b| - 1] == c;
    }
  }

  lemma {:induction false} StripOne(a: string)
    ensures (forall c | c in a :: !IsSpace(c)) ==> Strip(a) == a
    ensures (forall c | c in a :: IsSpace(c)) ==> Strip(a) == ""
  {
    if a != "" {
      assert a[|a| - 1] in a && forall x | x in a[..|a| - 1] :: x in a;
      StripOne(a[..|a| - 1]);
    }
  }

  /** The builder loop. */
  method Enclose(s: string, sep: char) returns (r: string)
    ensures r == Enclosed(s, sep)
  {
    if s == "" {
      return "";
    }
    hide Collapse, Strip, IsSpace, Add;
    var b, prev := [sep], sep;
    var hadContent := false;
    StartOf(s, sep);
    ghost var t := "";
    for i := 0 to |s|
      invariant b != "" && prev == b[|b| - 1]
      invariant t == Strip(s[..i]) && b == Collapse([sep] + t, sep)
      invariant hadContent <==> t != ""
    {
      var c := s[i];
      StripMore(s, i);
      if !IsSpace(c) {
        hadContent := true;
        b, prev := Push(b, prev, c, sep);
        CollapseMore([sep] + t, c, sep);
        Prepend(sep, t, c);
        t := t + [c];
      }
    }
    assert s[..|s|] == s;
    if !hadContent {
      return "";
    }
    CollapseMore([sep] + t, sep, sep);
    b, prev := Push(b, prev, sep, sep);
    return b;
  }

  lemma Prepend(a: char, t: string, c: char)
    ensures [a] + (t + [c]) == [a] + t + [c]
  {
  }

  lemma StartOf(s: string, sep: char)
    ensures Strip("") == "" && Strip(s[..0]) == "" && Collapse([sep] + "", sep) == [sep]
  {
    assert [sep] + "" == [sep] && [sep][..0] == "";
  }
}
