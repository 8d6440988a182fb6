/** Wildcard matching of one path segment against a pattern with stars. */
module Glob {

  /** The meaning of a pattern: a star takes any substring, every other character itself. */
  ghost predicate Globs(s: string, p: string) {
    if p == "" then s == ""
    else if p[0] == '*' then exists k | 0 <= k <= |s| :: Globs(s[k..], p[1..])
    else s != "" && s[0] == p[0] && Globs(s[1..], p[1..])
  }

  function Stars(p: string): nat {
    if p == "" then 0 else (if p[0] == '*' then 1 else 0) + Stars(p[1..])
  }

  /** The pattern with its stars replaced one by one. */
  function Fill(p: string, fills: seq<string>): string
    requires |fills| == Stars(p)
  {
    if p == "" then ""
    else if p[0] == '*' then fills[0] + Fill(p[1..], fills[1..])
    else [p[0]] + Fill(p[1..], fills)
  }

  lemma {:induction false} FillGlobs(p: string, fills: seq<string>)
    requires |fills| == Stars(p)
    ensures Globs(Fill(p, fills), p)
  {
    if p != "" {
      if p[0] == '*' {
        FillGlobs(p[1..], fills[1..]);
        var s, k := Fill(p, fills), |fills[0]|;
        assert s[k..] == Fill(p[1..], fills[1..]);
      } else {
        FillGlobs(p[1..], fills);
        assert Fill(p, fills)[1..] == Fill(p[1..], fills);
      }
    }
  }

  lemma {:induction false} GlobsFill(s: string, p: string) returns (fills: seq<string>)
    requires Globs(s, p)
    ensures |fills| == Stars(p) && Fill(p, fills) == s
  {
    if p == "" {
      fills := [];
    } else if p[0] == '*' {
      var k :| 0 <= k <= |s| && Globs(s[k..], p[1..]);
      var more := GlobsFill(s[k..], p[1..]);
      fills := [s[..k]] + more;
      assert fills[1..] == more && s == s[..k] + s[k..];
    } else {
      fills := GlobsFill(s[1..], p[1..]);
      assert s == [s[0]] + s[1..];
    }
  }

  /** A segment matches a pattern exactly when substrings for its stars turn the pattern into it. */
  lemma GlobsIffFilled(s: string, p: string)
    ensures Globs(s, p) <==> exists fills: seq<string> :: |fills| == Stars(p) && Fill(p, fills) == s
  {
    if Globs(s, p) {
      var fills := GlobsFill(s, p);
    }
    if fills: seq<string> :| |fills| == Stars(p) && Fill(p, fills) == s {
      FillGlobs(p, fills);
    }
  }

  /** A part without stars has to stand in front as it is. */
  lemma {:induction false} LiteralFirst(s: string, lit: string, p: string)
    requires '*' !in lit
    ensures Globs(s, lit + p) <==> lit <= s && Globs(s[|lit|..], p)
  {
    if lit == "" {
      assert lit + p == p && s[|lit|..] == s;
    } else {
      assert (lit + p)[1..] == lit[1..] + p && (lit + p)[0] == lit[0];
      assert lit[0] in lit && forall c | c in lit[1..] :: c in lit;
      if s != "" {
        LiteralFirst(s[1..], lit[1..], p);
        if |lit| <= |s| {
          assert s[1..][|lit[1..]|..] == s[|lit|..];
        }
        assert lit <= s <==> s[0] == lit[0] && lit[1..] <= s[1..];
      }
    }
  }

  lemma StarFirst(s: string, p: string)
    ensures Globs(s, "*" + p) <==> exists k | 0 <= k <= |s| :: Globs(s[k..], p)
  {
    assert ("*" + p)[1..] == p;
  }

  /** A star can always take more. */
  lemma StarTakesMore(s: string, k: nat, p: string)
    requires k <= |s| && Globs(s[k..], "*" + p)
    ensures Globs(s, "*" + p)
  {
    StarFirst(s[k..], p);
    StarFirst(s, p);
    var j :| 0 <= j <= |s[k..]| && Globs(s[k..][j..], p);
    assert s[k..][j..] == s[k + j..];
  }

  /** Part of s at k. */
  predicate At(s: string, k: nat, part: string) {
    k <= |s| && part <= s[k..]
  }

  /** The greedy step: the leftmost place of the next literal is as good as any other. */
  lemma LeftmostIsEnough(s: string, mid: string, next: string, idx: nat)
    requires '*' !in mid && At(s, idx, mid) && (forall k | 0 <= k < idx :: !At(s, k, mid))
    ensures Globs(s, "*" + (mid + ("*" + next))) <==> Globs(s[idx + |mid|..], "*" + next)
  {
    var tail := "*" + next;
    StarFirst(s, mid + tail);
    LiteralFirst(s[idx..], mid, tail);
    assert s[idx..][|mid|..] == s[idx + |mid|..];
    if Globs(s, "*" + (mid + tail)) {
      var k :| 0 <= k <= |s| && Globs(s[k..], mid + tail);
      LiteralFirst(s[k..], mid, tail);
      assert At(s, k, mid);
      assert s[k..][|mid|..] == s[idx + |mid|..][k - idx..];
      StarTakesMore(s[idx + |mid|..], k - idx, next);
    }
  }

  lemma NowhereFails(s: string, mid: string, next: string)
    requires '*' !in mid && (forall k | 0 <= k <= |s| :: !At(s, k, mid))
    ensures !Globs(s, "*" + (mid + ("*" + next)))
  {
    var tail := "*" + next;
    StarFirst(s, mid + tail);
    if k :| 0 <= k <= |s| && Globs(s[k..], mid + tail) {
      LiteralFirst(s[k..], mid, tail);
      assert At(s, k, mid);
    }
  }

  lemma LiteralOnly(s: string, lit: string)
    requires '*' !in lit
    ensures Globs(s, lit) <==> s == lit
  {
    LiteralFirst(s, lit, "");
    assert lit + "" == lit;
    assert lit <= s && s[|lit|..] == "" ==> s == lit;
  }

  /** The last literal has to stand at the very end. */
  lemma LastLiteral(s: string, mid: string)
    requires '*' !in mid
    ensures Globs(s, "*" + mid) <==> |mid| <= |s| && s[|s| - |mid|..] == mid
  {
    hide Globs;
    StarFirst(s, mid);
    forall k | 0 <= k <= |s| ensures Globs(s[k..], mid) <==> s[k..] == mid {
      LiteralOnly(s[k..], mid);
    }
    if |mid| <= |s| && s[|s| - |mid|..] == mid {
      assert Globs(s[|s| - |mid|..], mid);
    }
  }

  /** strings.Cut at the first star. */
  method Cut(s: string) returns (before: string, after: string, found: bool)
    ensures '*' !in before
    ensures if found then s == before + ("*" + after) else s == before && after == ""
    ensures |before| + |after| <= |s|
    ensures found ==> |after| < |s|
  {
    var i := 0;
    while i < |s| && s[i] != '*'
      invariant i <= |s| && '*' !in s[..i]
    {
      i := i + 1;
    }
    if i == |s| {
      return s, "", false;
    }
    assert s == s[..i] + ("*" + s[i + 1..]);
    return s[..i], s[i + 1..], true;
  }

  /** strings.Index: the leftmost place of part in s, or -1. */
  method Index(s: string, part: string) returns (idx: int)
    ensures -1 <= idx <= |s|
    ensures idx >= 0 ==> At(s, idx, part) && forall k | 0 <= k < idx :: !At(s, k, part)
    ensures idx < 0 ==> forall k | 0 <= k <= |s| :: !At(s, k, part)
  {
    for i := 0 to |s| + 1
      invariant forall k | 0 <= k < i :: !At(s, k, part)
    {
      if |part| <= |s| - i && s[i..i + |part|] == part {
        assert s[i..][..|part|] == part;
        return i;
      }
      assert |part| <= |s| - i ==> s[i..][..|part|] == s[i..i + |part|];
    }
    return -1;
  }

  /** Cuts the pattern at its stars and looks for each part at its leftmost place. */
  method MatchWildcard(str: string, route: string) returns (ok: bool)
    ensures ok <==> Globs(str, route)
  {
    var prefix, rest, found := Cut(route);
    LiteralFirst(str, prefix, if found then "*" + rest else "");
    if !found {
      assert prefix + "" == route;
      return str == route;
    }
    var s := str;
    if prefix != "" {
      if |s| < |prefix| || s[..|prefix|] != prefix {
        return false;
      }
      s := s[|prefix|..];
    }
    while true
      invariant Globs(str, route) <==> Globs(s, "*" + rest)
      decreases |rest|
    {
      var mid, next, more := Cut(rest);
      if !more {
        LastLiteral(s, mid);
        if mid == "" {
          return true;
        }
        return |s| >= |mid| && s[|s| - |mid|..] == mid;
      }
      rest := next;
      if mid == "" {
        LeftmostIsEnough(s, mid, next, 0);
        assert s[0..] == s;
        continue;
      }
      var idx := Index(s, mid);
      if idx < 0 {
        NowhereFails(s, mid, next);
        return false;
      }
      LeftmostIsEnough(s, mid, next, idx);
      s := s[idx + |mid|..];
    }
  }
}
