/** Splitting text into search terms. */
module Tokens {

  /** What the splitter knows of a character: letter or digit, and its length in bytes. */
  datatype Script = Script(isWord: char -> bool, width: char -> nat)
  {
    function Bytes(s: string): nat {
      if s == "" then 0 else Bytes(s[..|s| - 1]) + width(s[|s| - 1])
    }

    predicate AllWord(s: string) {
      forall c | c in s :: isWord(c)
    }

    /** s[i..j] is a longest run of letters and digits, of at least two bytes. */
    predicate Term(s: string, i: nat, j: nat) {
      && i < j <= |s| && AllWord(s[i..j])
      && (i > 0 ==> !isWord(s[i - 1]))
      && (j < |s| ==> !isWord(s[j]))
      && Bytes(s[i..j]) >= 2
    }

    /** The terms listed are all of them up to n, in order of appearance. */
    ghost predicate Listed(s: string, n: nat, tokens: seq<string>, spans: seq<(nat, nat)>) {
      && |spans| == |tokens|
      && (forall k | 0 <= k < |spans| ::
            Term(s, spans[k].0, spans[k].1) && spans[k].1 < n && tokens[k] == s[spans[k].0..spans[k].1])
      && (forall k, l | 0 <= k < l < |spans| :: spans[k].1 < spans[l].0)
      && (forall i: nat, j: nat | Term(s, i, j) && j < n :: (i, j) in spans)
    }

    lemma RunStart(s: string, start: nat, n: nat, i: nat)
      requires start <= n < |s| && AllWord(s[start..n]) && (start > 0 ==> !isWord(s[start - 1]))
      requires Term(s, i, n)
      ensures i == start
    {
    }

    /** The term that ends where a run is broken off. */
    lemma CloseRun(s: string, n: nat, start: nat, tokens: seq<string>, spans: seq<(nat, nat)>)
      requires start <= n < |s| && !isWord(s[n]) && AllWord(s[start..n]) && (start > 0 ==> !isWord(s[start - 1]))
      requires Listed(s, n, tokens, spans) && (forall k | 0 <= k < |spans| :: spans[k].1 < start)
      ensures Bytes(s[start..n]) >= 2 ==> Listed(s, n + 1, tokens + [s[start..n]], spans + [(start, n)])
      ensures Bytes(s[start..n]) < 2 ==> Listed(s, n + 1, tokens, spans)
    {
      forall i: nat, j: nat | Term(s, i, j) && j < n + 1
        ensures j < n || (i == start && Bytes(s[start..n]) >= 2)
      {
        if j == n {
          RunStart(s, start, n, i);
        }
      }
      if Bytes(s[start..n]) >= 2 {
        assert start != n;
        assert Term(s, start, n);
        assert (start, n) in spans + [(start, n)];
      }
    }

    lemma KeepRun(s: string, n: nat, tokens: seq<string>, spans: seq<(nat, nat)>)
      requires n < |s| && isWord(s[n]) && Listed(s, n, tokens, spans)
      ensures Listed(s, n + 1, tokens, spans)
    {
    }

    /** The tokens are the terms of the text, one by one. */
    ghost predicate Terms(s: string, tokens: seq<string>) {
      var n := |s|;
      exists spans :: Listed(s, n, tokens, spans)
    }

    lemma {:induction false} BytesAdd(a: string, b: string)
      ensures Bytes(a + b) == Bytes(a) + Bytes(b)
    {
      if b == "" {
        assert a + b == a;
      } else {
        BytesAdd(a, b[..|b| - 1]);
        assert (a + b)[..|a + b| - 1] == a + b[..|b| - 1];
      }
    }

    lemma BytesOne(c: char)
      ensures Bytes([c]) == width(c)
    {
      assert [c][..0] == "" && Bytes("") == 0;
    }

    /** The terms of two texts with a separator between them are those of the one and those of the other. */
    lemma TermsOfBoth(s: string, t: string, a: seq<string>, b: seq<string>)
      requires s != "" && !isWord(s[|s| - 1]) && Terms(s, a) && Terms(t, b)
      ensures Terms(s + t, a + b)
    {
      hide Term, Listed;
      var p: seq<(nat, nat)> :| Listed(s, |s|, a, p);
      var q: seq<(nat, nat)> :| Listed(t, |t|, b, q);
      var moved := seq(|q|, k requires 0 <= k < |q| => (q[k].0 + |s|, q[k].1 + |s|));
      ListedBoth(s, t, a, b, p, q, moved);
    }

    lemma ListedBoth(s: string, t: string, a: seq<string>, b: seq<string>, p: seq<(nat, nat)>, q: seq<(nat, nat)>,
                     moved: seq<(nat, nat)>)
      requires s != "" && !isWord(s[|s| - 1]) && Listed(s, |s|, a, p) && Listed(t, |t|, b, q)
      requires |moved| == |q| && forall k | 0 <= k < |q| :: moved[k] == (q[k].0 + |s|, q[k].1 + |s|)
      ensures Listed(s + t, |s + t|, a + b, p + moved)
    {
      hide Term, Listed;
      BothOrdered(s, t, a, b, p, q, moved);
      InFrontAll(s, t, a, p);
      BehindAll(s, t, b, q, moved);
      BothComplete(s, t, a, b, p, q, moved);
      ListedIs(s + t, a, b, p, moved);
    }

    lemma ListedIs(all: string, a: seq<string>, b: seq<string>, p: seq<(nat, nat)>, q: seq<(nat, nat)>)
      requires |p| == |a| && |q| == |b|
      requires forall k | 0 <= k < |p| ::
                 Term(all, p[k].0, p[k].1) && p[k].0 <= p[k].1 < |all| && a[k] == all[p[k].0..p[k].1]
      requires forall k | 0 <= k < |q| ::
                 Term(all, q[k].0, q[k].1) && q[k].0 <= q[k].1 < |all| && b[k] == all[q[k].0..q[k].1]
      requires var both := p + q; forall k, l | 0 <= k < l < |both| :: both[k].1 < both[l].0
      requires forall i: nat, j: nat | Term(all, i, j) && j < |all| :: (i, j) in p + q
      ensures Listed(all, |all|, a + b, p + q)
    {
      hide Term;
    }

    lemma BothComplete(s: string, t: string, a: seq<string>, b: seq<string>, p: seq<(nat, nat)>, q: seq<(nat, nat)>,
                       moved: seq<(nat, nat)>)
      requires s != "" && !isWord(s[|s| - 1]) && Listed(s, |s|, a, p) && Listed(t, |t|, b, q)
      requires |moved| == |q| && forall k | 0 <= k < |q| :: moved[k] == (q[k].0 + |s|, q[k].1 + |s|)
      ensures forall i: nat, j: nat | Term(s + t, i, j) && j < |s + t| :: (i, j) in p + moved
    {
      hide Term, Listed;
      forall i: nat, j: nat | Term(s + t, i, j) && j < |s + t| ensures (i, j) in p + moved {
        OneOfBoth(s, t, a, b, p, q, i, j);
        if (i, j) !in p {
          Moved(q, moved, |s|, i, j);
        }
      }
    }

    lemma Moved(q: seq<(nat, nat)>, moved: seq<(nat, nat)>, n: nat, i: nat, j: nat)
      requires |moved| == |q| && forall k | 0 <= k < |q| :: moved[k] == (q[k].0 + n, q[k].1 + n)
      requires i >= n && j >= n && (i - n, j - n) in q
      ensures (i, j) in moved
    {
      var k :| 0 <= k < |q| && q[k] == (i - n, j - n);
      assert moved[k] == (i, j);
    }

    lemma BothOrdered(s: string, t: string, a: seq<string>, b: seq<string>, p: seq<(nat, nat)>, q: seq<(nat, nat)>,
                      moved: seq<(nat, nat)>)
      requires Listed(s, |s|, a, p) && Listed(t, |t|, b, q)
      requires |moved| == |q| && forall k | 0 <= k < |q| :: moved[k] == (q[k].0 + |s|, q[k].1 + |s|)
      ensures var both := p + moved; forall k, l | 0 <= k < l < |both| :: both[k].1 < both[l].0
    {
      hide Term;
      assert forall k | 0 <= k < |p| :: p[k].1 < |s|;
      assert forall k | 0 <= k < |q| :: moved[k].0 >= |s|;
      assert forall k, l | 0 <= k < l < |moved| :: moved[k].1 < moved[l].0;
    }

    lemma InFrontAll(s: string, t: string, a: seq<string>, p: seq<(nat, nat)>)
      requires Listed(s, |s|, a, p)
      ensures |p| == |a|
      ensures forall k | 0 <= k < |p| ::
                Term(s + t, p[k].0, p[k].1) && p[k].0 <= p[k].1 < |s + t| && a[k] == (s + t)[p[k].0..p[k].1]
    {
      forall k | 0 <= k < |p|
        ensures Term(s + t, p[k].0, p[k].1) && p[k].0 <= p[k].1 < |s + t| && a[k] == (s + t)[p[k].0..p[k].1]
      {
        InFront(s, t, p[k].0, p[k].1);
        assert (s + t)[p[k].0..p[k].1] == s[p[k].0..p[k].1];
      }
    }

    lemma BehindAll(s: string, t: string, b: seq<string>, q: seq<(nat, nat)>, moved: seq<(nat, nat)>)
      requires s != "" && !isWord(s[|s| - 1]) && Listed(t, |t|, b, q)
      requires |moved| == |q| && forall k | 0 <= k < |q| :: moved[k] == (q[k].0 + |s|, q[k].1 + |s|)
      ensures |q| == |b|
      ensures forall k | 0 <= k < |q| ::
                && Term(s + t, moved[k].0, moved[k].1) && moved[k].0 <= moved[k].1 < |s + t|
                && b[k] == (s + t)[moved[k].0..moved[k].1]
    {
      forall k | 0 <= k < |q|
        ensures Term(s + t, moved[k].0, moved[k].1) && moved[k].0 <= moved[k].1 < |s + t|
        ensures b[k] == (s + t)[moved[k].0..moved[k].1]
      {
        Behind(s, t, q[k].0, q[k].1);
        assert (s + t)[q[k].0 + |s|..q[k].1 + |s|] == t[q[k].0..q[k].1];
      }
    }

    lemma OneOfBoth(s: string, t: string, a: seq<string>, b: seq<string>, p: seq<(nat, nat)>, q: seq<(nat, nat)>,
                    i: nat, j: nat)
      requires s != "" && !isWord(s[|s| - 1]) && Listed(s, |s|, a, p) && Listed(t, |t|, b, q)
      requires Term(s + t, i, j) && j < |s + t|
      ensures (i, j) in p || (i >= |s| && j >= |s| && (i - |s|, j - |s|) in q)
    {
      OnOneSide(s, t, i, j);
      if j < |s| {
        InFront(s, t, i, j);
      } else {
        Behind(s, t, i - |s|, j - |s|);
      }
    }

    lemma OnOneSide(s: string, t: string, i: nat, j: nat)
      requires s != "" && !isWord(s[|s| - 1]) && Term(s + t, i, j)
      ensures j < |s| || i >= |s|
    {
      var all, n := s + t, |s|;
      assert forall k | i <= k < j :: all[i..j][k - i] == all[k] && all[k] in all[i..j];
      assert all[n - 1] == s[n - 1];
    }

    lemma InFront(s: string, t: string, i: nat, j: nat)
      requires j < |s|
      ensures Term(s + t, i, j) <==> Term(s, i, j)
    {
      if i < j {
        assert (s + t)[i..j] == s[i..j] && (s + t)[j] == s[j];
      }
    }

    lemma Behind(s: string, t: string, i: nat, j: nat)
      requires s != "" && !isWord(s[|s| - 1])
      ensures Term(s + t, i + |s|, j + |s|) <==> Term(t, i, j)
    {
      var all, n := s + t, |s|;
      if i < j <= |t| {
        assert all[i + n..j + n] == t[i..j];
        assert all[i + n - 1] == if i > 0 then t[i - 1] else s[n - 1];
        assert j < |t| ==> all[j + n] == t[j];
      }
    }

    lemma OnlyTerm(word: string, separator: char, i: nat, j: nat)
      requires AllWord(word) && !isWord(separator) && Term(word + [separator], i, j)
      ensures i == 0 && (j < |word| + 1 ==> j == |word|)
    {
      var s := word + [separator];
      assert forall k | 0 <= k < |word| :: s[k] == word[k] && word[k] in word;
      assert i < |word| by {
        assert s[i..j][0] == s[i] && s[i] in s[i..j];
      }
    }

    /** A word, with a separator behind it, is a term of its own if it has two bytes or more. */
    lemma OneWord(word: string, separator: char, tokens: seq<string>)
      requires AllWord(word) && !isWord(separator) && Terms(word + [separator], tokens)
      ensures tokens == if word != "" && Bytes(word) >= 2 then [word] else []
    {
      var s, n := word + [separator], |word|;
      assert s[0..n] == word && s[n] == separator;
      assert Term(s, 0, n) <==> word != "" && Bytes(word) >= 2;
      forall i: nat, j: nat | Term(s, i, j) && j < |s| ensures i == 0 && j == n {
        OnlyTerm(word, separator, i, j);
      }
      OneTerm(s, n, tokens);
    }

    lemma OneAtMost(spans: seq<(nat, nat)>)
      requires forall k, l | 0 <= k < l < |spans| :: spans[k].1 < spans[l].0
      requires forall k | 0 <= k < |spans| :: spans[k].0 == 0
      ensures |spans| <= 1
    {
      if spans != [] {
        var first, last := spans[0], spans[|spans| - 1];
        assert last.0 == 0 && first.1 >= 0;
      }
    }

    lemma OneTerm(s: string, n: nat, tokens: seq<string>)
      requires n < |s| && Terms(s, tokens) && forall i: nat, j: nat | Term(s, i, j) && j < |s| :: i == 0 && j == n
      ensures tokens == if Term(s, 0, n) then [s[0..n]] else []
    {
      hide Term;
      var spans: seq<(nat, nat)> :| Listed(s, |s|, tokens, spans);
      assert forall k | 0 <= k < |spans| :: Term(s, spans[k].0, spans[k].1) && tokens[k] == s[0..n];
      assert forall k | 0 <= k < |spans| :: spans[k].0 == 0;
      OneAtMost(spans);
      if Term(s, 0, n) {
        assert (0, n) in spans;
        assert tokens == [tokens[0]];
      }
    }

    /**
     * The terms of a text are exactly its longest runs of letters and digits of two
     * bytes or more, in order. The text is taken with one separator behind it,
     * which stands for the check after the loop.
     */
    method Tokenize(text: string, separator: char) returns (tokens: seq<string>)
      requires !isWord(separator)
      ensures Terms(text + [separator], tokens)
    {
      ghost var s := text + [separator];
      ghost var spans: seq<(nat, nat)> := [];
      tokens := [];
      var buf := "";
      ghost var start := 0;
      for n := 0 to |text|
        invariant start <= n && buf == s[start..n] && AllWord(buf) && (start > 0 ==> !isWord(s[start - 1]))
        invariant Listed(s, n, tokens, spans) && (forall k | 0 <= k < |spans| :: spans[k].1 < start)
      {
        var ch := text[n];
        if isWord(ch) {
          KeepRun(s, n, tokens, spans);
          buf := buf + [ch];
        } else {
          CloseRun(s, n, start, tokens, spans);
          if Bytes(buf) >= 2 {
            tokens, spans := tokens + [buf], spans + [(start, n)];
          }
          buf, start := "", n + 1;
        }
      }
      CloseRun(s, |text|, start, tokens, spans);
      if Bytes(buf) >= 2 {
        tokens, spans := tokens + [buf], spans + [(start, |text|)];
      }
      assert Listed(s, |text| + 1, tokens, spans);
    }
  }
}
