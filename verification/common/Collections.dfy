/** Optional values, the larger of two numbers, and sets listed in an order the language leaves open. */
module Collections {

  datatype Option<+T> = None | Some(value: T)

  function Max(a: int, b: int): int {
    if a < b then b else a
  }

  ghost predicate Distinct<T>(xs: seq<T>) {
    forall i, j | 0 <= i < j < |xs| :: xs[i] != xs[j]
  }

  ghost function Elements<T>(xs: seq<T>): set<T> {
    set x | x in xs
  }

  /** Ranges over a set once, in any order. */
  method List<T(==)>(s: set<T>) returns (xs: seq<T>)
    ensures Distinct(xs) && Elements(xs) == s && |xs| == |s|
  {
    var rest := s;
    xs := [];
    while rest != {}
      invariant Distinct(xs) && rest <= s && Elements(xs) == s - rest && |xs| + |rest| == |s|
      decreases rest
    {
      var x :| x in rest;
      assert x !in Elements(xs);
      assert Elements(xs + [x]) == Elements(xs) + {x};
      rest := rest - {x};
      xs := xs + [x];
    }
  }

  lemma NoElements<T>(xs: seq<T>)
    ensures Elements(xs[..0]) == {} && Elements(xs[..|xs|]) == Elements(xs)
  {
    assert xs[..|xs|] == xs;
  }

  lemma ElementIn<T>(xs: seq<T>, i: nat)
    requires i < |xs|
    ensures xs[i] in Elements(xs)
  {
  }

  lemma OneElementMore<T>(xs: seq<T>, i: nat)
    requires i < |xs| && Distinct(xs)
    ensures Elements(xs[..i + 1]) == Elements(xs[..i]) + {xs[i]} && xs[i] !in Elements(xs[..i])
  {
  }

  lemma SubsetSize<T>(a: set<T>, b: set<T>)
    requires a <= b
    ensures |a| <= |b|
  {
    assert b == a + (b - a);
  }

  lemma ProperSize<T>(a: set<T>, b: set<T>)
    requires a < b
    ensures |a| < |b|
  {
    assert b == a + (b - a);
  }

  /** An injective listing of a set has its size. */
  lemma {:induction false} DistinctSize<T>(xs: seq<T>)
    requires Distinct(xs)
    ensures |xs| == |Elements(xs)|
  {
    if xs != [] {
      var front, last := xs[..|xs| - 1], xs[|xs| - 1];
      DistinctSize(front);
      assert Elements(xs) == Elements(front) + {last};
      assert last !in Elements(front);
    }
  }
}
