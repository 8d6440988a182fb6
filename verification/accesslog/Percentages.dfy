/** Whole percentages that add up: the largest remainders get what rounding down has lost. */
module Percentages {
  import opened Collections

  function Sum(xs: seq<int>): int {
    if xs == [] then 0 else Sum(xs[..|xs| - 1]) + xs[|xs| - 1]
  }

  /** Conversion to an integer drops the fraction, towards zero. */
  function Truncated(a: int, b: int): int
    requires b > 0
  {
    if a >= 0 then a / b else -(-a / b)
  }

  /** What conversion drops is less than one, and on the side away from zero. */
  lemma TruncatedIs(a: int, b: int)
    requires b > 0
    ensures a >= 0 ==> 0 <= a - Truncated(a, b) * b < b
    ensures a < 0 ==> -b < a - Truncated(a, b) * b <= 0
  {
    if a < 0 {
      assert -a == (-a / b) * b + -a % b;
    }
  }

  function Floors(ds: seq<int>, total: int): (r: seq<int>)
    requires total > 0
    ensures |r| == |ds|
  {
    seq(|ds|, i requires 0 <= i < |ds| => Truncated(100 * ds[i], total))
  }

  /** What is left of each share, in parts of the total. */
  function Remainders(ds: seq<int>, total: int): (r: seq<int>)
    requires total > 0
    ensures |r| == |ds|
  {
    seq(|ds|, i requires 0 <= i < |ds| => 100 * ds[i] - Truncated(100 * ds[i], total) * total)
  }

  /** i comes before j: the larger remainder when raising, the smaller when lowering, else the earlier entry. */
  predicate Ahead(rem: seq<int>, up: bool, i: nat, j: nat)
    requires i < |rem| && j < |rem|
  {
    (if up then rem[i] > rem[j] else rem[i] < rem[j]) || (rem[i] == rem[j] && i < j)
  }

  /** The k entries ahead of all others. */
  ghost predicate Top(rem: seq<int>, up: bool, k: nat, chosen: set<nat>) {
    && |chosen| == k && (forall i | i in chosen :: i < |rem|)
    && forall i, j: nat | i in chosen && j !in chosen && j < |rem| :: Ahead(rem, up, i, j)
  }

  /** There is one choice only. */
  lemma TopIsUnique(rem: seq<int>, up: bool, k: nat, a: set<nat>, b: set<nat>)
    requires Top(rem, up, k, a) && Top(rem, up, k, b)
    ensures a == b
  {
    if a != b {
      SameSize(a, b);
      SameSize(b, a);
      var i :| i in a - b;
      var j :| j in b - a;
      assert false;
    }
  }

  lemma SameSize(a: set<nat>, b: set<nat>)
    requires |a| == |b| && a != b
    ensures a - b != {}
  {
    assert a == a * b + (a - b) && b == a * b + (b - a);
  }

  function Adjusted(xs: seq<int>, chosen: set<nat>, delta: int): (r: seq<int>)
    ensures |r| == |xs|
  {
    seq(|xs|, i requires 0 <= i < |xs| => xs[i] + if i in chosen then delta else 0)
  }

  lemma {:induction false} SumAdjusted(xs: seq<int>, chosen: set<nat>, delta: int)
    requires forall i | i in chosen :: i < |xs|
    ensures Sum(Adjusted(xs, chosen, delta)) == Sum(xs) + delta * |chosen|
  {
    if xs == [] {
      assert chosen == {};
    } else {
      var n := |xs| - 1;
      SumAdjusted(xs[..n], chosen - {n}, delta);
      assert Adjusted(xs, chosen, delta)[..n] == Adjusted(xs[..n], chosen - {n}, delta);
      if n in chosen {
        assert |chosen - {n}| == |chosen| - 1;
        Once(delta, |chosen|);
      } else {
        assert chosen - {n} == chosen;
      }
    }
  }

  // ----- the algorithm

  method SumDurations(ds: seq<int>) returns (total: int)
    ensures total == Sum(ds)
  {
    total := 0;
    for i := 0 to |ds|
      invariant total == Sum(ds[..i])
    {
      assert ds[..i + 1][..i] == ds[..i];
      total := total + ds[i];
    }
    assert ds[..|ds|] == ds;
  }

  ghost predicate InOrder(rem: seq<int>, up: bool, order: seq<nat>) {
    && (forall a | 0 <= a < |order| :: order[a] < |rem|)
    && forall a, b | 0 <= a < b < |order| :: Ahead(rem, up, order[a], order[b])
  }

  /** A stable sort of the positions 0, 1, and so on: each goes behind all that are not after it. */
  method StableSort(rem: seq<int>, up: bool) returns (order: seq<nat>)
    ensures InOrder(rem, up, order) && |order| == |rem|
  {
    order := [];
    for n := 0 to |rem|
      invariant |order| == n && InOrder(rem, up, order)
      invariant forall a | 0 <= a < n :: order[a] < n
    {
      var p := |order|;
      while p > 0 && !Ahead(rem, up, order[p - 1], n)
        invariant 0 <= p <= |order|
        invariant forall a | p <= a < |order| :: Ahead(rem, up, n, order[a])
      {
        p := p - 1;
      }
      Inserted(rem, up, order, n, p);
      order := order[..p] + [n] + order[p..];
    }
  }

  lemma Inserted(rem: seq<int>, up: bool, order: seq<nat>, n: nat, p: nat)
    requires InOrder(rem, up, order) && n < |rem| && p <= |order|
    requires forall a | p <= a < |order| :: Ahead(rem, up, n, order[a])
    requires p > 0 ==> Ahead(rem, up, order[p - 1], n)
    ensures InOrder(rem, up, order[..p] + [n] + order[p..])
  {
    forall a | 0 <= a < p ensures Ahead(rem, up, order[a], n) {
      assert a < p - 1 ==> Ahead(rem, up, order[a], order[p - 1]);
    }
  }

  lemma OrderIsDistinct(rem: seq<int>, up: bool, order: seq<nat>)
    requires InOrder(rem, up, order)
    ensures Distinct(order)
  {
    hide Ahead;
    forall a, b | 0 <= a < b < |order| ensures order[a] != order[b] {
      NotAheadOfItself(rem, up, order[a]);
    }
  }

  lemma FirstAhead(rem: seq<int>, up: bool, order: seq<nat>, k: nat, i: nat, j: nat)
    requires InOrder(rem, up, order) && k <= |order|
    requires i in Elements(order[..k]) && j in Elements(order) && j !in Elements(order[..k])
    ensures i < |rem| && j < |rem| && Ahead(rem, up, i, j)
  {
    hide Ahead;
    var a :| 0 <= a < k && order[..k][a] == i;
    var b :| 0 <= b < |order| && order[b] == j;
    assert forall c | 0 <= c < k :: order[..k][c] == order[c];
  }

  /** The first k of the order are the top k. */
  lemma FirstAreTop(rem: seq<int>, up: bool, order: seq<nat>, k: nat)
    requires InOrder(rem, up, order) && |order| == |rem| && k <= |order|
    ensures Top(rem, up, k, Elements(order[..k])) && Distinct(order)
  {
    hide Ahead, Below;
    OrderIsDistinct(rem, up, order);
    EveryPosition(order, |rem|);
    DistinctSize(order[..k]);
    forall i | i in Elements(order[..k]) ensures i < |rem| {
      var a :| 0 <= a < k && order[..k][a] == i;
    }
    forall i, j: nat | i in Elements(order[..k]) && j !in Elements(order[..k]) && j < |rem|
      ensures Ahead(rem, up, i, j) {
      FirstAhead(rem, up, order, k, i, j);
    }
  }

  lemma NotAheadOfItself(rem: seq<int>, up: bool, i: nat)
    requires i < |rem|
    ensures !Ahead(rem, up, i, i)
  {
  }

  function Below(n: nat): (s: set<nat>)
    ensures |s| == n && forall i: nat :: i in s <==> i < n
  {
    if n == 0 then {} else Below(n - 1) + {n - 1}
  }

  /** n different positions below n are all of them. */
  lemma EveryPosition(order: seq<nat>, n: nat)
    requires Distinct(order) && |order| == n && forall a | 0 <= a < n :: order[a] < n
    ensures Elements(order) == Below(n)
  {
    DistinctSize(order);
    assert Elements(order) <= Below(n);
    assert Below(n) == Elements(order) + (Below(n) - Elements(order));
  }

  method Spread(floors: seq<int>, order: seq<nat>, k: nat, delta: int) returns (percents: seq<int>)
    requires |order| == |floors| && Distinct(order) && (forall a | 0 <= a < |order| :: order[a] < |floors|)
    ensures percents == Adjusted(floors, Elements(order[..if k < |order| then k else |order|]), delta)
  {
    percents := floors;
    assert Adjusted(floors, Elements(order[..0]), delta) == floors;
    var i := 0;
    while i < k && i < |order|
      invariant i <= k && i <= |order|
      invariant percents == Adjusted(floors, Elements(order[..i]), delta)
    {
      assert order[..i + 1] == order[..i] + [order[i]];
      assert order[i] !in Elements(order[..i]);
      assert Elements(order[..i + 1]) == Elements(order[..i]) + {order[i]};
      percents := percents[order[i] := percents[order[i]] + delta];
      i := i + 1;
    }
  }

  function Least(a: nat, b: nat): nat {
    if a < b then a else b
  }

  /** The shares as the largest remainders have them. */
  ghost predicate Distributed(ds: seq<int>, total: int, chosen: set<nat>, percents: seq<int>)
    requires total > 0
  {
    var floors, rem := Floors(ds, total), Remainders(ds, total);
    var diff := 100 - Sum(floors);
    if diff >= 0 then Top(rem, true, Least(diff, |ds|), chosen) && percents == Adjusted(floors, chosen, 1)
    else Top(rem, false, Least(-diff, |ds|), chosen) && percents == Adjusted(floors, chosen, -1)
  }

  /** Every share rounded down, then the shortfall to 100 made up one by one over the entries that are ahead. */
  method DistributePercentages(ds: seq<int>, total: int) returns (percents: seq<int>, ghost chosen: set<nat>)
    ensures |percents| == |ds|
    ensures total <= 0 ==> forall i | 0 <= i < |ds| :: percents[i] == 0
    ensures total > 0 ==> Distributed(ds, total, chosen, percents)
  {
    var n := |ds|;
    chosen := {};
    percents := seq(n, _ => 0);
    if total <= 0 || n == 0 {
      return;
    }
    var remainders: seq<int> := [];
    var floors: seq<int> := [];
    var sumFloor := 0;
    for i := 0 to n
      invariant floors == Floors(ds, total)[..i] && remainders == Remainders(ds, total)[..i]
      invariant sumFloor == Sum(floors)
    {
      var floor := Truncated(100 * ds[i], total);
      assert (floors + [floor])[..i] == floors;
      floors := floors + [floor];
      remainders := remainders + [100 * ds[i] - floor * total];
      sumFloor := sumFloor + floor;
    }
    assert floors == Floors(ds, total) && remainders == Remainders(ds, total);
    var diff := 100 - sumFloor;
    if diff == 0 {
      assert Adjusted(floors, {}, 1) == floors;
      return floors, {};
    }
    var order := StableSort(remainders, diff > 0);
    var k := if diff > 0 then diff else -diff;
    FirstAreTop(remainders, diff > 0, order, Least(k, n));
    percents := Spread(floors, order, k, if diff > 0 then 1 else -1);
    chosen := Elements(order[..Least(k, n)]);
  }

  // ----- what the shares are worth

  lemma Share(d: int, total: int)
    requires total > 0 && d >= 0
    ensures Truncated(100 * d, total) == 100 * d / total
    ensures 100 * d - Truncated(100 * d, total) * total == 100 * d % total
  {
  }

  lemma {:induction false} SumOfParts(ds: seq<int>, total: int)
    requires total > 0
    ensures Sum(Floors(ds, total)) * total + Sum(Remainders(ds, total)) == 100 * Sum(ds)
  {
    hide Truncated;
    if ds != [] {
      var n := |ds| - 1;
      SumOfParts(ds[..n], total);
      var f, r := Floors(ds, total), Remainders(ds, total);
      assert f[..n] == Floors(ds[..n], total) && r[..n] == Remainders(ds[..n], total);
      assert (Sum(f[..n]) + f[n]) * total == Sum(f[..n]) * total + f[n] * total;
    }
  }

  lemma Once(m: int, k: int)
    ensures m * k == m * (k - 1) + m
  {
  }

  lemma {:induction false} SumAtMost(xs: seq<int>, chosen: set<nat>, m: int)
    requires forall i | i in chosen :: i < |xs|
    requires forall i: nat | i < |xs| :: xs[i] <= if i in chosen then m else 0
    ensures Sum(xs) <= m * |chosen|
  {
    if xs == [] {
      assert chosen == {};
    } else {
      var n := |xs| - 1;
      SumAtMost(xs[..n], chosen - {n}, m);
      if n in chosen {
        assert |chosen - {n}| == |chosen| - 1;
        Once(m, |chosen|);
      } else {
        assert chosen - {n} == chosen;
      }
    }
  }

  lemma {:induction false} SumNotNegative(xs: seq<int>)
    requires forall i | 0 <= i < |xs| :: xs[i] >= 0
    ensures Sum(xs) >= 0
  {
    if xs != [] {
      SumNotNegative(xs[..|xs| - 1]);
    }
  }

  lemma RemaindersBounded(ds: seq<int>, total: int)
    requires total > 0 && forall i | 0 <= i < |ds| :: ds[i] >= 0
    ensures forall i | 0 <= i < |ds| :: 0 <= Remainders(ds, total)[i] <= total - 1
  {
    forall i | 0 <= i < |ds| ensures 0 <= Remainders(ds, total)[i] <= total - 1 {
      Share(ds[i], total);
    }
  }

  /** The shortfall is what the remainders add up to: not negative, and less than the number of entries. */
  lemma Shortfall(ds: seq<int>, total: int)
    requires total == Sum(ds) > 0 && forall i | 0 <= i < |ds| :: ds[i] >= 0
    ensures var diff := 100 - Sum(Floors(ds, total));
            0 <= diff < |ds| && diff * total == Sum(Remainders(ds, total))
  {
    SomeEntry(ds);
    hide Truncated, Floors, Remainders, Sum, Below;
    var f, r := Floors(ds, total), Remainders(ds, total);
    SumOfParts(ds, total);
    RemaindersBounded(ds, total);
    SumNotNegative(r);
    SumAtMost(r, Below(|ds|), total - 1);
    assert (100 - Sum(f)) * total == 100 * total - Sum(f) * total;
    Quotient(100 - Sum(f), |ds|, total, Sum(r));
  }

  lemma SomeEntry(ds: seq<int>)
    ensures Sum(ds) > 0 ==> |ds| > 0
  {
  }

  lemma Monotone(a: int, b: int, t: int)
    requires t > 0
    ensures a <= b ==> a * t <= b * t
  {
    if a <= b {
      assert b * t == a * t + (b - a) * t;
    }
  }

  lemma Quotient(diff: int, n: nat, total: int, sum: int)
    requires total > 0 && diff * total == sum && 0 <= sum <= (total - 1) * n && n > 0
    ensures 0 <= diff < n
  {
    Monotone(diff, -1, total);
    Monotone(n, diff, total);
    assert (total - 1) * n == n * total - n;
  }

  /** Whatever the entries: the result adds up to 100 exactly when the correction has enough entries to go round. */
  lemma AddsUpIff(ds: seq<int>, total: int, chosen: set<nat>, percents: seq<int>)
    requires total > 0 && Distributed(ds, total, chosen, percents)
    ensures Sum(percents) == 100 <==> -|ds| <= 100 - Sum(Floors(ds, total)) <= |ds|
  {
    hide Floors, Remainders, Sum, Adjusted;
    SumAdjusted(Floors(ds, total), chosen, if 100 - Sum(Floors(ds, total)) >= 0 then 1 else -1);
  }

  lemma RaisedHasRemainder(r: seq<int>, total: int, k: nat, chosen: set<nat>, i: nat)
    requires total > 0 && Sum(r) == k * total && (forall j: nat | j < |r| :: 0 <= r[j] < total)
    requires Top(r, true, k, chosen) && i in chosen
    ensures r[i] > 0
  {
    hide Sum;
    if r[i] == 0 {
      forall j: nat | j < |r| ensures r[j] <= if j in chosen - {i} then total - 1 else 0 {
      }
      SumAtMost(r, chosen - {i}, total - 1);
      Strictly(total, k);
    }
  }

  lemma Strictly(total: int, k: nat)
    requires total > 0 && k > 0
    ensures (total - 1) * (k - 1) < k * total
  {
    assert (total - 1) * (k - 1) == k * total - total - (k - 1);
  }

  /**
   * For durations and their sum: the shares add up to 100, each is its exact value rounded down or
   * one more, and one more only where something was rounded away.
   */
  lemma WholeShares(ds: seq<int>, total: int, chosen: set<nat>, percents: seq<int>)
    requires total == Sum(ds) > 0 && (forall i | 0 <= i < |ds| :: ds[i] >= 0)
    requires Distributed(ds, total, chosen, percents)
    ensures Sum(percents) == 100
    ensures forall i: nat | i < |ds| ::
              percents[i] == 100 * ds[i] / total + (if i in chosen then 1 else 0)
                && (i in chosen ==> 100 * ds[i] % total > 0)
  {
    hide Sum, Top;
    Shortfall(ds, total);
    AddsUpIff(ds, total, chosen, percents);
    var r := Remainders(ds, total);
    forall j: nat | j < |r| ensures r[j] == 100 * ds[j] % total && Floors(ds, total)[j] == 100 * ds[j] / total {
      Share(ds[j], total);
    }
    forall i: nat | i < |ds| && i in chosen ensures r[i] > 0 {
      RaisedHasRemainder(r, total, 100 - Sum(Floors(ds, total)), chosen, i);
    }
  }

  /**
   * Who gets one more: of an entry that does and one that does not, the first has the larger
   * remainder, or the same one and stands earlier.
   */
  lemma RaisedFirst(ds: seq<int>, total: int, chosen: set<nat>, percents: seq<int>, i: nat, j: nat)
    requires total == Sum(ds) > 0 && (forall k | 0 <= k < |ds| :: ds[k] >= 0)
    requires Distributed(ds, total, chosen, percents) && i < |ds| && j < |ds|
    requires percents[i] == 100 * ds[i] / total + 1 && percents[j] == 100 * ds[j] / total
    ensures 100 * ds[i] % total > 100 * ds[j] % total || (100 * ds[i] % total == 100 * ds[j] % total && i < j)
  {
    hide Sum;
    Shortfall(ds, total);
    Share(ds[i], total);
    Share(ds[j], total);
    assert i in chosen && j !in chosen;
    assert Ahead(Remainders(ds, total), true, i, j);
  }

  /** The same for any entries and whatever their total, where some are lowered: these have the smaller remainders. */
  lemma LoweredFirst(ds: seq<int>, total: int, chosen: set<nat>, percents: seq<int>, i: nat, j: nat)
    requires total > 0 && Distributed(ds, total, chosen, percents) && i < |ds| && j < |ds|
    requires percents[i] == Truncated(100 * ds[i], total) - 1 && percents[j] == Truncated(100 * ds[j], total)
    ensures var r := 100 * ds[i] - Truncated(100 * ds[i], total) * total;
            var s := 100 * ds[j] - Truncated(100 * ds[j], total) * total;
            r < s || (r == s && i < j)
  {
    hide Sum, Truncated;
    assert i in chosen && j !in chosen;
    assert Ahead(Remainders(ds, total), false, i, j);
  }
}
