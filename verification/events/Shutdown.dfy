/**
 * Closing the broker while others use it. Every action is what one thread does
 * between taking and releasing the lock, or one atomic load.
 */
module Shutdown {
  import opened Patterns
  import opened Broker

  type Tid = nat

  datatype Pc<H> =
    | Passed(sub: Sub<H>)  // a Subscribe that has seen the flag down, before it takes the lock
    | Running              // a goroutine started by PublishAsync
    | Publishing           // a Publish that has seen the flag down, before it returns
    | Waiting              // the Close that raised the flag, before its wait is over
    | Waited               // the same, before it clears the maps
    | Won                  // the same, returned
    | Lost                 // a Close that found the flag up, returned

  datatype State<H> = State(closed: bool, wg: nat, live: Subs<H>, pcs: map<Tid, Pc<H>>)

  datatype Action<H> =
    | CheckOpen(t: Tid, sub: Sub<H>)
    | Insert(t: Tid)
    | Withdraw(id: string)
    | StartAsync(t: Tid)
    | FinishAsync(t: Tid)
    | StartSync(t: Tid)
    | FinishSync(t: Tid)
    | RaiseFlag(t: Tid)
    | EndWait(t: Tid)
    | Clear(t: Tid)

  ghost predicate At<H>(s: State<H>, t: Tid, pc: Pc<H>) {
    t in s.pcs && s.pcs[t] == pc
  }

  ghost predicate Can<H>(s: State<H>, a: Action<H>) {
    match a
    case CheckOpen(t, sub) => t !in s.pcs
    case Insert(t) => t in s.pcs && s.pcs[t].Passed?
    case Withdraw(_) => true
    case StartAsync(t) => t !in s.pcs
    case FinishAsync(t) => At(s, t, Running) && s.wg > 0
    case StartSync(t) => t !in s.pcs
    case FinishSync(t) => At(s, t, Publishing)
    case RaiseFlag(t) => t !in s.pcs
    case EndWait(t) => At(s, t, Waiting) && s.wg == 0
    case Clear(t) => At(s, t, Waited)
  }

  /** An action that finds the flag up where it must be down fails and leaves no trace. */
  function Do<H>(s: State<H>, a: Action<H>): State<H>
    requires Can(s, a)
  {
    match a
    case CheckOpen(t, sub) => if s.closed then s else s.(pcs := s.pcs[t := Passed(sub)])
    case Insert(t) =>
      var sub := s.pcs[t].sub;
      s.(pcs := s.pcs - {t}, live := if s.closed then s.live else s.live[sub.id := sub])
    case Withdraw(id) => if s.closed then s else s.(live := s.live - {id})
    case StartAsync(t) => if s.closed then s else s.(wg := s.wg + 1, pcs := s.pcs[t := Running])
    case FinishAsync(t) => s.(wg := s.wg - 1, pcs := s.pcs - {t})
    case StartSync(t) => if s.closed then s else s.(pcs := s.pcs[t := Publishing])
    case FinishSync(t) => s.(pcs := s.pcs - {t})
    case RaiseFlag(t) => s.(closed := true, pcs := s.pcs[t := if s.closed then Lost else Waiting])
    case EndWait(t) => s.(pcs := s.pcs[t := Waited])
    case Clear(t) => s.(live := map[], pcs := s.pcs[t := Won])
  }

  function Init<H>(): State<H> {
    State(false, 0, map[], map[])
  }

  /** A run: each action possible where it is taken. */
  ghost predicate Legal<H>(s: State<H>, run: seq<Action<H>>)
    decreases |run|
  {
    |run| == 0 || (Can(s, run[0]) && Legal(Do(s, run[0]), run[1..]))
  }

  function After<H>(s: State<H>, run: seq<Action<H>>): State<H>
    requires Legal(s, run)
    decreases |run|
  {
    if |run| == 0 then s else After(Do(s, run[0]), run[1..])
  }

  // ----- what every action keeps

  function InFlight<H>(s: State<H>): set<Tid> {
    set t | t in s.pcs && s.pcs[t].Running?
  }

  /** The publications that run in their callers' own threads. */
  function Direct<H>(s: State<H>): set<Tid> {
    set t | t in s.pcs && s.pcs[t].Publishing?
  }

  function Closers<H>(s: State<H>): set<Tid> {
    set t | t in s.pcs && (s.pcs[t].Waiting? || s.pcs[t].Waited? || s.pcs[t].Won?)
  }

  /** The wait group counts the goroutines, one Close at most is the winner, and its progress says what is over. */
  ghost predicate Inv<H>(s: State<H>) {
    && s.wg == |InFlight(s)|
    && (s.closed <==> Closers(s) != {})
    && (forall t, u | t in Closers(s) && u in Closers(s) :: t == u)
    && (forall t | t in s.pcs && (s.pcs[t].Waited? || s.pcs[t].Won?) :: s.wg == 0)
    && (forall t | t in s.pcs && s.pcs[t].Won? :: s.live == map[])
    && (forall t | t in s.pcs && s.pcs[t].Lost? :: s.closed)
  }

  lemma InFlightIs<H>(s: State<H>, a: Action<H>)
    requires Can(s, a)
    ensures InFlight(Do(s, a)) ==
              match a
              case StartAsync(t) => if s.closed then InFlight(s) else InFlight(s) + {t}
              case FinishAsync(t) => InFlight(s) - {t}
              case _ => InFlight(s)
    ensures Direct(Do(s, a)) ==
              match a
              case StartSync(t) => if s.closed then Direct(s) else Direct(s) + {t}
              case FinishSync(t) => Direct(s) - {t}
              case _ => Direct(s)
  {
  }

  lemma InFlightAfter<H>(s: State<H>, a: Action<H>)
    requires Can(s, a) && s.wg == |InFlight(s)|
    ensures Do(s, a).wg == |InFlight(Do(s, a))|
    ensures s.closed ==> InFlight(Do(s, a)) <= InFlight(s)
  {
    InFlightIs(s, a);
    match a
    case StartAsync(t) => assert t !in InFlight(s);
    case FinishAsync(t) => assert t in InFlight(s);
    case _ => assert Do(s, a).wg == s.wg;
  }

  lemma ClosersAfter<H>(s: State<H>, a: Action<H>)
    requires Can(s, a)
    ensures Closers(Do(s, a)) == if a.RaiseFlag? && !s.closed then Closers(s) + {a.t} else Closers(s)
  {
  }

  lemma InvKept<H>(s: State<H>, a: Action<H>)
    requires Inv(s) && Can(s, a)
    ensures Inv(Do(s, a))
  {
    hide InFlight;
    InFlightAfter(s, a);
    ClosersAfter(s, a);
    assert forall t | t in s.pcs && (s.pcs[t].Waited? || s.pcs[t].Won?) :: t in Closers(s);
  }

  lemma {:induction false} InvAlways<H>(s: State<H>, run: seq<Action<H>>)
    requires Inv(s) && Legal(s, run)
    ensures Inv(After(s, run))
    decreases |run|
  {
    hide Inv;
    if run != [] {
      InvKept(s, run[0]);
      InvAlways(Do(s, run[0]), run[1..]);
    }
  }

  // ----- what the protocol is for

  /** Once the flag is up nothing is inserted and nothing registers, whatever threads are in the middle of. */
  lemma {:induction false} ClosedForGood<H>(s: State<H>, run: seq<Action<H>>)
    requires Inv(s) && s.closed && Legal(s, run)
    ensures var s' := After(s, run);
            && s'.closed && InFlight(s') <= InFlight(s) && s'.wg <= s.wg
            && (s'.live == s.live || s'.live == map[])
    decreases |run|
  {
    hide Inv, InFlight;
    if run != [] {
      var next := Do(s, run[0]);
      CountOf(s);
      InFlightAfter(s, run[0]);
      InvKept(s, run[0]);
      ClosedForGood(next, run[1..]);
    }
  }

  lemma CountOf<H>(s: State<H>)
    requires Inv(s)
    ensures s.wg == |InFlight(s)|
  {
  }

  ghost predicate Empty<H>(live: Subs<H>) {
    && Grouped(live, Exact) == map[] && Grouped(live, SuffixWildcard) == map[]
    && OfKind(live, Global) == map[] && WithPattern(Grouped(live, Complex)) == map[]
  }

  /** The goroutines that finish in a run. */
  ghost function Done<H>(run: seq<Action<H>>): set<Tid> {
    set a | a in run && a.FinishAsync? :: a.t
  }

  /** The same for publications in their callers' threads. */
  ghost function Returned<H>(run: seq<Action<H>>): set<Tid> {
    set a | a in run && a.FinishSync? :: a.t
  }

  lemma DoneFirst<H>(run: seq<Action<H>>)
    requires run != []
    ensures Done(run) == (if run[0].FinishAsync? then {run[0].t} else {}) + Done(run[1..])
    ensures Returned(run) == (if run[0].FinishSync? then {run[0].t} else {}) + Returned(run[1..])
  {
    assert run == [run[0]] + run[1..];
  }

  lemma NothingElse<T>(a: set<T>, b: set<T>)
    ensures a - b == {} <==> a <= b
  {
    if a - b == {} {
      forall x | x in a ensures x in b {
        assert x !in a - b;
      }
    }
  }

  /** Once the flag is up, what is in flight is what was in flight then, less what has finished since. */
  lemma {:induction false} LeftInFlight<H>(s: State<H>, run: seq<Action<H>>)
    requires Inv(s) && s.closed && Legal(s, run)
    ensures InFlight(After(s, run)) == InFlight(s) - Done(run)
    ensures Direct(After(s, run)) == Direct(s) - Returned(run)
    decreases |run|
  {
    hide Inv, InFlight, Direct, Done, Returned;
    if run == [] {
      assert Done(run) == {} && Returned(run) == {} by { NothingDone<H>(); }
    } else {
      var next := Do(s, run[0]);
      InFlightIs(s, run[0]);
      InvKept(s, run[0]);
      assert next.closed;
      DoneFirst(run);
      LeftInFlight(next, run[1..]);
    }
  }

  lemma NothingDone<H>()
    ensures Done<H>([]) == {} && Returned<H>([]) == {}
  {
  }

  /**
   * Whichever Close has returned: the flag is up from some action of the run on, and nothing is in
   * flight if and only if every publication that was in flight then has finished since.
   */
  lemma QuietIff<H>(before: seq<Action<H>>, run: seq<Action<H>>, t: Tid)
    requires Legal(Init(), before) && After(Init(), before).closed && Legal(After(Init(), before), run)
    ensures var s := After(Init(), before);
            && (InFlight(After(s, run)) == {} <==> InFlight(s) <= Done(run))
            && (At(After(s, run), t, Won) ==> InFlight(s) <= Done(run))
  {
    hide Done;
    var s := After<H>(Init(), before);
    InvAlways(Init(), before);
    LeftInFlight(s, run);
    InvAlways(s, run);
    CountOf(After(s, run));
    NothingElse(InFlight(s), Done(run));
  }

  /** A Close that has returned found the flag up or raised it. */
  lemma ReturnedIsClosed<H>(before: seq<Action<H>>, t: Tid)
    requires Legal(Init(), before)
    requires At(After(Init(), before), t, Won) || At(After(Init(), before), t, Lost)
    ensures After(Init(), before).closed
  {
    InvAlways(Init(), before);
    if At(After(Init(), before), t, Won) {
      assert t in Closers(After(Init(), before));
    }
  }

  /** From the return of the winning Close on, no goroutine is in flight and the four maps are empty, for ever. */
  lemma ClosedIsQuiet<H>(before: seq<Action<H>>, t: Tid, run: seq<Action<H>>)
    requires Legal(Init(), before) && At(After(Init(), before), t, Won)
    requires Legal(After(Init(), before), run)
    ensures var s := After(After(Init(), before), run);
            s.closed && InFlight(s) == {} && s.wg == 0 && s.live == map[] && Empty(s.live)
  {
    var s := After<H>(Init(), before);
    InvAlways(Init(), before);
    assert t in Closers(s);
    ClosedForGood(s, run);
  }

  /** Only the winner waits: a second Close can return with a publication still in flight. */
  lemma LoserReturnsEarly<H>()
    ensures exists run: seq<Action<H>> ::
              Legal(Init(), run) && At(After(Init(), run), 3, Lost) && InFlight(After(Init(), run)) != {}
  {
    var s0 := Init<H>();
    var s1 := Do(s0, StartAsync(1));
    var s2 := Do(s1, RaiseFlag(2));
    var s3 := Do(s2, RaiseFlag(3));
    var last: seq<Action<H>> := [RaiseFlag(3)];
    Prefixed(s2, RaiseFlag(3), []);
    assert last + [] == last;
    Prefixed(s1, RaiseFlag(2), last);
    Prefixed(s0, StartAsync(1), [RaiseFlag(2)] + last);
    var run := [StartAsync(1)] + ([RaiseFlag(2)] + last);
    assert After(s0, run) == s3 && 1 in InFlight(s3);
  }

  /** No Close waits for a publication in its caller's thread: one can outlast even the winner. */
  lemma DirectOutlasts<H>()
    ensures exists run: seq<Action<H>> ::
              Legal(Init(), run) && At(After(Init(), run), 2, Won) && Direct(After(Init(), run)) != {}
  {
    var s0 := Init<H>();
    var s1 := Do(s0, StartSync(1));
    var s2 := Do(s1, RaiseFlag(2));
    var s3 := Do(s2, EndWait(2));
    var s4 := Do(s3, Clear(2));
    var last: seq<Action<H>> := [Clear(2)];
    Prefixed(s3, Clear(2), []);
    assert last + [] == last;
    Prefixed(s2, EndWait(2), last);
    Prefixed(s1, RaiseFlag(2), [EndWait(2)] + last);
    Prefixed(s0, StartSync(1), [RaiseFlag(2)] + ([EndWait(2)] + last));
    var run := [StartSync(1)] + ([RaiseFlag(2)] + ([EndWait(2)] + last));
    assert After(s0, run) == s4 && 1 in Direct(s4);
  }

  lemma Prefixed<H>(s: State<H>, a: Action<H>, rest: seq<Action<H>>)
    requires Can(s, a) && Legal(Do(s, a), rest)
    ensures Legal(s, [a] + rest) && After(s, [a] + rest) == After(Do(s, a), rest)
  {
    assert ([a] + rest)[1..] == rest;
  }
}
