/** Every interleaving of connection goroutines, the sweeper and the closing of the broker. */
module Lifecycle {
  import opened Connections

  /** Where the goroutine of a connection stands; its messages are handled one after another. */
  datatype Pc =
    | Reading
    | Checked(topic: string)               // not subscribed yet, about to ask the broker
    | InBroker(id: SubID, topic: string)   // the broker has it, the registry does not
    | Leaving                              // the read loop has returned
    | Finished                             // Unregister is done

  datatype State = State(reg: Registry, pcs: map<ConnID, Pc>, used: set<SubID>)

  datatype Action =
    | Register(c: ConnID)
    | Check(c: ConnID, topic: string)
    | GiveUp(c: ConnID)
    | AskBroker(c: ConnID, id: SubID)
    | Append(c: ConnID)
    | Unsubscribe(c: ConnID, topic: string)
    | EndRead(c: ConnID)
    | Unregister(c: ConnID, n: nat)
    | Sweep(c: ConnID, n: nat)
    | RaiseFlag
    | ClearBroker

  ghost predicate Can(s: State, a: Action) {
    match a
    case Register(c) => c !in s.pcs
    case Check(c, _) => c in s.pcs && s.pcs[c].Reading?
    case GiveUp(c) => c in s.pcs && s.pcs[c].Checked?
    case AskBroker(c, id) => c in s.pcs && s.pcs[c].Checked? && id !in s.used
    case Append(c) => c in s.pcs && s.pcs[c].InBroker?
    case Unsubscribe(c, _) => c in s.pcs && s.pcs[c].Reading?
    case EndRead(c) => c in s.pcs && s.pcs[c].Reading?
    case Unregister(c, n) => c in s.pcs && s.pcs[c].Leaving? && n <= |ListOf(s.reg, c)| && c in s.reg.closes
    case Sweep(c, n) => c in s.pcs && n <= |ListOf(s.reg, c)| && c in s.reg.closes
    case RaiseFlag => true
    case ClearBroker => s.reg.down
  }

  ghost function Do(s: State, a: Action): State
    requires Can(s, a)
  {
    match a
    case Register(c) => s.(reg := Registered(s.reg, c), pcs := s.pcs[c := Reading])
    case Check(c, topic) =>
      if First(ListOf(s.reg, c), topic) < |ListOf(s.reg, c)| then s else s.(pcs := s.pcs[c := Checked(topic)])
    case GiveUp(c) => s.(pcs := s.pcs[c := Reading])
    case AskBroker(c, id) =>
      var topic := s.pcs[c].topic;
      if s.reg.down then s.(pcs := s.pcs[c := Reading])
      else State(s.reg.(broker := s.reg.broker[id := Entry(c, topic)]), s.pcs[c := InBroker(id, topic)], s.used + {id})
    case Append(c) =>
      var pc := s.pcs[c];
      s.(reg := Appended(s.reg, c, Listed(pc.id, pc.topic)), pcs := s.pcs[c := Reading])
    case Unsubscribe(c, topic) => s.(reg := Withdrawn(s.reg, c, topic))
    case EndRead(c) => s.(pcs := s.pcs[c := Leaving])
    case Unregister(c, n) => s.(reg := Unregistered(s.reg, c, n), pcs := s.pcs[c := Finished])
    case Sweep(c, n) => s.(reg := Unregistered(s.reg, c, n))
    case RaiseFlag => s.(reg := s.reg.(down := true))
    case ClearBroker => s.(reg := s.reg.(broker := map[]))
  }

  function Init(): State {
    State(Registry({}, map[], map[], map[], false), map[], {})
  }

  ghost predicate Legal(run: seq<Action>)
    decreases |run|, 0
  {
    |run| == 0 || (Legal(run[..|run| - 1]) && Can(After(run[..|run| - 1]), run[|run| - 1]))
  }

  ghost function After(run: seq<Action>): State
    requires Legal(run)
    decreases |run|, 1
  {
    if |run| == 0 then Init() else Do(After(run[..|run| - 1]), run[|run| - 1])
  }

  // ----- the done channels

  /** The channel of a connection is closed as often as the connection has left the registry: not at all, or once. */
  ghost predicate ClosesInv(s: State) {
    && s.reg.closes.Keys == s.pcs.Keys && s.reg.conns <= s.pcs.Keys
    && (forall c | c in s.pcs :: s.reg.closes[c] == if c in s.reg.conns then 0 else 1)
    && (forall c | c in s.pcs && s.pcs[c].Finished? :: c !in s.reg.conns)
  }

  lemma ClosesKept(s: State, a: Action)
    requires ClosesInv(s) && Can(s, a)
    ensures ClosesInv(Do(s, a))
  {
  }

  // ----- the subscriptions

  ghost predicate Apart(list: seq<Listed>) {
    forall i, j | 0 <= i < j < |list| :: list[i].topic != list[j].topic && list[i].id != list[j].id
  }

  ghost predicate NoTopic(list: seq<Listed>, topic: string) {
    forall l | l in list :: l.topic != topic
  }

  /** Of one connection: no topic twice, every listed one issued, and none for the topic being added. */
  ghost predicate ListInv(s: State, c: ConnID) {
    var list := ListOf(s.reg, c);
    && Apart(list) && Ids(list) <= s.used
    && (list != [] ==> c in s.pcs && !s.pcs[c].Finished?)
    && (c in s.pcs && s.pcs[c].Checked? ==> NoTopic(list, s.pcs[c].topic))
    && (c in s.pcs && s.pcs[c].InBroker? ==>
          s.pcs[c].id in s.used && s.pcs[c].id !in Ids(list) && NoTopic(list, s.pcs[c].topic))
  }

  /** A subscription its connection accounts for: listed, or on its way to the list. */
  ghost predicate Held(s: State, c: ConnID, id: SubID, topic: string) {
    || Listed(id, topic) in ListOf(s.reg, c)
    || (c in s.pcs && s.pcs[c] == InBroker(id, topic))
  }

  /** While the broker is open it holds exactly what the connections account for. */
  ghost predicate BrokerInv(s: State) {
    && (forall id | id in s.reg.broker :: id in s.used)
    && (forall c, id, topic | Held(s, c, id, topic) && id in s.reg.broker :: s.reg.broker[id] == Entry(c, topic))
    && (!s.reg.down ==> forall c, id, topic ::
          Held(s, c, id, topic) <==> id in s.reg.broker && s.reg.broker[id] == Entry(c, topic))
    && (forall id, id' | id in s.reg.broker && id' in s.reg.broker && s.reg.broker[id] == s.reg.broker[id'] ::
          id == id')
  }

  ghost predicate Inv(s: State) {
    ClosesInv(s) && (forall c :: ListInv(s, c)) && BrokerInv(s)
  }

  // ----- what one action does to a list and to what is held

  lemma ListAfter(s: State, a: Action, c: ConnID)
    requires Can(s, a)
    ensures ListOf(Do(s, a).reg, c) ==
              match a
              case Append(d) =>
                if c == d then ListOf(s.reg, c) + [Listed(s.pcs[d].id, s.pcs[d].topic)] else ListOf(s.reg, c)
              case Unregister(d, _) => if c == d then [] else ListOf(s.reg, c)
              case Sweep(d, _) => if c == d then [] else ListOf(s.reg, c)
              case Unsubscribe(d, topic) => if c == d then ListOf(Withdrawn(s.reg, c, topic), c) else ListOf(s.reg, c)
              case _ => ListOf(s.reg, c)
  {
  }

  lemma WithdrawnList(r: Registry, c: ConnID, topic: string)
    requires Apart(ListOf(r, c))
    ensures var list, rest := ListOf(r, c), ListOf(Withdrawn(r, c, topic), c);
            && Apart(rest) && Ids(rest) <= Ids(list)
            && (forall l :: l in rest <==> l in list && (l.topic != topic || r.down))
            && (rest != [] ==> list != [])
  {
    hide ListOf;
    var list, i := ListOf(r, c), First(ListOf(r, c), topic);
    var rest := if i == |list| || r.down then list else list[..i] + list[i + 1..];
    WithdrawnIs(r, c, topic);
    if i < |list| && !r.down {
      Without(list, i);
      assert list[i] in list;
      forall l | l in list && l.topic == topic ensures l == list[i] {
        var k :| 0 <= k < |list| && list[k] == l;
      }
    } else {
      CheckedList(list, topic);
    }
  }

  lemma Without(list: seq<Listed>, i: nat)
    requires Apart(list) && i < |list|
    ensures var rest := list[..i] + list[i + 1..];
            Apart(rest) && forall l :: l in rest <==> l in list && l != list[i]
  {
    var rest := list[..i] + list[i + 1..];
    assert list == list[..i] + [list[i]] + list[i + 1..];
    forall l ensures l in rest <==> l in list && l != list[i] {
      assert l in rest <==> l in list[..i] || l in list[i + 1..];
      assert l in list <==> l in list[..i] || l == list[i] || l in list[i + 1..];
    }
  }

  lemma WithdrawnIs(r: Registry, c: ConnID, topic: string)
    ensures var list, i := ListOf(r, c), First(ListOf(r, c), topic);
            ListOf(Withdrawn(r, c, topic), c) == if i == |list| || r.down then list else list[..i] + list[i + 1..]
  {
  }

  lemma AppendedList(list: seq<Listed>, l: Listed)
    requires Apart(list) && l.id !in Ids(list) && NoTopic(list, l.topic)
    ensures Apart(list + [l]) && Ids(list + [l]) == Ids(list) + {l.id}
  {
    forall k | 0 <= k < |list| ensures list[k].id != l.id && list[k].topic != l.topic {
      assert list[k] in list;
    }
    assert forall x :: x in list + [l] <==> x in list || x == l;
  }

  lemma CheckedList(list: seq<Listed>, topic: string)
    ensures First(list, topic) == |list| <==> NoTopic(list, topic)
  {
    if First(list, topic) == |list| {
      forall l | l in list ensures l.topic != topic {
        var k :| 0 <= k < |list| && list[k] == l;
      }
    } else {
      assert list[First(list, topic)] in list;
    }
  }

  lemma ListKept(s: State, a: Action, c: ConnID)
    requires Can(s, a) && ListInv(s, c)
    ensures ListInv(Do(s, a), c)
  {
    hide ListOf, Withdrawn, Apart, NoTopic, Ids;
    ListAfter(s, a, c);
    var list := ListOf(s.reg, c);
    match a
    case Unsubscribe(d, topic) =>
      WithdrawnList(s.reg, c, topic);
    case Check(d, topic) =>
      CheckedList(list, topic);
    case Append(d) =>
      if c == d {
        AppendedList(list, Listed(s.pcs[d].id, s.pcs[d].topic));
      }
    case Unregister(_, _) =>
      NoneListed();
    case Sweep(d, _) =>
      NoneListed();
      if c == d {
        forall topic ensures NoTopic([], topic) {
          CheckedList([], topic);
        }
      }
    case _ =>
  }

  lemma NoneListed()
    ensures Apart([]) && Ids([]) == {}
  {
  }

  // ----- the broker and the lists

  /** No longer accounted for after the action. */
  ghost predicate Dropped(s: State, a: Action, c: ConnID, id: SubID, topic: string) {
    match a
    case Unregister(d, _) => c == d && Listed(id, topic) in ListOf(s.reg, c)
    case Sweep(d, _) => c == d && Listed(id, topic) in ListOf(s.reg, c)
    case Unsubscribe(d, t) => c == d && topic == t && !s.reg.down && Listed(id, topic) in ListOf(s.reg, c)
    case _ => false
  }

  ghost predicate Added(s: State, a: Action, c: ConnID, id: SubID, topic: string)
    requires Can(s, a)
  {
    a.AskBroker? && a.c == c && a.id == id && topic == s.pcs[c].topic && !s.reg.down
  }

  /** Taken back by the broker. */
  ghost predicate Taken(s: State, a: Action, id: SubID)
    requires Can(s, a)
  {
    match a
    case Unregister(d, n) => !s.reg.down && id in Ids(ListOf(s.reg, d)[..n])
    case Sweep(d, n) => !s.reg.down && id in Ids(ListOf(s.reg, d)[..n])
    case Unsubscribe(d, t) => !s.reg.down && Listed(id, t) in ListOf(s.reg, d)
    case ClearBroker => true
    case _ => false
  }

  lemma HeldAfter(s: State, a: Action, c: ConnID, id: SubID, topic: string)
    requires Can(s, a) && ListInv(s, c)
    ensures Held(Do(s, a), c, id, topic) <==>
              (Held(s, c, id, topic) && !Dropped(s, a, c, id, topic)) || Added(s, a, c, id, topic)
    ensures Held(s, c, id, topic) ==> id in s.used
  {
    hide ListOf, Withdrawn, Apart, NoTopic;
    ListAfter(s, a, c);
    if a.Unsubscribe? {
      WithdrawnList(s.reg, c, a.topic);
    }
  }

  lemma BrokerAfter(s: State, a: Action, id: SubID)
    requires Can(s, a) && (a.Unsubscribe? ==> ListInv(s, a.c))
    ensures var broker := Do(s, a).reg.broker;
            if a.AskBroker? && !s.reg.down && a.id == id then id in broker && broker[id] == Entry(a.c, s.pcs[a.c].topic)
            else (id in broker <==> id in s.reg.broker && !Taken(s, a, id))
                 && (id in broker ==> broker[id] == s.reg.broker[id])
  {
    if a.Unsubscribe? {
      UnsubscribeTakes(s, a.c, a.topic, id);
    }
  }

  lemma UnsubscribeTakes(s: State, c: ConnID, topic: string, id: SubID)
    requires ListInv(s, c)
    ensures var broker := Withdrawn(s.reg, c, topic).broker;
            && (id in broker <==> id in s.reg.broker && !(!s.reg.down && Listed(id, topic) in ListOf(s.reg, c)))
            && (id in broker ==> broker[id] == s.reg.broker[id])
  {
    hide ListOf;
    var list := ListOf(s.reg, c);
    var i := First(list, topic);
    if i == |list| {
      CheckedList(list, topic);
    } else {
      assert list[i] in list && list[i].topic == topic;
      if Listed(id, topic) in list {
        var k :| 0 <= k < |list| && list[k] == Listed(id, topic);
      }
    }
  }

  lemma BrokerKept(s: State, a: Action)
    requires Inv(s) && Can(s, a)
    ensures BrokerInv(Do(s, a))
  {
    hide ClosesInv, ListInv, ListOf, Held, Dropped, Taken, Do;
    var s' := Do(s, a);
    UsedAfter(s, a);
    forall c, id, topic
      ensures Held(s', c, id, topic) && id in s'.reg.broker ==> s'.reg.broker[id] == Entry(c, topic)
      ensures !s'.reg.down ==> (Held(s', c, id, topic) <==> id in s'.reg.broker && s'.reg.broker[id] == Entry(c, topic))
    {
      HeldAfter(s, a, c, id, topic);
      BrokerAfter(s, a, id);
      if !s'.reg.down {
        TakenIsDropped(s, a, c, id, topic);
      }
    }
    forall id ensures id in s'.reg.broker ==> id in s'.used {
      BrokerAfter(s, a, id);
    }
    forall id, id' | id in s'.reg.broker && id' in s'.reg.broker && s'.reg.broker[id] == s'.reg.broker[id']
      ensures id == id'
    {
      BrokerAfter(s, a, id);
      BrokerAfter(s, a, id');
      NewEntry(s, a, id);
      NewEntry(s, a, id');
    }
  }

  lemma UsedAfter(s: State, a: Action)
    requires Can(s, a)
    ensures s.used <= Do(s, a).used && (s.reg.down ==> Do(s, a).reg.down)
    ensures a.AskBroker? && !s.reg.down ==> a.id in Do(s, a).used && a.id !in s.used
  {
  }

  /** While the broker stays open it takes back exactly what stops being accounted for. */
  lemma TakenIsDropped(s: State, a: Action, c: ConnID, id: SubID, topic: string)
    requires Inv(s) && Can(s, a) && !Do(s, a).reg.down
    ensures Held(s, c, id, topic) ==> (Taken(s, a, id) <==> Dropped(s, a, c, id, topic))
  {
    hide ListOf, ClosesInv, ListInv;
    if Held(s, c, id, topic) {
      match a
      case Unregister(d, n) => ListedIsHeld(s, d, n, id);
      case Sweep(d, n) => ListedIsHeld(s, d, n, id);
      case Unsubscribe(d, t) =>
        assert Listed(id, t) in ListOf(s.reg, d) ==> Held(s, d, id, t);
      case _ =>
    }
  }

  lemma ListedIsHeld(s: State, d: ConnID, n: nat, id: SubID)
    requires BrokerInv(s) && !s.reg.down && n == |ListOf(s.reg, d)|
    ensures id in Ids(ListOf(s.reg, d)[..n]) <==>
              id in s.reg.broker && s.reg.broker[id].owner == d
                && Listed(id, s.reg.broker[id].topic) in ListOf(s.reg, d)
  {
    hide ListOf;
    var list := ListOf(s.reg, d);
    assert list[..n] == list;
    if id in Ids(list) {
      var l :| l in list && l.id == id;
      assert Held(s, d, id, l.topic);
    }
  }

  /** The broker has nothing yet for the connection and topic it is asked for. */
  lemma NewEntry(s: State, a: Action, id: SubID)
    requires Inv(s) && Can(s, a)
    ensures a.AskBroker? && !s.reg.down && id in s.reg.broker ==> s.reg.broker[id] != Entry(a.c, s.pcs[a.c].topic)
  {
    hide ListOf, ClosesInv, Apart, Ids;
    if a.AskBroker? && !s.reg.down && id in s.reg.broker {
      var c, topic := a.c, s.pcs[a.c].topic;
      assert ListInv(s, c);
      assert s.reg.broker[id] == Entry(c, topic) ==> Held(s, c, id, topic);
    }
  }

  // ----- every run

  lemma InvInit()
    ensures Inv(Init())
  {
  }

  lemma InvKept(s: State, a: Action)
    requires Inv(s) && Can(s, a)
    ensures Inv(Do(s, a))
  {
    hide ClosesInv, ListInv, BrokerInv, Do;
    ClosesKept(s, a);
    BrokerKept(s, a);
    forall c ensures ListInv(Do(s, a), c) {
      ListKept(s, a, c);
    }
  }

  lemma {:induction false} InvAlways(run: seq<Action>)
    requires Legal(run)
    ensures Inv(After(run))
    decreases |run|
  {
    hide Inv;
    if |run| == 0 {
      InvInit();
    } else {
      InvAlways(run[..|run| - 1]);
      InvKept(After(run[..|run| - 1]), run[|run| - 1]);
    }
  }

  /** No done channel is closed twice, whoever unregisters the connection: its goroutine, the sweeper, or both. */
  lemma ClosedAtMostOnce(run: seq<Action>, c: ConnID)
    requires Legal(run) && c in After(run).pcs
    ensures c in After(run).reg.closes && After(run).reg.closes[c] <= 1
    ensures After(run).pcs[c].Finished? ==> After(run).reg.closes[c] == 1
  {
    InvAlways(run);
  }

  /** In the broker and in the list alike, a connection has one subscription to a topic at most. */
  lemma OnePerTopic(run: seq<Action>)
    requires Legal(run)
    ensures var r := After(run).reg;
            && (forall id, id' | id in r.broker && id' in r.broker && r.broker[id] == r.broker[id'] :: id == id')
            && (forall c, i, j | 0 <= i < j < |ListOf(r, c)| :: ListOf(r, c)[i].topic != ListOf(r, c)[j].topic)
  {
    InvAlways(run);
    forall c, i, j | 0 <= i < j < |ListOf(After(run).reg, c)|
      ensures ListOf(After(run).reg, c)[i].topic != ListOf(After(run).reg, c)[j].topic
    {
      assert ListInv(After(run), c);
    }
  }

  lemma {:induction false} FinishedForGood(run: seq<Action>, n: nat, c: ConnID)
    requires Legal(run) && n <= |run| && Legal(run[..n]) && c in After(run[..n]).pcs && After(run[..n]).pcs[c].Finished?
    ensures c in After(run).pcs && After(run).pcs[c].Finished?
    decreases |run|
  {
    if n == |run| {
      assert run[..n] == run;
    } else {
      var before := run[..|run| - 1];
      assert before[..n] == run[..n];
      FinishedForGood(before, n, c);
      StaysFinished(After(before), run[|run| - 1], c);
    }
  }

  lemma StaysFinished(s: State, a: Action, c: ConnID)
    requires Can(s, a) && c in s.pcs && s.pcs[c].Finished?
    ensures c in Do(s, a).pcs && Do(s, a).pcs[c].Finished?
  {
  }

  /**
   * From the end of a connection's goroutine on, the connection is out of the registry, and as
   * long as the broker is open none of its subscriptions is left there. If the sweeper was faster,
   * a subscription still on its way to the list has been caught by Unregister at the end.
   */
  lemma NothingLeft(run: seq<Action>, n: nat, c: ConnID)
    requires Legal(run) && n <= |run| && Legal(run[..n]) && c in After(run[..n]).pcs && After(run[..n]).pcs[c].Finished?
    ensures var r := After(run).reg;
            && c !in r.conns && ListOf(r, c) == []
            && (!r.down ==> forall id | id in r.broker :: r.broker[id].owner != c)
  {
    FinishedForGood(run, n, c);
    InvAlways(run);
    var s := After(run);
    assert ListInv(s, c);
    forall id | !s.reg.down && id in s.reg.broker ensures s.reg.broker[id].owner != c {
      assert s.reg.broker[id].owner == c ==> Held(s, c, id, s.reg.broker[id].topic);
    }
  }

  // ----- when exactly something is left

  /** The broker has a subscription of the connection. */
  ghost predicate HasEntry(s: State, c: ConnID) {
    exists id :: id in s.reg.broker && s.reg.broker[id].owner == c
  }

  /** An open broker has something of a connection exactly when the connection accounts for something. */
  lemma EntryIffHeld(s: State, c: ConnID)
    requires BrokerInv(s) && !s.reg.down
    ensures HasEntry(s, c) <==> ListOf(s.reg, c) != [] || (c in s.pcs && s.pcs[c].InBroker?)
  {
    hide ListOf;
    if HasEntry(s, c) {
      var id :| id in s.reg.broker && s.reg.broker[id].owner == c;
      assert Held(s, c, id, s.reg.broker[id].topic);
    }
    if ListOf(s.reg, c) != [] {
      var l := ListOf(s.reg, c)[0];
      assert Held(s, c, l.id, l.topic);
    }
    if c in s.pcs && s.pcs[c].InBroker? {
      assert Held(s, c, s.pcs[c].id, s.pcs[c].topic);
    }
  }

  /** What is listed behind the first n is not among the ids of the first n. */
  lemma BehindFirst(list: seq<Listed>, n: nat, k: nat)
    requires Apart(list) && n <= k < |list|
    ensures list[k].id !in Ids(list[..n])
  {
  }

  /**
   * Taking back what a connection lists, by its goroutine or by the sweeper, leaves an entry of
   * it in the broker if and only if there was one and the flag was up before, or the flag went
   * up before the end of the list, or a subscription was still on its way to the list.
   */
  lemma LeftAfterWithdrawal(s: State, a: Action)
    requires Inv(s) && Can(s, a) && (a.Unregister? || a.Sweep?)
    ensures HasEntry(Do(s, a), a.c) <==>
              if s.reg.down then HasEntry(s, a.c) else a.n < |ListOf(s.reg, a.c)| || s.pcs[a.c].InBroker?
  {
    hide ListOf, Apart, ClosesInv;
    var s', list := Do(s, a), ListOf(s.reg, a.c);
    if s.reg.down {
      assert s'.reg.broker == s.reg.broker;
    } else {
      assert s'.reg.broker == s.reg.broker - Ids(list[..a.n]);
      assert ListInv(s, a.c);
      if a.n < |list| {
        BehindFirst(list, a.n, a.n);
        assert Held(s, a.c, list[a.n].id, list[a.n].topic);
        assert list[a.n].id in s'.reg.broker && s'.reg.broker[list[a.n].id].owner == a.c;
      }
      if s.pcs[a.c].InBroker? {
        assert Held(s, a.c, s.pcs[a.c].id, s.pcs[a.c].topic);
        assert s.pcs[a.c].id !in Ids(list) && Ids(list[..a.n]) <= Ids(list);
        assert s.pcs[a.c].id in s'.reg.broker && s'.reg.broker[s.pcs[a.c].id].owner == a.c;
      }
      if HasEntry(s', a.c) {
        var id :| id in s'.reg.broker && s'.reg.broker[id].owner == a.c;
        var l := Listed(id, s.reg.broker[id].topic);
        assert Held(s, a.c, id, l.topic);
        assert l in list ==> l.id in Ids(list);
        assert a.n == |list| ==> list[..a.n] == list;
      }
    }
  }

  /** Once a connection has finished, only the clearing of the maps changes what the broker has of it. */
  lemma FinishedStep(s: State, a: Action, c: ConnID)
    requires Inv(s) && Can(s, a) && c in s.pcs && s.pcs[c].Finished?
    ensures HasEntry(Do(s, a), c) <==> HasEntry(s, c) && !a.ClearBroker?
  {
    hide ListOf, ClosesInv, Apart;
    if s.reg.down {
      assert Do(s, a).reg.broker == if a.ClearBroker? then map[] else s.reg.broker;
    } else {
      assert ListInv(s, c);
      EntryIffHeld(s, c);
      InvKept(s, a);
      StaysFinished(s, a, c);
      OnlyAskingAdds(s, a);
    }
  }

  lemma OnlyAskingAdds(s: State, a: Action)
    requires Can(s, a)
    ensures forall id | id in Do(s, a).reg.broker ::
              (id in s.reg.broker && s.reg.broker[id] == Do(s, a).reg.broker[id])
              || (a.AskBroker? && Do(s, a).reg.broker[id].owner == a.c)
  {
  }

  /**
   * From the end of a connection's goroutine on, the broker has something of it if and only if
   * it had something at that end, and the maps have not been cleared since.
   */
  lemma {:induction false} LeftIff(run: seq<Action>, n: nat, c: ConnID)
    requires Legal(run) && n <= |run| && Legal(run[..n]) && c in After(run[..n]).pcs && After(run[..n]).pcs[c].Finished?
    ensures HasEntry(After(run), c) <==>
              HasEntry(After(run[..n]), c) && forall j | n <= j < |run| :: !run[j].ClearBroker?
    decreases |run|
  {
    hide HasEntry;
    if n == |run| {
      assert run[..n] == run;
    } else {
      var before, last := run[..|run| - 1], run[|run| - 1];
      assert before[..n] == run[..n];
      LeftIff(before, n, c);
      FinishedForGood(before, n, c);
      InvAlways(before);
      FinishedStep(After(before), last, c);
      assert forall j | n <= j < |before| :: before[j] == run[j];
    }
  }

  /** Both together: what is left of a connection is decided when its goroutine ends. */
  lemma LeftOfConnection(run: seq<Action>, n: nat)
    requires Legal(run) && n < |run| && Legal(run[..n]) && Legal(run[..n + 1]) && run[n].Unregister?
    ensures var s, c := After(run[..n]), run[n].c;
            HasEntry(After(run), c) <==>
              && (if s.reg.down then HasEntry(s, c) else run[n].n < |ListOf(s.reg, c)|)
              && forall j | n < j < |run| :: !run[j].ClearBroker?
  {
    hide HasEntry, ListOf, Legal, Inv, Do;
    var s := After(run[..n]);
    assert run[..n + 1][..n] == run[..n] && run[..n + 1][n] == run[n];
    LastStep(run[..n + 1]);
    InvAlways(run[..n]);
    LeftAfterWithdrawal(s, run[n]);
    UnregisterEnds(s, run[n]);
    LeftIff(run, n + 1, run[n].c);
  }

  lemma LastStep(run: seq<Action>)
    requires run != [] && Legal(run)
    ensures var front := run[..|run| - 1];
            Legal(front) && Can(After(front), run[|run| - 1]) && After(run) == Do(After(front), run[|run| - 1])
  {
  }

  lemma UnregisterEnds(s: State, a: Action)
    requires Can(s, a) && a.Unregister?
    ensures a.c in s.pcs && s.pcs[a.c].Leaving? && a.c in Do(s, a).pcs && Do(s, a).pcs[a.c].Finished?
  {
  }

  lemma OneMore(run: seq<Action>, a: Action)
    requires Legal(run) && Can(After(run), a)
    ensures Legal(run + [a]) && After(run + [a]) == Do(After(run), a)
  {
    assert (run + [a])[..|run|] == run;
  }

  lemma OneSubscribed() returns (run: seq<Action>)
    ensures Legal(run)
    ensures After(run) == State(Registry({1}, map[1 := 0], map[1 := [Listed(7, "a")]], map[7 := Entry(1, "a")], false),
                                map[1 := Reading], {7})
  {
    hide Legal, After;
    run := [];
    NoRun();
    OneMore(run, Register(1));
    run := run + [Register(1)];
    OneMore(run, Check(1, "a"));
    run := run + [Check(1, "a")];
    OneMore(run, AskBroker(1, 7));
    run := run + [AskBroker(1, 7)];
    OneMore(run, Append(1));
    run := run + [Append(1)];
    var s := After(run);
    assert s.reg.conns == {1} && s.used == {7} && s.reg.closes == map[1 := 0] && s.pcs == map[1 := Reading];
    assert s.reg.subs[1] == [Listed(7, "a")];
    assert s.reg.subs == map[1 := [Listed(7, "a")]] && s.reg.broker == map[7 := Entry(1, "a")];
  }

  lemma NoRun()
    ensures Legal([]) && After([]) == Init()
  {
  }

  /** Once the broker's flag is up it takes nothing back, so a connection that ends then can leave a subscription. */
  lemma LeftWhenTheBrokerCloses()
    ensures exists run: seq<Action> ::
              && Legal(run) && 1 in After(run).pcs && After(run).pcs[1].Finished?
              && 7 in After(run).reg.broker && After(run).reg.broker[7].owner == 1
  {
    hide Legal, After;
    var run := OneSubscribed();
    OneMore(run, RaiseFlag);
    run := run + [RaiseFlag];
    OneMore(run, EndRead(1));
    run := run + [EndRead(1)];
    var s := After(run);
    assert |ListOf(s.reg, 1)| == 1;
    OneMore(run, Unregister(1, 1));
    assert Do(s, Unregister(1, 1)).reg.broker == s.reg.broker;
    run := run + [Unregister(1, 1)];
    assert 7 in After(run).reg.broker;
  }
}
