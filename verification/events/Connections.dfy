/**
 * WebSocket connections: the registry of open connections, the subscriptions each holds in
 * the broker, and all the ways their goroutines and the dead-connection sweeper interleave.
 */
module Connections {

  type ConnID = nat
  type SubID = nat

  /** A subscription as the registry lists it under its connection. */
  datatype Listed = Listed(id: SubID, topic: string)

  /** A subscription as the broker holds it. */
  datatype Entry = Entry(owner: ConnID, topic: string)

  /** What the mutexes protect. closes counts the closings of each connection's done channel. */
  datatype Registry = Registry(
    conns: set<ConnID>,
    closes: map<ConnID, nat>,
    subs: map<ConnID, seq<Listed>>,
    broker: map<SubID, Entry>,
    down: bool)

  function ListOf(r: Registry, c: ConnID): seq<Listed> {
    if c in r.subs then r.subs[c] else []
  }

  /** The position of the first subscription to a topic, or the length. */
  function First(list: seq<Listed>, topic: string): (i: nat)
    ensures i <= |list| && (i < |list| ==> list[i].topic == topic)
    ensures forall k | 0 <= k < i :: list[k].topic != topic
  {
    if |list| == 0 || list[0].topic == topic then 0 else 1 + First(list[1..], topic)
  }

  function Ids(list: seq<Listed>): set<SubID> {
    set l | l in list :: l.id
  }

  function Registered(r: Registry, c: ConnID): Registry {
    r.(conns := r.conns + {c}, closes := r.closes[c := 0])
  }

  /**
   * Closes the done channel of a connection that is still there and withdraws what it holds.
   * The broker takes back the first n subscriptions; if its flag is up it takes back none, and
   * if its flag goes up in between it takes back only some.
   */
  function Unregistered(r: Registry, c: ConnID, n: nat): Registry
    requires n <= |ListOf(r, c)| && (c in r.conns ==> c in r.closes)
  {
    r.(conns := r.conns - {c},
       closes := if c in r.conns then r.closes[c := r.closes[c] + 1] else r.closes,
       subs := r.subs - {c},
       broker := if r.down then r.broker else r.broker - Ids(ListOf(r, c)[..n]),
       down := r.down || n < |ListOf(r, c)|)
  }

  function Appended(r: Registry, c: ConnID, l: Listed): Registry {
    r.(subs := r.subs[c := ListOf(r, c) + [l]])
  }

  /** The first subscription to the topic goes, unless the broker refuses. */
  function Withdrawn(r: Registry, c: ConnID, topic: string): Registry {
    var list := ListOf(r, c);
    var i := First(list, topic);
    if i == |list| || r.down then r
    else r.(broker := r.broker - {list[i].id}, subs := r.subs[c := list[..i] + list[i + 1..]])
  }

  // ----- the registry as the source writes it

  class WSConnmgr {
    var conns: set<ConnID>
    var closes: map<ConnID, nat>
    var subscriptions: map<ConnID, seq<Listed>>
    var broker: map<SubID, Entry>
    var down: bool

    function Value(): Registry
      reads this
    {
      Registry(conns, closes, subscriptions, broker, down)
    }

    constructor ()
      ensures Value() == Registry({}, map[], map[], map[], false)
    {
      conns, closes, subscriptions, broker, down := {}, map[], map[], map[], false;
    }

    method Register(c: ConnID)
      modifies this
      ensures Value() == Registered(old(Value()), c)
    {
      closes := closes[c := 0];
      conns := conns + {c};
    }

    /** The broker refuses once its flag is up. */
    method BrokerUnsubscribe(id: SubID) returns (ok: bool)
      modifies `broker
      ensures ok == !down && broker == if down then old(broker) else old(broker) - {id}
    {
      if down {
        return false;
      }
      broker := broker - {id};
      return true;
    }

    method CloseDone(c: ConnID)
      requires c in conns ==> c in closes
      modifies `closes
      ensures closes == if c in conns then old(closes)[c := old(closes)[c] + 1] else old(closes)
    {
      if c in conns {
        closes := closes[c := closes[c] + 1];
      }
    }

    method WithdrawAll(c: ConnID)
      modifies `broker
      ensures broker == if down then old(broker) else old(broker) - Ids(ListOf(old(Value()), c))
    {
      var subs := if c in subscriptions then subscriptions[c] else [];
      assert old(broker) - Ids(subs[..0]) == old(broker);
      for i := 0 to |subs|
        invariant broker == if down then old(broker) else old(broker) - Ids(subs[..i])
      {
        var _ := BrokerUnsubscribe(subs[i].id);
        IdsMore(subs, i);
      }
      assert subs[..|subs|] == subs;
    }

    method Unregister(c: ConnID)
      requires c in conns ==> c in closes
      modifies this
      ensures Value() == Unregistered(old(Value()), c, |ListOf(old(Value()), c)|)
    {
      CloseDone(c);
      WithdrawAll(c);
      subscriptions := subscriptions - {c};
      conns := conns - {c};
      assert ListOf(old(Value()), c)[..|ListOf(old(Value()), c)|] == ListOf(old(Value()), c);
    }

    /** One identifier of the sweeper's list; it may have gone in the meantime. */
    method SweepOne(c: ConnID)
      requires c in conns ==> c in closes
      modifies this
      ensures Value() == Unregistered(old(Value()), c, |ListOf(old(Value()), c)|)
    {
      WithdrawAll(c);
      subscriptions := subscriptions - {c};
      CloseDone(c);
      conns := conns - {c};
      assert ListOf(old(Value()), c)[..|ListOf(old(Value()), c)|] == ListOf(old(Value()), c);
    }

    method IsSubscribed(c: ConnID, topic: string) returns (found: bool)
      ensures found <==> First(ListOf(Value(), c), topic) < |ListOf(Value(), c)|
    {
      var subs := if c in subscriptions then subscriptions[c] else [];
      for i := 0 to |subs|
        invariant forall k | 0 <= k < i :: subs[k].topic != topic
      {
        if subs[i].topic == topic {
          return true;
        }
      }
      return false;
    }

    /** The second half of Subscribe, after the broker has the subscription. */
    method Append(c: ConnID, l: Listed)
      modifies this
      ensures Value() == Appended(old(Value()), c, l)
    {
      subscriptions := subscriptions[c := (if c in subscriptions then subscriptions[c] else []) + [l]];
    }

    method Unsubscribe(c: ConnID, topic: string) returns (ok: bool)
      modifies this
      ensures Value() == Withdrawn(old(Value()), c, topic)
      ensures ok <==> First(ListOf(old(Value()), c), topic) == |ListOf(old(Value()), c)| || !old(down)
    {
      var subs := if c in subscriptions then subscriptions[c] else [];
      for i := 0 to |subs|
        invariant Value() == old(Value())
        invariant forall k | 0 <= k < i :: subs[k].topic != topic
      {
        if subs[i].topic == topic {
          ok := BrokerUnsubscribe(subs[i].id);
          if ok {
            subscriptions := subscriptions[c := subs[..i] + subs[i + 1..]];
          }
          return;
        }
      }
      return true;
    }
  }

  lemma IdsMore(list: seq<Listed>, i: nat)
    requires i < |list|
    ensures Ids(list[..i + 1]) == Ids(list[..i]) + {list[i].id}
  {
    assert list[..i + 1] == list[..i] + [list[i]];
  }
}
