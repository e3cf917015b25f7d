/** What one poll hands to the event handler, and the orders that wait for their client. */
module Events {

  datatype Event = Message(text: string) | Messages(texts: seq<string>) | Other(id: nat)

  function Texts(events: seq<Event>): seq<string> {
    if events == [] then []
    else
      var last := events[|events| - 1];
      Texts(events[..|events| - 1]) + if last.Message? then [last.text] else []
  }

  function Rest(events: seq<Event>): seq<Event> {
    if events == [] then []
    else
      var last := events[|events| - 1];
      Rest(events[..|events| - 1]) + if last.Message? then [] else [last]
  }

  lemma PushEvent(events: seq<Event>, i: nat)
    requires i < |events|
    ensures Texts(events[..i + 1]) == Texts(events[..i]) + if events[i].Message? then [events[i].text] else []
    ensures Rest(events[..i + 1]) == Rest(events[..i]) + if events[i].Message? then [] else [events[i]]
  {
    assert events[..i + 1][..i] == events[..i];
  }

  predicate NoMessage(events: seq<Event>, n: nat)
    requires n <= |events|
  {
    forall i :: 0 <= i < n ==> !events[i].Message?
  }

  predicate FirstMessage(events: seq<Event>, k: nat) {
    k < |events| && events[k].Message? && NoMessage(events, k)
  }

  lemma {:induction false} BeforeMessages(events: seq<Event>, n: nat)
    requires n <= |events| && NoMessage(events, n)
    ensures Texts(events[..n]) == [] && Rest(events[..n]) == events[..n]
  {
    if n > 0 {
      BeforeMessages(events, n - 1);
      PushEvent(events, n - 1);
      assert events[..n] == events[..n - 1] + [events[n - 1]];
    }
  }

  lemma {:induction false} PrefixKept(events: seq<Event>, k: nat, n: nat)
    requires FirstMessage(events, k) && k < n <= |events|
    ensures |Rest(events[..n])| >= k && Rest(events[..n])[..k] == events[..k] && Texts(events[..n]) != []
    decreases n
  {
    PushEvent(events, n - 1);
    if n == k + 1 {
      BeforeMessages(events, k);
    } else {
      PrefixKept(events, k, n - 1);
    }
  }

  /** Every event is accounted for in its place: a message's text stands after the texts of the
      messages before it, any other event after the other events before it, and there is
      nothing else. */
  lemma {:induction false} EachInItsPlace(events: seq<Event>, i: nat)
    requires i < |events|
    ensures |Texts(events)| + |Rest(events)| == |events|
    ensures var t, r := |Texts(events[..i])|, |Rest(events[..i])|;
            if events[i].Message? then t < |Texts(events)| && Texts(events)[t] == events[i].text
            else r < |Rest(events)| && Rest(events)[r] == events[i]
    decreases |events|
  {
    var n := |events| - 1;
    if i < n {
      EachInItsPlace(events[..n], i);
      assert events[..n][..i] == events[..i];
    } else if n > 0 {
      EachInItsPlace(events[..n], 0);
    }
  }

  /** The messages make one batch in the place of the first of them. */
  predicate Batched(events: seq<Event>, k: nat, out: seq<Event>) {
    && FirstMessage(events, k) && k <= |Rest(events)|
    && out == events[..k] + [Messages(Texts(events))] + Rest(events)[k..]
  }

  /** All messages of one reply become one batch; the other events keep their order. */
  method BatchMessages(events: seq<Event>) returns (out: seq<Event>)
    ensures NoMessage(events, |events|) ==> out == events
    ensures !NoMessage(events, |events|) ==> exists k :: Batched(events, k, out)
  {
    hide Texts, Rest;
    var messages: seq<string>, kept: seq<Event>, batchAt := [], [], -1;
    BeforeMessages(events, 0);
    for i := 0 to |events|
      invariant messages == Texts(events[..i]) && kept == Rest(events[..i])
      invariant if batchAt < 0 then NoMessage(events, i) else FirstMessage(events, batchAt) && batchAt < i
    {
      PushEvent(events, i);
      if events[i].Message? {
        if batchAt < 0 {
          BeforeMessages(events, i);
          batchAt := |kept|;
        }
        messages := messages + [events[i].text];
      } else {
        kept := kept + [events[i]];
      }
    }
    assert events[..|events|] == events;
    if batchAt < 0 {
      BeforeMessages(events, |events|);
    } else {
      PrefixKept(events, batchAt, |events|);
    }
    if |messages| > 0 {
      out := kept[..batchAt] + [Messages(messages)] + kept[batchAt..];
      assert Batched(events, batchAt, out);
    } else {
      out := kept;
    }
  }

  // ---- orders that arrived before their client ----

  datatype Order = Order(client: int, transaction: nat)

  function Belonging(orders: seq<Order>, client: int, same: bool): seq<Order> {
    if orders == [] then []
    else
      var last := orders[|orders| - 1];
      Belonging(orders[..|orders| - 1], client, same) + if (last.client == client) == same then [last] else []
  }

  lemma {:induction false} BelongingLength(orders: seq<Order>, client: int)
    ensures |Belonging(orders, client, true)| + |Belonging(orders, client, false)| == |orders|
    ensures multiset(Belonging(orders, client, true)) + multiset(Belonging(orders, client, false)) == multiset(orders)
  {
    if orders != [] {
      var n := |orders| - 1;
      BelongingLength(orders[..n], client);
      assert orders == orders[..n] + [orders[n]];
    }
  }

  /** Each order is on its own side, behind those of its side that came before it. */
  lemma {:induction false} BelongingExactly(orders: seq<Order>, client: int, same: bool, i: nat)
    requires i < |orders|
    ensures forall o <- Belonging(orders, client, same) :: o in orders && (o.client == client <==> same)
    ensures (orders[i].client == client <==> same) ==>
              var r := |Belonging(orders[..i], client, same)|;
              r < |Belonging(orders, client, same)| && Belonging(orders, client, same)[r] == orders[i]
    decreases |orders|
  {
    var n := |orders| - 1;
    assert orders == orders[..n] + [orders[n]];
    if i < n {
      BelongingExactly(orders[..n], client, same, i);
      assert orders[..n][..i] == orders[..i];
    } else if n > 0 {
      BelongingExactly(orders[..n], client, same, 0);
    }
  }

  /** The orders by transaction after storing a list of them, the last of equals winning. */
  function Stored(orders: map<nat, Order>, os: seq<Order>): map<nat, Order> {
    if os == [] then orders else Stored(orders, os[..|os| - 1])[os[|os| - 1].transaction := os[|os| - 1]]
  }

  /** The transactions in the order of their first arrival. */
  function Listed(order: seq<nat>, os: seq<Order>): seq<nat> {
    if os == [] then order
    else
      var front, id := Listed(order, os[..|os| - 1]), os[|os| - 1].transaction;
      if id in front then front else front + [id]
  }

  lemma StoredNone(orders: map<nat, Order>, order: seq<nat>)
    ensures Stored(orders, []) == orders && Listed(order, []) == order
  {
  }

  lemma StoredOne(orders: map<nat, Order>, order: seq<nat>, os: seq<Order>, o: Order)
    ensures Stored(orders, os + [o]) == Stored(orders, os)[o.transaction := o]
    ensures Listed(order, os + [o]) == var front := Listed(order, os);
                                       if o.transaction in front then front else front + [o.transaction]
  {
    assert (os + [o])[..|os|] == os;
  }

  /** An order is stored as the last one given with its transaction ... */
  lemma {:induction false} StoredLast(orders: map<nat, Order>, os: seq<Order>, i: nat)
    requires i < |os| && forall j :: i < j < |os| ==> os[j].transaction != os[i].transaction
    ensures os[i].transaction in Stored(orders, os) && Stored(orders, os)[os[i].transaction] == os[i]
    decreases |os|
  {
    var n := |os| - 1;
    if i < n {
      assert os[n].transaction != os[i].transaction;
      StoredLast(orders, os[..n], i);
    }
  }

  /** ... and the orders of other transactions stay as they were. */
  lemma {:induction false} StoredOthers(orders: map<nat, Order>, os: seq<Order>, t: nat)
    requires forall o <- os :: o.transaction != t
    ensures (t in Stored(orders, os) <==> t in orders) && (t in orders ==> Stored(orders, os)[t] == orders[t])
    decreases |os|
  {
    if os != [] {
      var n := |os| - 1;
      assert os[n] in os && forall o <- os[..n] :: o in os;
      StoredOthers(orders, os[..n], t);
    }
  }

  /** The list only grows, by each new transaction once and in the order of arrival. */
  lemma {:induction false} ListedExactly(order: seq<nat>, os: seq<Order>)
    requires forall i, j :: 0 <= i < j < |order| ==> order[i] != order[j]
    ensures var l := Listed(order, os);
            && order <= l && (forall t :: t in l <==> t in order || exists o <- os :: o.transaction == t)
            && (forall i, j :: 0 <= i < j < |l| ==> l[i] != l[j])
    ensures forall i :: 0 <= i < |os| ==> Listed(order, os[..i]) <= Listed(order, os)
  {
    if os != [] {
      var n := |os| - 1;
      ListedExactly(order, os[..n]);
      assert os == os[..n] + [os[n]];
      forall i | 0 <= i < |os| ensures Listed(order, os[..i]) <= Listed(order, os) {
        assert i < n ==> os[..n][..i] == os[..i];
      }
    }
  }

  /** The store keeps every order once, in the order of first arrival. */
  class OrderStore {
    var orders: map<nat, Order>
    var order: seq<nat>

    ghost predicate Valid()
      reads this
    {
      && (forall i, j :: 0 <= i < j < |order| ==> order[i] != order[j])
      && (forall id :: id in order <==> id in orders)
    }

    constructor ()
      ensures Valid() && orders == map[] && order == []
    {
      orders, order := map[], [];
    }

    method Put(o: Order)
      requires Valid()
      modifies this
      ensures Valid() && orders == old(orders)[o.transaction := o]
      ensures order == if o.transaction in old(orders) then old(order) else old(order) + [o.transaction]
    {
      if o.transaction !in orders {
        order := order + [o.transaction];
      }
      orders := orders[o.transaction := o];
    }

    /** The waiting orders of a client are stored and reported in their order of arrival; the
        others are compacted in place at the front of the buffer. */
    method FlushPending(pending: array<Order>, n: nat, client: int) returns (kept: nat, events: seq<Order>)
      requires Valid() && n <= pending.Length
      modifies this, pending
      ensures Valid() && kept <= n
      ensures events == Belonging(old(pending[..n]), client, true)
      ensures pending[..kept] == Belonging(old(pending[..n]), client, false)
      ensures orders == Stored(old(orders), events) && order == Listed(old(order), events)
    {
      hide Stored, Listed;
      ghost var was := pending[..n];
      kept, events := 0, [];
      StoredNone(orders, order);
      for i := 0 to n
        invariant Valid() && kept <= i && kept + |events| == i
        invariant events == Belonging(was[..i], client, true) && pending[..kept] == Belonging(was[..i], client, false)
        invariant forall j :: i <= j < n ==> pending[j] == was[j]
        invariant orders == Stored(old(orders), events) && order == Listed(old(order), events)
      {
        var parsed := pending[i];
        assert was[..i + 1][..i] == was[..i] && was[..i + 1][i] == parsed;
        if parsed.client != client {
          pending[kept] := parsed;
          kept := kept + 1;
        } else {
          StoredOne(old(orders), old(order), events, parsed);
          Put(parsed);
          events := events + [parsed];
        }
      }
      assert was[..n] == was;
    }
  }
}
