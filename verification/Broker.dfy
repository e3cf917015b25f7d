/** The message broker: it publishes every connector message to its subscribers without ever
    blocking, and detaches a subscriber whose buffer is full. */
module Broker {

  /** A subscription with its message channel and its done channel. The ghost fields record
      what the client has received and which part of the published log is meant for it. */
  class Subscription {
    const id: nat
    const capacity: nat
    var messages: seq<string>
    var doneCloses: nat
    var slow: bool
    ghost var received: seq<string>
    ghost const start: nat
    ghost var stop: nat

    constructor (id: nat, capacity: nat, ghost log: seq<string>)
      ensures this.id == id && this.capacity == capacity && start == |log|
      ensures messages == received == [] && doneCloses == 0 && !slow && Follows(true, log)
    {
      this.id, this.capacity, start := id, capacity, |log|;
      messages, doneCloses, slow, received, stop := [], 0, false, [], |log|;
    }

    /** What a subscriber has received and what waits for it is one contiguous piece of the
        published log, from its subscription to its detachment or to the end; done is closed
        exactly once, at the detachment. */
    ghost predicate Follows(attached: bool, log: seq<string>)
      reads this
    {
      && (attached ==> stop == |log|)
      && start <= stop <= |log|
      && received + messages == log[start..stop]
      && |messages| <= capacity
      && doneCloses == (if attached then 0 else 1)
      && (slow ==> !attached)
    }

    /** The non-blocking send of publish: the message is queued, or the subscriber is marked
        slow and done. */
    method Offer(m: string, ghost log: seq<string>) returns (ok: bool)
      requires Follows(true, log)
      modifies this`messages, this`doneCloses, this`slow, this`stop
      ensures Served(m, old(messages), ok, log)
    {
      ok := |messages| < capacity;
      if ok {
        messages, stop := messages + [m], stop + 1;
        assert received + old(messages) + [m] == received + messages;
        assert (log + [m])[start..stop] == log[start..] + [m];
      } else {
        slow, doneCloses := true, doneCloses + 1;
        assert (log + [m])[start..stop] == log[start..stop];
      }
    }

    /** How publishing m to a subscriber whose channel held `was` leaves it. */
    ghost predicate Served(m: string, was: seq<string>, attached: bool, log: seq<string>)
      reads this
    {
      && attached == (|was| < capacity)
      && messages == (if attached then was + [m] else was)
      && slow == !attached
      && Follows(attached, log + [m])
    }

    /** close(done) when the subscriber leaves the map. */
    method CloseDone(ghost log: seq<string>)
      requires Follows(true, log)
      modifies this`doneCloses
      ensures Follows(false, log) && doneCloses == 1
    {
      doneCloses := doneCloses + 1;
    }

    lemma DetachedFollows(log: seq<string>, m: string)
      requires Follows(false, log)
      ensures Follows(false, log + [m])
    {
      assert (log + [m])[start..stop] == log[start..stop];
    }

    lemma DoneOnce(log: seq<string>)
      requires Follows(false, log)
      ensures doneCloses == 1
    {
    }

    /** The client takes a message from the channel, which outlives the subscription. */
    method Receive() returns (m: string)
      requires messages != []
      modifies this`messages, this`received
      ensures m == old(messages[0]) && messages == old(messages[1..])
      ensures received == old(received) + [m] && received + messages == old(received + messages)
    {
      m := messages[0];
      messages := messages[1..];
      received := received + [m];
      assert old(received) + [m] + old(messages[1..]) == old(received) + old(messages);
    }
  }

  class Broker {
    var nextID: nat
    var closed: bool
    var subscribers: map<nat, Subscription>
    ghost var published: seq<string>
    ghost var all: set<Subscription>

    ghost predicate Registered()
      reads this, all
    {
      && (forall id :: id in subscribers ==> subscribers[id] in all && subscribers[id].id == id)
      && (forall s :: s in all ==> s.id <= nextID)
      && (forall s, t :: s in all && t in all && s.id == t.id ==> s == t)
      && (closed ==> subscribers == map[])
    }

    ghost predicate Valid()
      reads this, all
    {
      && Registered()
      && forall s :: s in all ==> s.Follows(s.id in subscribers, published)
    }

    constructor ()
      ensures Valid() && !closed && subscribers == map[] && all == {} && published == []
    {
      nextID, closed, subscribers, published, all := 0, false, map[], [], {};
    }

    /** A new subscriber sees what is published from now on; on a closed broker it is done at
        once. */
    method Subscribe(buffer: int) returns (s: Subscription)
      requires Valid()
      modifies this
      ensures Valid() && fresh(s) && all == old(all) + {s} && published == old(published) && closed == old(closed)
      ensures s.id == nextID == old(nextID) + 1
      ensures s.capacity == (if buffer < 1 then 1 else buffer) && s.start == |published| && !s.slow
      ensures subscribers == if closed then old(subscribers) else old(subscribers)[s.id := s]
      ensures s.doneCloses == if closed then 1 else 0
    {
      hide Subscription.Follows;
      var size := if buffer < 1 then 1 else buffer;
      nextID := nextID + 1;
      s := new Subscription(nextID, size, published);
      all := all + {s};
      if closed {
        s.CloseDone(published);
        return;
      }
      subscribers := subscribers[s.id := s];
    }

    /** Every attached subscriber is offered the message and leaves the map if it is slow. */
    method Publish(m: string)
      requires Valid()
      modifies this`subscribers, this`published, all`messages, all`doneCloses, all`slow, all`stop
      ensures Valid()
      ensures closed ==> published == old(published) && subscribers == old(subscribers)
      ensures !closed ==> published == old(published) + [m]
      ensures !closed ==> forall s :: s in all && s.id in old(subscribers) ==>
                s.Served(m, old(s.messages), s.id in subscribers, old(published))
      ensures subscribers.Keys <= old(subscribers).Keys
      ensures forall s :: s in all && (closed || s.id !in old(subscribers)) ==> unchanged(s)
    {
      hide Subscription.Follows;
      if closed {
        return;
      }
      ghost var log := published;
      published := published + [m];
      OfferAll(m, log);
      forall s | s in all && s.id !in old(subscribers) ensures s.Follows(false, published) {
        s.DetachedFollows(log, m);
      }
    }

    /** The loop of publish over the subscriber map. */
    method OfferAll(m: string, ghost log: seq<string>)
      requires forall id <- subscribers :: subscribers[id].id == id && subscribers[id].Follows(true, log)
      modifies this`subscribers, subscribers.Values`messages, subscribers.Values`doneCloses
      modifies subscribers.Values`slow, subscribers.Values`stop
      ensures forall id <- subscribers :: id in old(subscribers) && subscribers[id] == old(subscribers)[id]
      ensures forall id <- old(subscribers) ::
                old(subscribers)[id].Served(m, old(subscribers[id].messages), id in subscribers, log)
    {
      hide Subscription.Follows, Subscription.Served;
      ghost var subs, gone := subscribers, {};
      var todo := subscribers.Keys;
      while todo != {}
        invariant todo <= subs.Keys && gone !! todo && subscribers == subs - gone
        invariant forall id <- todo :: subs[id].messages == old(subs[id].messages) && subs[id].Follows(true, log)
        invariant forall id <- subs :: id !in todo ==> subs[id].Served(m, old(subs[id].messages), id !in gone, log)
        decreases todo
      {
        var id :| id in todo;
        todo := todo - {id};
        var ok := subscribers[id].Offer(m, log);
        if !ok {
          subscribers := subscribers - {id};
          gone := gone + {id};
        }
      }
    }

    method Close()
      requires Valid()
      modifies this`closed, this`subscribers, all`doneCloses
      ensures Valid() && closed && subscribers == map[]
      ensures forall s :: s in all ==> s.doneCloses == 1
    {
      hide Subscription.Follows;
      if !closed {
        closed := true;
        while subscribers != map[]
          invariant closed && subscribers.Keys <= old(subscribers).Keys
          invariant forall id :: id in subscribers ==> subscribers[id] == old(subscribers)[id]
          invariant forall s :: s in all ==> s.Follows(s.id in subscribers, published)
          decreases subscribers.Keys
        {
          var id :| id in subscribers;
          subscribers[id].CloseDone(published);
          subscribers := subscribers - {id};
        }
      }
      forall s | s in all ensures s.doneCloses == 1 {
        s.DoneOnce(published);
      }
    }

    /** Subscription.close: only an attached subscriber is detached. */
    method Unsubscribe(s: Subscription)
      requires Valid() && s in all
      modifies this`subscribers, s`doneCloses
      ensures Valid() && subscribers == old(subscribers) - {s.id} && s.doneCloses == 1
    {
      hide Subscription.Follows;
      if s.id !in subscribers {
        s.DoneOnce(published);
        return;
      }
      s.CloseDone(published);
      subscribers := subscribers - {s.id};
    }

    /** A client's receive does not disturb the broker. */
    method Take(s: Subscription) returns (m: string)
      requires Valid() && s in all && s.messages != []
      modifies s`messages, s`received
      ensures Valid() && m == old(s.messages[0])
    {
      m := s.Receive();
    }
  }

  /** Two subscribers never disagree about a message they have both been given. */
  lemma SubscribersAgree(b: Broker, s: Subscription, t: Subscription, i: nat)
    requires b.Valid() && s in b.all && t in b.all
    requires s.start <= i < s.start + |s.received| && t.start <= i < t.start + |t.received|
    ensures s.received[i - s.start] == t.received[i - t.start] == b.published[i]
  {
    assert (s.received + s.messages)[i - s.start] == b.published[s.start..s.stop][i - s.start];
    assert (t.received + t.messages)[i - t.start] == b.published[t.start..t.stop][i - t.start];
  }
}
