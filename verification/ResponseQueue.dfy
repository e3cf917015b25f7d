/** The response queue between the receive loop and the decoder: any number of producers and
    closers, one consumer, interleaved at the granularity of the mutex and the channel. */
module ResponseQueue {

  type M = string

  /** Where the consumer stands in pop: outside it, before the check of done, before the
      locked look at the queue, or blocked on the token and done. */
  datatype Consumer = Outside | Checking | Looking | Blocked

  datatype Result = Got(message: M) | Drained | Stopped

  /** `signallers` is the number of pushes and closes that have left the mutex and not yet
      signalled; `accepted` and `results` record what push accepted and what pop returned. */
  datatype State = State(messages: seq<M>, closed: bool, token: bool, done: bool, signallers: nat,
                         consumer: Consumer, accepted: seq<M>, results: seq<Result>)

  /** A blocked consumer that finds both the token and done takes either (Consume or Stop). */
  datatype Action = Push(message: M) | Close | Signal | Done | Pop | Consume | Stop

  function Initial(): State {
    State([], false, false, false, 0, Outside, [], [])
  }

  function Return(st: State, r: Result): State {
    st.(consumer := Outside, results := st.results + [r])
  }

  function Advance(st: State): State {
    match st.consumer
    case Outside => st
    case Checking => if st.done then Return(st, Stopped) else st.(consumer := Looking)
    case Looking =>
      if st.messages != [] then Return(st.(messages := st.messages[1..]), Got(st.messages[0]))
      else if st.closed then Return(st, Drained)
      else st.(consumer := Blocked)
    case Blocked => st.(token := false, consumer := Checking)
  }

  predicate Enabled(st: State, a: Action) {
    match a
    case Signal => st.signallers > 0
    case Pop => st.consumer.Outside?
    case Consume => st.consumer != Outside && (st.consumer.Blocked? ==> st.token)
    case Stop => st.consumer.Blocked? && st.done
    case _ => true
  }

  function Step(st: State, a: Action): State
    requires Enabled(st, a)
  {
    match a
    case Push(m) =>
      if st.closed then st
      else st.(messages := st.messages + [m], accepted := st.accepted + [m], signallers := st.signallers + 1)
    case Close => st.(closed := true, signallers := st.signallers + 1)
    case Signal => st.(token := true, signallers := st.signallers - 1)
    case Done => st.(done := true)
    case Pop => st.(consumer := Checking)
    case Consume => Advance(st)
    case Stop => Return(st, Stopped)
  }

  function Messages(results: seq<Result>): seq<M> {
    if results == [] then []
    else
      var last := results[|results| - 1];
      Messages(results[..|results| - 1]) + if last.Got? then [last.message] else []
  }

  lemma ReturnMessages(st: State, r: Result)
    ensures Messages(Return(st, r).results) == Messages(st.results) + if r.Got? then [r.message] else []
    ensures Drained in Return(st, r).results <==> Drained in st.results || r == Drained
    ensures Stopped in Return(st, r).results <==> Stopped in st.results || r == Stopped
  {
    assert (st.results + [r])[..|st.results|] == st.results;
  }

  /** Nothing is lost or reordered, no wakeup is lost, and pop gives up only for a reason. */
  predicate Inv(st: State) {
    && Messages(st.results) + st.messages == st.accepted
    && (st.consumer.Blocked? ==> (st.messages == [] && !st.closed) || st.token || st.signallers > 0)
    && (Drained in st.results ==> st.closed && st.messages == [])
    && (Stopped in st.results ==> st.done)
  }

  lemma StepKeepsInv(st: State, a: Action)
    requires Inv(st) && Enabled(st, a)
    ensures Inv(Step(st, a))
  {
    hide Messages, Advance;
    ReturnMessages(st, Stopped);
    match a
    case Push(m) => assert Messages(st.results) + (st.messages + [m]) == Messages(st.results) + st.messages + [m];
    case Consume => AdvanceKeepsInv(st);
    case _ =>
  }

  lemma AdvanceKeepsInv(st: State)
    requires Inv(st)
    ensures Inv(Advance(st))
  {
    hide Messages;
    if st.consumer.Checking? {
      ReturnMessages(st, Stopped);
    } else if st.consumer.Looking? {
      ReturnMessages(st, Drained);
      if st.messages != [] {
        ReturnMessages(st.(messages := st.messages[1..]), Got(st.messages[0]));
        FirstMoves(Messages(st.results), st.messages);
      }
    }
  }

  lemma FirstMoves(popped: seq<M>, queued: seq<M>)
    requires queued != []
    ensures popped + [queued[0]] + queued[1..] == popped + queued
  {
  }

  predicate Runs(states: seq<State>, actions: seq<Action>) {
    && |states| == |actions| + 1 && states[0] == Initial()
    && forall i :: 0 <= i < |actions| ==> Follows(states[i], actions[i], states[i + 1])
  }

  predicate Follows(st: State, a: Action, next: State) {
    Enabled(st, a) && next == Step(st, a)
  }

  /** In every interleaving the messages popped so far followed by the queued ones are the
      accepted ones; a blocked consumer faces an empty open queue, a pending token or a producer
      about to signal; pop reports the end only once everything accepted has been popped from a
      closed queue, or because done has fired. */
  lemma {:induction false} NothingLost(states: seq<State>, actions: seq<Action>)
    requires Runs(states, actions)
    ensures var st := states[|actions|];
            && Inv(st)
            && Messages(st.results) + st.messages == st.accepted
            && (st.consumer.Blocked? ==> (st.messages == [] && !st.closed) || st.token || st.signallers > 0)
            && (Drained in st.results ==> st.closed && Messages(st.results) == st.accepted)
            && (Stopped in st.results ==> st.done)
    decreases |actions|
  {
    hide Messages, Step;
    if actions == [] {
      EmptyMessages();
    } else {
      var n := |actions| - 1;
      NothingLost(states[..|actions|], actions[..n]);
      assert Follows(states[n], actions[n], states[n + 1]);
      StepKeepsInv(states[n], actions[n]);
      assert Messages(states[n + 1].results) + [] == Messages(states[n + 1].results);
    }
  }

  lemma EmptyMessages()
    ensures Messages([]) == []
  {
  }

  /** Once closed, the queue accepts nothing more. */
  lemma {:induction false} ClosedAcceptsNothing(states: seq<State>, actions: seq<Action>, i: nat)
    requires Runs(states, actions) && i <= |actions| && states[i].closed
    ensures states[|actions|].closed && states[|actions|].accepted == states[i].accepted
    decreases |actions|
  {
    if i < |actions| {
      var n := |actions| - 1;
      ClosedAcceptsNothing(states[..|actions|], actions[..n], i);
      assert Follows(states[n], actions[n], states[n + 1]);
    }
  }

  /** The messages pushed before the first close, in their order. */
  function OpenPushes(actions: seq<Action>): seq<M> {
    if actions == [] then []
    else
      var n := |actions| - 1;
      OpenPushes(actions[..n]) + if actions[n].Push? && Close !in actions[..n] then [actions[n].message] else []
  }

  /** Push accepts every message until the first close, and none after it. */
  lemma {:induction false} AcceptedExactly(states: seq<State>, actions: seq<Action>)
    requires Runs(states, actions)
    ensures states[|actions|].accepted == OpenPushes(actions)
    ensures states[|actions|].closed <==> Close in actions
    ensures states[|actions|].done <==> Done in actions
    decreases |actions|
  {
    if actions != [] {
      var n := |actions| - 1;
      AcceptedExactly(states[..|actions|], actions[..n]);
      assert Follows(states[n], actions[n], states[n + 1]);
      hide *;
      StepAccepts(states[n], actions[n]);
      LastIn(actions, Close);
      LastIn(actions, Done);
      OneMore(actions);
    }
  }

  lemma StepAccepts(st: State, a: Action)
    requires Enabled(st, a)
    ensures var next := Step(st, a);
            && next.accepted == st.accepted + (if a.Push? && !st.closed then [a.message] else [])
            && next.closed == (st.closed || a == Close) && next.done == (st.done || a == Done)
  {
  }

  lemma LastIn(actions: seq<Action>, a: Action)
    requires actions != []
    ensures var n := |actions| - 1; a in actions <==> a in actions[..n] || actions[n] == a
  {
    assert actions == actions[..|actions| - 1] + [actions[|actions| - 1]];
  }

  lemma OneMore(actions: seq<Action>)
    requires actions != []
    ensures var n := |actions| - 1;
            OpenPushes(actions) ==
            OpenPushes(actions[..n]) + if actions[n].Push? && Close !in actions[..n] then [actions[n].message] else []
  {
  }

  /** The consumer's own steps, with one signal if the token is still to come. */
  function WakeUp(st: State): seq<Action> {
    match st.consumer
    case Outside => [Pop, Consume, Consume]
    case Checking => [Consume, Consume]
    case Looking => [Consume]
    case Blocked => if st.token then [Consume, Consume, Consume] else [Signal, Consume, Consume, Consume]
  }

  predicate Reaches(st: State, actions: seq<Action>, end: State)
    decreases |actions|
  {
    if actions == [] then st == end else Enabled(st, actions[0]) && Reaches(Step(st, actions[0]), actions[1..], end)
  }

  /** Whenever a message is queued or the queue is closed, the steps already due, without any
      new push or close, let pop return the oldest message, or the end of the queue. */
  lemma WakesUp(st: State)
    requires Inv(st) && !st.done && (st.messages != [] || st.closed)
    ensures exists end: State ::
              && Reaches(st, WakeUp(st), end) && end.consumer.Outside?
              && end.accepted == st.accepted
              && end.results == st.results + [if st.messages != [] then Got(st.messages[0]) else Drained]
              && end.messages == if st.messages != [] then st.messages[1..] else []
  {
    hide Messages, Inv, Reaches;
    BlockedWillWake(st);
    assert forall a: Action :: [a] + [Consume, Consume] == [a, Consume, Consume];
    assert forall a: Action :: [a] + [Consume, Consume, Consume] == [a, Consume, Consume, Consume];
    match st.consumer
    case Looking => One(st, Consume, Step(st, Consume));
    case Checking => Wake2(st);
    case Outside =>
      Wake2(st.(consumer := Checking));
      Then(st, Pop, [Consume, Consume], Returned(st.(consumer := Checking)));
    case Blocked =>
      var t := if st.token then st else Step(st, Signal);
      var c := Step(t, Consume);
      Wake2(c);
      Then(t, Consume, [Consume, Consume], Returned(c));
      if !st.token {
        Then(st, Signal, [Consume, Consume, Consume], Returned(c));
      }
  }

  /** Once done has fired the call ends at once: a consumer that has not yet looked at the queue,
      or is blocked, returns without a message even if one is queued; one about to look still
      returns what it finds. */
  lemma DoneStops(st: State)
    requires st.done
    ensures var due := match st.consumer
                       case Outside => [Pop, Consume]
                       case Checking => [Consume]
                       case Blocked => [Stop]
                       case Looking => if st.messages == [] && !st.closed then [Consume, Stop] else [Consume];
            exists end: State ::
              && Reaches(st, due, end) && end.consumer.Outside? && end.done && end.accepted == st.accepted
              && end.results == st.results + [if !st.consumer.Looking? then Stopped
                                              else if st.messages != [] then Got(st.messages[0])
                                              else if st.closed then Drained
                                              else Stopped]
              && end.messages == if st.consumer.Looking? && st.messages != [] then st.messages[1..] else st.messages
  {
    hide Messages, Inv, Reaches;
    var stopped := Return(st, Stopped);
    assert forall a: Action :: [a] + [Consume] == [a, Consume] && [a] + [Stop] == [a, Stop];
    match st.consumer
    case Outside =>
      var checking := st.(consumer := Checking);
      One(checking, Consume, stopped);
      Then(st, Pop, [Consume], stopped);
    case Checking => One(st, Consume, stopped);
    case Blocked => One(st, Stop, stopped);
    case Looking =>
      if st.messages == [] && !st.closed {
        One(Step(st, Consume), Stop, stopped);
        Then(st, Consume, [Stop], stopped);
      } else {
        One(st, Consume, Step(st, Consume));
      }
  }

  function Returned(st: State): State {
    Return(if st.messages != [] then st.(messages := st.messages[1..]) else st,
           if st.messages != [] then Got(st.messages[0]) else Drained)
  }

  lemma BlockedWillWake(st: State)
    requires Inv(st) && (st.messages != [] || st.closed)
    ensures st.consumer.Blocked? && !st.token ==> st.signallers > 0
  {
    hide Messages;
  }

  lemma One(st: State, a: Action, end: State)
    requires Enabled(st, a) && Step(st, a) == end
    ensures Reaches(st, [a], end)
  {
    hide Step, Enabled;
    assert [a][1..] == [];
  }

  lemma Then(st: State, a: Action, rest: seq<Action>, end: State)
    requires Enabled(st, a) && Reaches(Step(st, a), rest, end)
    ensures Reaches(st, [a] + rest, end)
  {
    hide Step, Enabled;
    assert ([a] + rest)[1..] == rest;
  }

  lemma Wake2(st: State)
    requires st.consumer.Checking? && !st.done && (st.messages != [] || st.closed)
    ensures Reaches(st, [Consume, Consume], Returned(st))
  {
    var looking := Step(st, Consume);
    assert Step(looking, Consume) == Returned(st);
    One(looking, Consume, Returned(st));
    Then(st, Consume, [Consume], Returned(st));
    assert [Consume] + [Consume] == [Consume, Consume];
  }
}
