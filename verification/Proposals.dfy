/** Human approval of the agent's mutating tools: approvals, rejections, expiry and eviction
    from the bounded ring, interleaved at the granularity of the proposal mutex. */
module Proposals {
  import opened Bytes

  const PROPOSAL_TTL := 300
  const MAX_PROPOSALS := 100

  datatype Status = Pending | Approved | Rejected | Expired | Executed

  /** `taken` is when an Approve took the proposal, `runs` how often its tool was executed and
      `refused` whether a Reject of it succeeded. */
  datatype Proposal = Proposal(status: Status, expiresAt: int, taken: Option<int>, runs: nat, refused: bool)

  /** An Approve after its first locked section: the tool is still to run, or the outcome is
      still to be recorded. */
  datatype Thread = Approving(id: nat) | Recording(id: nat) | Finished

  /** Proposal k of the engine is proposals[k]; `keys` and `results` are the domains of the
      ring's maps. An evicted proposal lives on as long as an Approve holds it. */
  datatype State = State(proposals: seq<Proposal>, order: seq<nat>, keys: set<nat>, results: set<nat>,
                         threads: seq<Thread>, now: int, autoApprovals: nat)

  const INITIAL := State([], [], {}, {}, [], 0, 0)

  datatype Action =
    | Clock(time: int) | Propose | Approve(id: nat) | Reject(id: nat) | List
    | Execute(t: nat) | Record(t: nat) | EnvelopeSlot

  datatype Reply = NotFound | TooLate | Handled | Ok

  /** expireLocked: a pending proposal past its window expires lazily. */
  function Expire(p: Proposal, now: int): Proposal {
    if p.status.Pending? && now >= p.expiresAt then p.(status := Expired) else p
  }

  function Set(st: State, id: nat, p: Proposal): State
    requires id < |st.proposals|
  {
    st.(proposals := st.proposals[id := p])
  }

  /** The common beginning of Approve and Reject. */
  function Claim(st: State, id: nat): (State, Reply) {
    if id !in st.keys || id >= |st.proposals| then (st, NotFound)
    else
      var p := Expire(st.proposals[id], st.now);
      (Set(st, id, p), if p.status.Expired? then TooLate else if !p.status.Pending? then Handled else Ok)
  }

  function Taken(st: State, id: nat): (State, Reply) {
    var (claimed, r) := Claim(st, id);
    if r != Ok || id >= |claimed.proposals| then (claimed, r)
    else
      (Set(claimed, id, claimed.proposals[id].(status := Approved, taken := Some(st.now)))
       .(threads := st.threads + [Approving(id)]), Ok)
  }

  function Refused(st: State, id: nat): (State, Reply) {
    var (claimed, r) := Claim(st, id);
    if r != Ok || id >= |claimed.proposals| then (claimed, r)
    else (Set(claimed, id, claimed.proposals[id].(status := Rejected, refused := true)), Ok)
  }

  /** The oldest proposals leave the ring, with their results. */
  function Evict(st: State): State
    decreases |st.order|
  {
    if |st.order| <= MAX_PROPOSALS then st
    else
      Evict(st.(order := st.order[1..], keys := st.keys - {st.order[0]}, results := st.results - {st.order[0]}))
  }

  function Proposed(st: State): State {
    var id := |st.proposals|;
    Evict(st.(proposals := st.proposals + [Proposal(Pending, st.now + PROPOSAL_TTL, None, 0, false)],
              order := st.order + [id], keys := st.keys + {id}))
  }

  function Listed(st: State): State {
    st.(proposals := seq(|st.proposals|, i requires 0 <= i < |st.proposals| =>
          if i in st.keys then Expire(st.proposals[i], st.now) else st.proposals[i]))
  }

  function Step(limit: int, st: State, a: Action): Option<State> {
    match a
    case Clock(time) => Some(st.(now := time))
    case Propose => Some(Proposed(st))
    case Approve(id) => Some(Taken(st, id).0)
    case Reject(id) => Some(Refused(st, id).0)
    case List => Some(Listed(st))
    case EnvelopeSlot =>
      if limit <= 0 || st.autoApprovals >= limit then Some(st) else Some(st.(autoApprovals := st.autoApprovals + 1))
    case Execute(t) =>
      if t >= |st.threads| || !st.threads[t].Approving? || st.threads[t].id >= |st.proposals| then None
      else
        var id := st.threads[t].id;
        Some(Set(st, id, st.proposals[id].(runs := st.proposals[id].runs + 1)).(threads := st.threads[t := Recording(id)]))
    case Record(t) =>
      if t >= |st.threads| || !st.threads[t].Recording? || st.threads[t].id >= |st.proposals| then None
      else
        var id := st.threads[t].id;
        Some(Set(st, id, st.proposals[id].(status := Executed))
             .(threads := st.threads[t := Finished], results := st.results + {id}))
  }

  // ---- the invariant ----

  /** The ring holds the newest proposals, at most a hundred, in the order they were made. */
  ghost predicate Ring(st: State) {
    && |st.order| == (if |st.proposals| <= MAX_PROPOSALS then |st.proposals| else MAX_PROPOSALS)
    && (forall i :: 0 <= i < |st.order| ==> st.order[i] == |st.proposals| - |st.order| + i)
    && (forall id :: id in st.keys <==> |st.proposals| - |st.order| <= id < |st.proposals|)
  }

  predicate Life(p: Proposal) {
    match p.status
    case Approved => p.taken.Some? && p.taken.value < p.expiresAt && p.runs <= 1 && !p.refused
    case Executed => p.taken.Some? && p.taken.value < p.expiresAt && p.runs == 1 && !p.refused
    case Rejected => p.taken == None && p.runs == 0 && p.refused
    case _ => p.taken == None && p.runs == 0 && !p.refused
  }

  /** A thread at work has an approved proposal to itself. */
  predicate Busy(st: State, t: nat)
    requires t < |st.threads|
  {
    var thread := st.threads[t];
    !thread.Finished? ==>
      && thread.id < |st.proposals| && st.proposals[thread.id].status.Approved?
      && st.proposals[thread.id].runs == (if thread.Approving? then 0 else 1)
      && forall u :: 0 <= u < t && !st.threads[u].Finished? ==> st.threads[u].id != thread.id
  }

  predicate Lives(st: State) {
    && (forall k :: 0 <= k < |st.proposals| ==> Life(st.proposals[k]))
    && (forall t :: 0 <= t < |st.threads| ==> Busy(st, t))
    && (forall k :: k in st.results ==> k < |st.proposals| && st.proposals[k].status.Executed?)
  }

  ghost predicate Inv(limit: int, st: State) {
    Ring(st) && Lives(st) && (limit > 0 ==> st.autoApprovals <= limit)
  }

  lemma ProposedKeepsRing(st: State)
    requires Ring(st)
    ensures Ring(Proposed(st))
    ensures |Proposed(st).proposals| == |st.proposals| + 1 && Proposed(st).proposals[..|st.proposals|] == st.proposals
    ensures Proposed(st).threads == st.threads && Proposed(st).results <= st.results
    ensures Proposed(st).autoApprovals == st.autoApprovals && Proposed(st).now == st.now
    ensures Proposed(st).proposals[|st.proposals|] == Proposal(Pending, st.now + 300, None, 0, false)
    ensures Proposed(st).results == st.results - (st.keys + {|st.proposals|} - Proposed(st).keys)
  {
    var id := |st.proposals|;
    var grown := st.(proposals := st.proposals + [Proposal(Pending, st.now + PROPOSAL_TTL, None, 0, false)],
                     order := st.order + [id], keys := st.keys + {id});
    if |grown.order| > MAX_PROPOSALS {
      var cut := grown.(order := grown.order[1..], keys := grown.keys - {grown.order[0]}, results := grown.results - {grown.order[0]});
      assert Evict(grown) == Evict(cut) == cut;
      assert grown.order[0] in grown.keys;
    }
  }

  lemma ProposedKeepsLives(st: State)
    requires Ring(st) && Lives(st)
    ensures Lives(Proposed(st))
  {
    hide Proposed, Ring;
    ProposedKeepsRing(st);
    var st' := Proposed(st);
    assert forall k :: 0 <= k < |st.proposals| ==> st'.proposals[k] == st.proposals[k];
    forall t | 0 <= t < |st'.threads| ensures Busy(st', t) {
      assert Busy(st, t);
    }
  }

  /** A proposal that no thread is at work on can change its status. */
  lemma SetKeepsLives(st: State, id: nat, p: Proposal)
    requires Lives(st) && id < |st.proposals| && Life(p)
    requires !st.proposals[id].status.Approved? && (id in st.results ==> p.status.Executed?)
    ensures Lives(Set(st, id, p))
  {
    hide Life;
    var st' := Set(st, id, p);
    forall t | 0 <= t < |st'.threads| ensures Busy(st', t) {
      assert Busy(st, t);
    }
  }

  lemma ClaimKeepsInv(limit: int, st: State, id: nat)
    requires Inv(limit, st)
    ensures Inv(limit, Claim(st, id).0)
  {
    if id in st.keys && id < |st.proposals| {
      var p := Expire(st.proposals[id], st.now);
      if p == st.proposals[id] {
        assert st.proposals[id := p] == st.proposals;
      } else {
        SetKeepsLives(st, id, p);
      }
    }
  }

  lemma TakenKeepsInv(limit: int, st: State, id: nat)
    requires Inv(limit, st)
    ensures Inv(limit, Taken(st, id).0)
  {
    hide Claim, Inv;
    ClaimKeepsInv(limit, st, id);
    ClaimOk(st, id);
    var (claimed, r) := Claim(st, id);
    if r == Ok && id < |claimed.proposals| {
      StartKeepsInv(limit, claimed, id);
    }
  }

  /** A claim succeeds only before the window has passed, and on a pending proposal. */
  lemma ClaimOk(st: State, id: nat)
    ensures var (claimed, r) := Claim(st, id);
            && claimed.threads == st.threads && claimed.now == st.now
            && (r == Ok ==> id < |claimed.proposals| && claimed.proposals[id].status.Pending?
                            && st.now < claimed.proposals[id].expiresAt)
  {
  }

  lemma StartKeepsInv(limit: int, st: State, id: nat)
    requires Inv(limit, st) && id < |st.proposals| && st.proposals[id].status.Pending? && st.now < st.proposals[id].expiresAt
    ensures Inv(limit, Set(st, id, st.proposals[id].(status := Approved, taken := Some(st.now)))
                       .(threads := st.threads + [Approving(id)]))
  {
    var p := st.proposals[id].(status := Approved, taken := Some(st.now));
    SetKeepsLives(st, id, p);
    var mid := Set(st, id, p);
    var st' := mid.(threads := st.threads + [Approving(id)]);
    forall t | 0 <= t < |st'.threads| ensures Busy(st', t) {
      assert t < |st.threads| ==> Busy(st, t);
      forall u | 0 <= u < |st.threads| && !st.threads[u].Finished? ensures st.threads[u].id != id {
        assert Busy(st, u);
      }
    }
  }

  lemma RefusedKeepsInv(limit: int, st: State, id: nat)
    requires Inv(limit, st)
    ensures Inv(limit, Refused(st, id).0)
  {
    hide Claim;
    ClaimKeepsInv(limit, st, id);
    ClaimOk(st, id);
    var (claimed, r) := Claim(st, id);
    if r == Ok {
      SetKeepsLives(claimed, id, claimed.proposals[id].(status := Rejected, refused := true));
    }
  }

  lemma ListedKeepsInv(limit: int, st: State)
    requires Inv(limit, st)
    ensures Inv(limit, Listed(st))
  {
    var st' := Listed(st);
    forall t | 0 <= t < |st'.threads| ensures Busy(st', t) {
      assert Busy(st, t);
    }
  }

  /** A thread's own step on its proposal leaves the other threads theirs. */
  lemma ThreadKeepsInv(limit: int, st: State, a: Action)
    requires Inv(limit, st) && (a.Execute? || a.Record?) && Step(limit, st, a).Some?
    ensures Inv(limit, Step(limit, st, a).value)
  {
    var st' := Step(limit, st, a).value;
    var id := st.threads[a.t].id;
    assert Busy(st, a.t);
    forall u | 0 <= u < |st'.threads| ensures Busy(st', u) {
      assert Busy(st, u);
    }
  }

  lemma StepKeepsInv(limit: int, st: State, a: Action)
    requires Inv(limit, st) && Step(limit, st, a).Some?
    ensures Inv(limit, Step(limit, st, a).value)
  {
    match a
    case Clock(_) => ClockKeepsInv(limit, st, Step(limit, st, a).value);
    case EnvelopeSlot => ClockKeepsInv(limit, st, Step(limit, st, a).value);
    case Propose =>
      ProposedKeepsRing(st);
      ProposedKeepsLives(st);
    case Approve(id) => TakenKeepsInv(limit, st, id);
    case Reject(id) => RefusedKeepsInv(limit, st, id);
    case List => ListedKeepsInv(limit, st);
    case _ => ThreadKeepsInv(limit, st, a);
  }

  lemma ClockKeepsInv(limit: int, st: State, st': State)
    requires Inv(limit, st) && st' == st.(now := st'.now, autoApprovals := st'.autoApprovals)
    requires limit > 0 ==> st'.autoApprovals <= limit
    ensures Inv(limit, st')
  {
    forall t | 0 <= t < |st'.threads| ensures Busy(st', t) {
      assert Busy(st, t);
    }
  }

  // ---- whole runs ----

  function Run(limit: int, st: State, schedule: seq<Action>): Option<State>
    decreases |schedule|
  {
    if schedule == [] then Some(st)
    else match Step(limit, st, schedule[0]) case None => None case Some(next) => Run(limit, next, schedule[1..])
  }

  lemma {:induction false} RunKeepsInv(limit: int, st: State, schedule: seq<Action>)
    requires Inv(limit, st) && Run(limit, st, schedule).Some?
    ensures Inv(limit, Run(limit, st, schedule).value)
    decreases |schedule|
  {
    hide Inv, Step;
    if schedule != [] {
      StepKeepsInv(limit, st, schedule[0]);
      RunKeepsInv(limit, Step(limit, st, schedule[0]).value, schedule[1..]);
    }
  }

  /** In every run of approvals, rejections, expiries and evictions, with any clock, a tool
      runs at most once and only after an Approve took its proposal inside the window; a
      proposal whose Reject succeeded never runs; the ring holds the newest hundred; envelope
      approvals stay within a positive limit. */
  lemma ApprovalsSafe(limit: int, schedule: seq<Action>, k: nat)
    requires Run(limit, INITIAL, schedule).Some? && k < |Run(limit, INITIAL, schedule).value.proposals|
    ensures var st := Run(limit, INITIAL, schedule).value;
            var p := st.proposals[k];
            && p.runs <= 1
            && (p.runs == 1 ==> p.taken.Some? && p.taken.value < p.expiresAt && !p.refused)
            && (p.refused ==> p.runs == 0 && p.taken == None && p.status == Rejected)
            && (k in st.results ==> p.runs == 1)
            && |st.order| <= 100 && (forall id :: id in st.order <==> id in st.keys)
            && (forall i, j :: 0 <= i < j < |st.order| ==> st.order[i] < st.order[j])
            && (k in st.keys <==> k + 100 >= |st.proposals|)
            && (limit > 0 ==> st.autoApprovals <= limit)
  {
    hide Run, Step;
    RunKeepsInv(limit, INITIAL, schedule);
    var st := Run(limit, INITIAL, schedule).value;
    assert Life(st.proposals[k]);
    forall id ensures id in st.order <==> id in st.keys {
      if id in st.keys {
        assert st.order[id - (|st.proposals| - |st.order|)] == id;
      }
    }
  }

  /** How an Approve or a Reject is answered, and what a refusal changes: an unknown or evicted
      proposal is not found, one past its five minutes expires, any other that is not pending
      has been handled. */
  lemma AnswersExactly(st: State, id: nat)
    requires Ring(st)
    ensures var (claimed, r) := Claim(st, id);
            && (r == NotFound <==> id !in st.keys)
            && (id in st.keys ==>
                  var p := st.proposals[id];
                  && (r == Ok <==> p.status == Pending && st.now < p.expiresAt)
                  && (r == TooLate <==> p.status == Expired || (p.status == Pending && st.now >= p.expiresAt))
                  && (r == Handled <==> p.status in {Approved, Rejected, Executed})
                  && claimed == st.(proposals := st.proposals[id := if r == TooLate then p.(status := Expired) else p]))
            && Taken(st, id).1 == Refused(st, id).1 == r
            && (r != Ok ==> Taken(st, id).0 == Refused(st, id).0 == claimed)
  {
    if id in st.keys {
      assert st.proposals[id := st.proposals[id]] == st.proposals;
    }
  }

  /** An Approve that is answered with success does run the tool, once, and records its result;
      a Reject that is answered with success leaves it rejected for good. */
  lemma ApproveRuns(limit: int, st: State, id: nat)
    requires Ring(st) && Lives(st) && Claim(st, id).1 == Ok
    ensures var t := |st.threads|;
            var r := Run(limit, st, [Approve(id)] + ([Execute(t)] + [Record(t)]));
            && r.Some? && id < |st.proposals| == |r.value.proposals| && r.value.proposals[id].status == Executed
            && r.value.proposals[id].runs == 1 && id in r.value.results
            && (forall k :: 0 <= k < |st.proposals| && k != id ==> r.value.proposals[k] == st.proposals[k])
    ensures var r := Run(limit, st, [Reject(id)]);
            && r.Some? && id < |r.value.proposals| && r.value.proposals[id].status == Rejected && r.value.proposals[id].runs == 0
            && r.value.threads == st.threads
  {
    hide Ring;
    var t := |st.threads|;
    assert Life(st.proposals[id]);
    var one := Taken(st, id).0;
    var two := Step(limit, one, Execute(t)).value;
    var record: seq<Action>, none: seq<Action> := [Record(t)], [];
    assert ([Approve(id)] + ([Execute(t)] + record))[1..] == [Execute(t)] + record;
    assert ([Execute(t)] + record)[1..] == record && record[1..] == none && [Reject(id)][1..] == none;
    assert Run(limit, two, record) == Step(limit, two, Record(t));
  }

  /** An envelope slot is taken exactly while a positive limit is not reached. */
  lemma SlotTaken(limit: int, st: State)
    ensures Step(limit, st, EnvelopeSlot)
         == Some(st.(autoApprovals := st.autoApprovals + if 0 < limit && st.autoApprovals < limit then 1 else 0))
  {
  }

  // ---- results of evicted proposals ----

  /** The results stay within the ring except for one step: recording the outcome of a
      proposal that was evicted while its tool ran. */
  lemma ResultsWithinRing(limit: int, st: State, a: Action)
    requires Inv(limit, st) && Step(limit, st, a).Some? && st.results <= st.keys
    ensures Step(limit, st, a).value.results <= Step(limit, st, a).value.keys
            <==> (a.Record? ==> st.threads[a.t].id in st.keys)
  {
    hide Proposed, Lives;
    if a.Propose? {
      ProposedKeepsRing(st);
    }
  }

  /** Such a result is never removed again. */
  lemma {:induction false} StaleResultStays(limit: int, st: State, schedule: seq<Action>, k: nat)
    requires Inv(limit, st) && k in st.results && k !in st.keys && Run(limit, st, schedule).Some?
    ensures k in Run(limit, st, schedule).value.results && k !in Run(limit, st, schedule).value.keys
    decreases |schedule|
  {
    hide Inv, Step;
    if schedule != [] {
      StepKeepsInv(limit, st, schedule[0]);
      StaleResultStep(limit, st, schedule[0], k);
      StaleResultStays(limit, Step(limit, st, schedule[0]).value, schedule[1..], k);
    }
  }

  lemma StaleResultStep(limit: int, st: State, a: Action, k: nat)
    requires Inv(limit, st) && k in st.results && k !in st.keys && Step(limit, st, a).Some?
    ensures k in Step(limit, st, a).value.results && k !in Step(limit, st, a).value.keys
  {
    hide Proposed;
    if a.Propose? {
      ProposedKeepsRing(st);
      assert k < |st.proposals|;
    }
  }

  function Times(n: nat): (s: seq<Action>)
    ensures |s| == n && forall i :: 0 <= i < n ==> s[i] == Propose
  {
    seq(n, i => Propose)
  }

  lemma {:induction false} ProposeTimes(limit: int, st: State, n: nat)
    requires Ring(st)
    ensures var r := Run(limit, st, Times(n));
            && r.Some? && Ring(r.value) && r.value.threads == st.threads
            && |r.value.proposals| == |st.proposals| + n && r.value.proposals[..|st.proposals|] == st.proposals
    decreases n
  {
    hide Proposed, Ring;
    if n > 0 {
      assert Times(n)[1..] == Times(n - 1);
      var next := Proposed(st);
      ProposedKeepsRing(st);
      ProposeTimes(limit, next, n - 1);
      var end := Run(limit, next, Times(n - 1)).value;
      assert end.proposals[..|st.proposals|] == end.proposals[..|next.proposals|][..|st.proposals|];
    }
  }

  lemma {:induction false} RunConcat(limit: int, st: State, a: seq<Action>, b: seq<Action>)
    requires Run(limit, st, a).Some?
    ensures Run(limit, st, a + b) == Run(limit, Run(limit, st, a).value, b)
    decreases |a|
  {
    if a == [] {
      assert a + b == b;
    } else {
      assert (a + b)[1..] == a[1..] + b;
      RunConcat(limit, Step(limit, st, a[0]).value, a[1..], b);
    }
  }

  /** The exception does happen: a hundred further proposals while the first one's tool runs. */
  lemma StaleResultReachable(limit: int)
    ensures var r := Run(limit, INITIAL, [Propose, Approve(0)] + Times(100) + [Execute(0), Record(0)]);
            r.Some? && 0 in r.value.results && 0 !in r.value.keys
  {
    var p := Proposal(Pending, PROPOSAL_TTL, None, 0, false);
    var one := State([p], [0], {0}, {}, [], 0, 0);
    var two := State([p.(status := Approved, taken := Some(0))], [0], {0}, {}, [Approving(0)], 0, 0);
    FirstTwo(limit, p, one, two);
    ProposeTimes(limit, two, 100);
    var full := Run(limit, two, Times(100)).value;
    assert full.proposals[0] == full.proposals[..1][0];
    var s2 := [Propose, Approve(0)];
    RunConcat(limit, INITIAL, s2, Times(100));
    RunConcat(limit, INITIAL, s2 + Times(100), [Execute(0), Record(0)]);
    LastTwo(limit, full);
  }

  lemma FirstTwo(limit: int, p: Proposal, one: State, two: State)
    requires p == Proposal(Pending, PROPOSAL_TTL, None, 0, false) && one == State([p], [0], {0}, {}, [], 0, 0)
    requires two == State([p.(status := Approved, taken := Some(0))], [0], {0}, {}, [Approving(0)], 0, 0)
    ensures Run(limit, INITIAL, [Propose, Approve(0)]) == Some(two) && Ring(two)
  {
    assert INITIAL.proposals + [p] == one.proposals && INITIAL.order + [0] == one.order && INITIAL.keys + {0} == one.keys;
    assert Step(limit, INITIAL, Propose) == Some(one);
    assert one.proposals[0 := p] == one.proposals && one.proposals[0 := two.proposals[0]] == two.proposals;
    assert one.threads + [Approving(0)] == two.threads;
    assert Step(limit, one, Approve(0)) == Some(two);
    assert [Propose, Approve(0)][1..] == [Approve(0)] && [Approve(0)][1..] == [];
    assert Run(limit, two, []) == Some(two);
    assert Run(limit, one, [Approve(0)]) == Some(two);
  }

  lemma LastTwo(limit: int, st: State)
    requires |st.proposals| > 0 && st.threads == [Approving(0)] && 0 !in st.keys
    ensures var r := Run(limit, st, [Execute(0), Record(0)]);
            r.Some? && 0 in r.value.results && 0 !in r.value.keys
  {
    assert [Execute(0), Record(0)][1..] == [Record(0)] && [Record(0)][1..] == [];
    var mid := Step(limit, st, Execute(0)).value;
    var end := Step(limit, mid, Record(0)).value;
    assert Run(limit, end, []) == Some(end);
    assert Run(limit, mid, [Record(0)]) == Some(end);
  }
}
