/** The connector's lifecycle: one command at a time (connect, disconnect or Close) against any
    number of workers, interleaved at the granularity of the mutex. */
module Lifecycle {
  import opened Bytes

  datatype Phase = Disconnected | Connecting | Connected

  /** Where a worker stands. Publishing, Discarding and Closing own the session they name;
      Running and Finishing only refer to the session published in the client field. */
  datatype Worker =
    | Opening
    | Publishing(session: nat)
    | Discarding(session: nat)
    | Running(session: nat)
    | Finishing(client: Option<nat>)
    | Closing(client: Option<nat>)
    | Reporting
    | Exiting
    | Done

  /** Where the command holding the command lock stands; `closing` tells Close from disconnect. */
  datatype Command =
    | Idle
    | Cancelling(worker: nat, closing: bool)
    | Waiting(worker: nat, closing: bool)
    | Taking(worker: nat, closing: bool)
    | LoggingOut(client: Option<nat>, closing: bool)
    | CloseWaiting

  /** `cancelled[g]` is the context of worker g; c.cancel and c.done belong to the last worker.
      `ended[s]` counts how often session s was closed or logged out. `overlapped` records
      that a connect was accepted while an earlier worker was still alive. */
  datatype State = State(phase: Phase, client: Option<nat>, workers: seq<Worker>, cancelled: seq<bool>,
                         ended: seq<nat>, command: Command, closed: bool, overlapped: bool)

  const INITIAL := State(Disconnected, None, [], [], [], Idle, false, false)

  datatype DialOutcome = DialFails | DialSucceeds | DictionariesFail

  datatype Action = Connect | Disconnect | Close | CommandStep | WorkerStep(g: nat, dial: DialOutcome)

  function Last(st: State): int { |st.workers| - 1 }

  function End(st: State, s: Option<nat>): State {
    if s.Some? && s.value < |st.ended| then st.(ended := st.ended[s.value := st.ended[s.value] + 1]) else st
  }

  /** The commands start only under the command lock. */
  function Begin(st: State, a: Action): Option<State> {
    if st.command != Idle || st.closed then None
    else
      match a
      case Connect =>
        if st.phase != Disconnected then None
        else Some(st.(phase := Connecting, workers := st.workers + [Opening], cancelled := st.cancelled + [false],
                      overlapped := st.overlapped || exists w <- st.workers :: w != Done))
      case Disconnect =>
        if st.phase == Disconnected || Last(st) < 0 then None else Some(st.(command := Cancelling(Last(st), false)))
      case Close =>
        if st.phase == Disconnected || Last(st) < 0 then Some(st.(command := CloseWaiting))
        else Some(st.(command := Cancelling(Last(st), true)))
      case _ => None
  }

  function Continue(st: State): Option<State> {
    match st.command
    case Idle => None
    case Cancelling(g, closing) =>
      if g < |st.cancelled| then Some(st.(cancelled := st.cancelled[g := true], command := Waiting(g, closing))) else None
    case Waiting(g, closing) =>
      if g < |st.workers| && st.workers[g] == Done then Some(st.(command := Taking(g, closing))) else None
    case Taking(_, closing) =>
      Some(st.(phase := Disconnected, client := None, command := LoggingOut(st.client, closing)))
    case LoggingOut(s, closing) => Some(End(st, s).(command := if closing then CloseWaiting else Idle))
    case CloseWaiting =>
      if Last(st) < 0 || st.workers[Last(st)] == Done then Some(st.(closed := true, command := Idle)) else None
  }

  function Move(st: State, g: nat, w: Worker): State
    requires g < |st.workers|
  {
    st.(workers := st.workers[g := w])
  }

  function Work(st: State, g: nat, dial: DialOutcome): Option<State> {
    if g >= |st.workers| || g >= |st.cancelled| then None
    else
      match st.workers[g]
      case Opening =>
        (match dial
         case DialFails => Some(Move(st, g, Finishing(None)))
         case DialSucceeds => Some(Move(st, g, Publishing(|st.ended|)).(ended := st.ended + [0]))
         case DictionariesFail => Some(Move(st, g, Discarding(|st.ended|)).(ended := st.ended + [0])))
      case Publishing(s) =>
        if st.cancelled[g] then Some(Move(st, g, Discarding(s)))
        else Some(Move(st, g, Running(s)).(client := Some(s), phase := Connected))
      case Discarding(s) => Some(End(Move(st, g, Finishing(None)), Some(s)))
      case Running(s) => Some(Move(st, g, if st.cancelled[g] then Exiting else Finishing(Some(s))))
      case Finishing(c) =>
        if st.cancelled[g] then Some(Move(st, g, Exiting))
        else Some(Move(st, g, Closing(c)).(phase := Disconnected, client := None))
      case Closing(c) => Some(End(Move(st, g, Reporting), c))
      case Reporting => Some(Move(st, g, Exiting))
      case Exiting => Some(Move(st, g, Done))
      case Done => None
  }

  function Step(st: State, a: Action): Option<State> {
    match a
    case CommandStep => Continue(st)
    case WorkerStep(g, dial) => Work(st, g, dial)
    case _ => Begin(st, a)
  }

  // ---- the invariant ----

  /** The session a worker owns. */
  function Owned(w: Worker): Option<nat> {
    match w
    case Publishing(s) => Some(s)
    case Discarding(s) => Some(s)
    case Closing(c) => c
    case _ => None
  }

  function LogoutOwned(c: Command): Option<nat> {
    if c.LoggingOut? then c.client else None
  }

  /** A worker that has not yet given up the connection. */
  predicate Active(w: Worker) {
    w.Opening? || w.Publishing? || w.Discarding? || w.Running? || w.Finishing?
  }

  /** The session a worker's connection was published as, if it was. */
  function Published(w: Worker): Option<nat> {
    match w
    case Running(s) => Some(s)
    case Finishing(c) => c
    case _ => None
  }

  predicate Sized(st: State) {
    && |st.cancelled| == |st.workers|
    && (st.client.Some? <==> st.phase == Connected)
    && (st.phase != Disconnected ==> st.workers != [])
  }

  /** An active worker with a live context is the last one, and the connector's fields tell
      how far it has got. */
  predicate Holding(st: State, g: nat)
    requires Sized(st) && g < |st.workers|
  {
    Active(st.workers[g]) && !st.cancelled[g] ==>
      && g == Last(st)
      && st.client == Published(st.workers[g])
      && st.phase == if Published(st.workers[g]).Some? then Connected else Connecting
  }

  /** Who is in charge of a connection: its active worker, or the command that cancelled it. */
  predicate InCharge(st: State)
    requires Sized(st)
  {
    && (st.phase != Disconnected && !st.cancelled[Last(st)] ==> Active(st.workers[Last(st)]))
    && (st.phase != Disconnected && st.cancelled[Last(st)] ==> st.command.Waiting? || st.command.Taking?)
    && (st.command.Cancelling? || st.command.Waiting? || st.command.Taking? ==>
          && st.command.worker == Last(st) >= 0
          && (st.command.Cancelling? ==> !st.cancelled[Last(st)])
          && (!st.command.Cancelling? ==> st.cancelled[Last(st)])
          && (st.command.Taking? ==> st.workers[Last(st)] == Done))
  }

  predicate Connection(st: State)
    requires Sized(st)
  {
    (forall g :: 0 <= g < |st.workers| ==> Holding(st, g)) && InCharge(st)
  }

  /** Everything that can own a session: the client field, the logout, and the workers. */
  function Holders(st: State): (h: seq<Option<nat>>)
    ensures |h| == |st.workers| + 2
  {
    [st.client, LogoutOwned(st.command)]
    + seq(|st.workers|, g requires 0 <= g < |st.workers| => Owned(st.workers[g]))
  }

  /** Every session is ended or has exactly one owner, never both. */
  predicate Accounted(h: seq<Option<nat>>, ended: seq<nat>) {
    && (forall i :: 0 <= i < |h| && h[i].Some? ==> h[i].value < |ended| && ended[h[i].value] == 0)
    && (forall i, j :: 0 <= i < j < |h| && h[i].Some? ==> h[i] != h[j])
    && (forall s :: 0 <= s < |ended| ==> ended[s] == 1 || (ended[s] == 0 && Some(s) in h))
  }

  predicate Ownership(st: State) {
    Accounted(Holders(st), st.ended)
  }

  lemma HolderMoves(h: seq<Option<nat>>, ended: seq<nat>, i: nat, j: nat)
    requires Accounted(h, ended) && i < |h| && j < |h| && i != j && h[j] == None
    ensures Accounted(h[i := None][j := h[i]], ended)
  {
    var h' := h[i := None][j := h[i]];
    forall s | 0 <= s < |ended| && ended[s] == 0 ensures Some(s) in h' {
      var k :| 0 <= k < |h| && h[k] == Some(s);
      assert h'[if k == i then j else k] == Some(s);
    }
  }

  lemma HolderEnds(h: seq<Option<nat>>, ended: seq<nat>, i: nat)
    requires Accounted(h, ended) && i < |h| && h[i].Some?
    ensures Accounted(h[i := None], ended[h[i].value := ended[h[i].value] + 1])
  {
    var h', t := h[i := None], h[i].value;
    forall s | 0 <= s < |ended| && s != t && ended[s] == 0 ensures Some(s) in h' {
      var k :| 0 <= k < |h| && h[k] == Some(s);
      assert h'[k] == Some(s);
    }
  }

  lemma HolderOpens(h: seq<Option<nat>>, ended: seq<nat>, i: nat)
    requires Accounted(h, ended) && i < |h| && h[i] == None
    ensures Accounted(h[i := Some(|ended|)], ended + [0])
  {
    var h', ended' := h[i := Some(|ended|)], ended + [0];
    assert h'[i] == Some(|ended|);
    forall s | 0 <= s < |ended| && ended[s] == 0 ensures Some(s) in h' {
      var k :| 0 <= k < |h| && h[k] == Some(s);
      assert h'[k] == Some(s);
    }
  }

  lemma HolderJoins(h: seq<Option<nat>>, ended: seq<nat>)
    requires Accounted(h, ended)
    ensures Accounted(h + [None], ended)
  {
  }

  /** Without overlapping connects only the last worker can be alive; the output is closed only
      after it is done. */
  predicate Quiet(st: State) {
    && (!st.overlapped ==> forall g :: 0 <= g < |st.workers| - 1 ==> st.workers[g] == Done)
    && (st.closed ==> st.phase == Disconnected && st.command == Idle && (Last(st) >= 0 ==> st.workers[Last(st)] == Done))
    && (st.command.CloseWaiting? || st.command.LoggingOut? ==> st.phase == Disconnected)
  }

  predicate Inv(st: State) {
    Sized(st) && Connection(st) && Ownership(st) && Quiet(st)
  }

  // ---- preservation ----

  lemma BeginKeepsInv(st: State, a: Action)
    requires Inv(st) && Begin(st, a).Some?
    ensures Inv(Begin(st, a).value)
  {
    hide Accounted;
    var st' := Begin(st, a).value;
    forall h | 0 <= h < |st'.workers| ensures Sized(st') && Holding(st', h) {
      assert h < |st.workers| ==> Holding(st, h);
    }
    if a.Connect? {
      HolderJoins(Holders(st), st.ended);
      assert Holders(st') == Holders(st) + [None];
      if !st'.overlapped {
        forall g | 0 <= g < |st.workers| ensures st.workers[g] == Done {
          assert st.workers[g] in st.workers;
        }
      }
    } else {
      assert Holders(st') == Holders(st);
    }
  }

  lemma ContinueKeepsOwnership(st: State)
    requires Inv(st) && Continue(st).Some?
    ensures Ownership(Continue(st).value)
  {
    hide Accounted, Connection, Quiet;
    var st', h := Continue(st).value, Holders(st);
    if st.command.Taking? {
      HolderMoves(h, st.ended, 0, 1);
      assert Holders(st') == h[0 := None][1 := h[0]];
    } else if LogoutOwned(st.command).Some? {
      InRange(h, st.ended, 1);
      HolderEnds(h, st.ended, 1);
      assert Holders(st') == h[1 := None];
    } else {
      assert Holders(st') == h;
    }
  }

  lemma InRange(h: seq<Option<nat>>, ended: seq<nat>, i: nat)
    requires Accounted(h, ended) && i < |h| && h[i].Some?
    ensures h[i].value < |ended|
  {
  }

  lemma ContinueKeepsInv(st: State)
    requires Inv(st) && Continue(st).Some?
    ensures Inv(Continue(st).value)
  {
    hide Accounted, Holders;
    ContinueKeepsOwnership(st);
    var st' := Continue(st).value;
    forall h | 0 <= h < |st'.workers| ensures Sized(st') && Holding(st', h) {
      assert Holding(st, h);
    }
  }

  /** What one worker step can change: its own entry always; the client and the phase only if
      the worker is active with a live context. */
  lemma WorkEffect(st: State, g: nat, dial: DialOutcome)
    requires Sized(st) && Work(st, g, dial).Some?
    ensures g < |st.workers| && st.workers[g] != Done
    ensures var st', w := Work(st, g, dial).value, st.workers[g];
            && st'.command == st.command && st'.cancelled == st.cancelled
            && st'.closed == st.closed && st'.overlapped == st.overlapped
            && |st'.workers| == |st.workers| && st'.workers == st.workers[g := st'.workers[g]]
  {
    hide Sized;
    var st' := Work(st, g, dial).value;
    EndEffect(Move(st, g, Finishing(None)), Owned(st.workers[g]));
    EndEffect(Move(st, g, Reporting), Owned(st.workers[g]));
  }

  lemma EndEffect(st: State, s: Option<nat>)
    ensures End(st, s) == st.(ended := End(st, s).ended)
  {
  }

  lemma WorkEffectOnConnection(st: State, g: nat, dial: DialOutcome)
    requires Sized(st) && Work(st, g, dial).Some? && g < |st.workers|
    requires |Work(st, g, dial).value.workers| == |st.workers|
    ensures var st', w := Work(st, g, dial).value, st.workers[g];
            && (Active(st'.workers[g]) ==> Active(w))
            && (!Active(w) || st.cancelled[g] ==> st'.client == st.client && st'.phase == st.phase)
            && (Active(w) && !st.cancelled[g] && Holding(st, g) ==>
                  if Active(st'.workers[g]) then
                    && st'.client == Published(st'.workers[g])
                    && st'.phase == if Published(st'.workers[g]).Some? then Connected else Connecting
                  else st'.client == None && st'.phase == Disconnected)
  {
  }

  lemma WorkKeepsConnection(st: State, g: nat, dial: DialOutcome)
    requires Inv(st) && Work(st, g, dial).Some?
    ensures Sized(Work(st, g, dial).value) && Connection(Work(st, g, dial).value)
  {
    hide Ownership, Quiet, Work, Active, Published;
    WorkEffect(st, g, dial);
    WorkEffectOnConnection(st, g, dial);
    var st' := Work(st, g, dial).value;
    assert Holding(st, g);
    forall h | 0 <= h < |st'.workers| ensures Holding(st', h) {
      assert Holding(st, h);
    }
  }

  lemma WorkKeepsQuiet(st: State, g: nat, dial: DialOutcome)
    requires Inv(st) && Work(st, g, dial).Some?
    ensures Quiet(Work(st, g, dial).value)
  {
    hide Ownership, Work, InCharge, Published;
    WorkEffect(st, g, dial);
    WorkEffectOnConnection(st, g, dial);
    assert Holding(st, g);
  }

  lemma OpeningOwns(st: State, g: nat, dial: DialOutcome)
    requires Sized(st) && Ownership(st) && Work(st, g, dial).Some? && Holding(st, g) && st.workers[g].Opening?
    ensures Ownership(Work(st, g, dial).value)
  {
    hide Accounted, Holders;
    var st', h := Work(st, g, dial).value, Holders(st);
    var i: nat := g + 2;
    HoldersAfter(st, st', g);
    if !dial.DialFails? {
      HolderOpens(h, st.ended, i);
      assert h[i := Some(|st.ended|)][0 := h[0]] == h[i := Some(|st.ended|)];
    }
  }

  lemma PublishingOwns(st: State, g: nat, dial: DialOutcome)
    requires Sized(st) && Ownership(st) && Work(st, g, dial).Some? && Holding(st, g) && st.workers[g].Publishing?
    ensures Ownership(Work(st, g, dial).value)
  {
    hide Accounted, Holders;
    var st', h := Work(st, g, dial).value, Holders(st);
    var i: nat := g + 2;
    HoldersAfter(st, st', g);
    if !st.cancelled[g] {
      HolderMoves(h, st.ended, i, 0);
    }
  }

  lemma FinishingOwns(st: State, g: nat, dial: DialOutcome)
    requires Sized(st) && Ownership(st) && Work(st, g, dial).Some? && Holding(st, g) && st.workers[g].Finishing?
    ensures Ownership(Work(st, g, dial).value)
  {
    hide Accounted, Holders;
    var st', h := Work(st, g, dial).value, Holders(st);
    var i: nat := g + 2;
    HoldersAfter(st, st', g);
    if !st.cancelled[g] {
      HolderMoves(h, st.ended, 0, i);
      var none: Option<nat> := None;
      var front := h[0];
      var left: seq<Option<nat>>, right: seq<Option<nat>> := h[0 := none], h[i := front];
      assert left[i := front] == right[0 := none];
    }
  }

  lemma EndingOwns(st: State, g: nat, dial: DialOutcome)
    requires Sized(st) && Ownership(st) && Work(st, g, dial).Some? && Holding(st, g) && (st.workers[g].Discarding? || st.workers[g].Closing?)
    ensures Ownership(Work(st, g, dial).value)
  {
    hide Accounted, Holders;
    var st', h := Work(st, g, dial).value, Holders(st);
    var i: nat := g + 2;
    HoldersAfter(st, st', g);
    if Owned(st.workers[g]).Some? {
      InRange(h, st.ended, i);
      HolderEnds(h, st.ended, i);
      var none: Option<nat> := None;
      assert h[i := none][0 := h[0]] == h[i := none];
    }
  }

  lemma WorkKeepsOwnership(st: State, g: nat, dial: DialOutcome)
    requires Inv(st) && Work(st, g, dial).Some?
    ensures Ownership(Work(st, g, dial).value)
  {
    hide Ownership, Quiet, InCharge;
    assert Holding(st, g);
    match st.workers[g]
    case Opening => OpeningOwns(st, g, dial);
    case Publishing(_) => PublishingOwns(st, g, dial);
    case Discarding(_) => EndingOwns(st, g, dial);
    case Finishing(_) => FinishingOwns(st, g, dial);
    case Closing(_) => EndingOwns(st, g, dial);
    case _ => IdleOwns(st, g, dial);
  }

  lemma IdleOwns(st: State, g: nat, dial: DialOutcome)
    requires Ownership(st) && Work(st, g, dial).Some?
    requires st.workers[g].Running? || st.workers[g].Reporting? || st.workers[g].Exiting?
    ensures Ownership(Work(st, g, dial).value)
  {
    hide Accounted, Holders;
    HoldersAfter(st, Work(st, g, dial).value, g);
  }

  /** A worker's step changes at most its own entry and the client field. */
  lemma HoldersAfter(st: State, st': State, g: nat)
    requires g < |st.workers| == |st'.workers|
    requires st'.command == st.command && st'.workers == st.workers[g := st'.workers[g]]
    ensures var h, h' := Holders(st), Holders(st');
            && |h| == |st.workers| + 2 && h[g + 2] == Owned(st.workers[g]) && h[0] == st.client
            && h' == h[g + 2 := Owned(st'.workers[g])][0 := st'.client]
            && (Owned(st'.workers[g]) == Owned(st.workers[g]) && st'.client == st.client ==> h' == h)
  {
    var h, h' := Holders(st), Holders(st');
    assert h[0] == st.client && h[g + 2] == Owned(st.workers[g]);
    assert |h'| == |h|;
    assert h' == h[g + 2 := Owned(st'.workers[g])][0 := st'.client];
  }

  lemma WorkKeepsInv(st: State, g: nat, dial: DialOutcome)
    requires Inv(st) && Work(st, g, dial).Some?
    ensures Inv(Work(st, g, dial).value)
  {
    hide Sized, Connection, Ownership, Quiet, Work;
    WorkKeepsConnection(st, g, dial);
    WorkKeepsOwnership(st, g, dial);
    WorkKeepsQuiet(st, g, dial);
  }

  lemma StepKeepsInv(st: State, a: Action)
    requires Inv(st) && Step(st, a).Some?
    ensures Inv(Step(st, a).value)
  {
    hide Inv, Begin, Continue, Work;
    match a
    case CommandStep => ContinueKeepsInv(st);
    case WorkerStep(g, dial) => WorkKeepsInv(st, g, dial);
    case _ => BeginKeepsInv(st, a);
  }

  // ---- whole runs ----

  /** The state after a schedule, if every step of it is enabled. */
  function Run(st: State, schedule: seq<Action>): Option<State>
    decreases |schedule|
  {
    if schedule == [] then Some(st)
    else match Step(st, schedule[0]) case None => None case Some(next) => Run(next, schedule[1..])
  }

  lemma {:induction false} RunKeepsInv(st: State, schedule: seq<Action>)
    requires Inv(st) && Run(st, schedule).Some?
    ensures Inv(Run(st, schedule).value)
    decreases |schedule|
  {
    hide Inv, Step;
    if schedule != [] {
      StepKeepsInv(st, schedule[0]);
      RunKeepsInv(Step(st, schedule[0]).value, schedule[1..]);
    }
  }

  /** In every interleaving each opened session is ended at most once, the client is set
      exactly when the connector is connected, and once nothing is going on any more every
      session has been ended exactly once. */
  lemma SessionsEndOnce(schedule: seq<Action>)
    requires Run(INITIAL, schedule).Some?
    ensures var st := Run(INITIAL, schedule).value;
            && (st.client.Some? <==> st.phase == Connected)
            && (forall s :: 0 <= s < |st.ended| ==> st.ended[s] <= 1)
            && (st.phase == Disconnected && !st.command.LoggingOut? && (forall w <- st.workers :: w == Done) ==>
                  forall s :: 0 <= s < |st.ended| ==> st.ended[s] == 1)
  {
    hide Run;
    var st := Run(INITIAL, schedule).value;
    RunKeepsInv(INITIAL, schedule);
    if st.phase == Disconnected && !st.command.LoggingOut? && forall w <- st.workers :: w == Done {
      assert forall g :: 0 <= g < |st.workers| ==> st.workers[g] in st.workers;
      assert forall i :: 0 <= i < |Holders(st)| ==> Holders(st)[i] == None;
    }
  }

  /** When Close has closed the output, the last worker is done, and so is every worker unless
      a connect was accepted while an earlier worker was still alive. */
  lemma ClosedIsQuiet(schedule: seq<Action>)
    requires Run(INITIAL, schedule).Some? && Run(INITIAL, schedule).value.closed
    ensures var st := Run(INITIAL, schedule).value;
            && (st.workers != [] ==> st.workers[|st.workers| - 1] == Done)
            && (!st.overlapped ==> forall w <- st.workers :: w == Done)
  {
    hide Run;
    RunKeepsInv(INITIAL, schedule);
  }

  lemma {:induction false} Chain(st: State, schedule: seq<Action>, states: seq<State>)
    requires |states| == |schedule| > 0 && Step(st, schedule[0]) == Some(states[0])
    requires forall i :: 0 < i < |states| ==> Step(states[i - 1], schedule[i]) == Some(states[i])
    ensures Run(st, schedule) == Some(states[|states| - 1])
    decreases |schedule|
  {
    hide Step;
    if |schedule| > 1 {
      assert forall i :: 0 < i < |states[1..]| ==> states[1..][i - 1] == states[i] && schedule[1..][i] == schedule[i + 1];
      Chain(states[0], schedule[1..], states[1..]);
    }
  }

  // ---- what a connection goes through ----

  /** How many sessions the steps of a schedule open: one for each dial that succeeds, whether or
      not the dictionaries load. */
  function Opened(st: State, schedule: seq<Action>): nat
    decreases |schedule|
  {
    if schedule == [] then 0
    else
      match Step(st, schedule[0])
      case None => 0
      case Some(next) => (if Opens(st, schedule[0]) then 1 else 0) + Opened(next, schedule[1..])
  }

  predicate Opens(st: State, a: Action) {
    a.WorkerStep? && a.g < |st.workers| && st.workers[a.g] == Opening && a.dial != DialFails
  }

  lemma OpensOne(st: State, a: Action)
    requires Step(st, a).Some?
    ensures |Step(st, a).value.ended| == |st.ended| + if Opens(st, a) then 1 else 0
  {
  }

  lemma {:induction false} SessionsCounted(st: State, schedule: seq<Action>)
    requires Run(st, schedule).Some?
    ensures |Run(st, schedule).value.ended| == |st.ended| + Opened(st, schedule)
    decreases |schedule|
  {
    hide Step, Opens;
    if schedule != [] {
      OpensOne(st, schedule[0]);
      SessionsCounted(Step(st, schedule[0]).value, schedule[1..]);
    }
  }

  /** An idle connector whose last worker, number g, stands at w. */
  predicate Stands(st: State, g: nat, w: Worker) {
    g + 1 == |st.workers| == |st.cancelled| && st.workers[g] == w && st.command == Idle
  }

  function At(st: State, w: Worker): State
    requires st.workers != []
  {
    st.(workers := st.workers[|st.workers| - 1 := w])
  }

  lemma AtAgain(st: State, w: Worker, v: Worker)
    requires st.workers != []
    ensures |At(st, w).workers| == |st.workers| && At(At(st, w), v) == At(st, v)
  {
    assert st.workers[|st.workers| - 1 := w][|st.workers| - 1 := v] == st.workers[|st.workers| - 1 := v];
  }

  /** A dial that succeeds publishes a new session and connects, unless the context is cancelled
      by then; one that fails opens none. */
  lemma DialTurn(st: State, g: nat)
    requires Stands(st, g, Opening)
    ensures var s := |st.ended|;
            Run(st, [WorkerStep(g, DialSucceeds), WorkerStep(g, DialFails)])
            == Some(if st.cancelled[g] then At(st, Discarding(s)).(ended := st.ended + [0])
                    else At(st, Running(s)).(client := Some(s), phase := Connected, ended := st.ended + [0]))
    ensures Run(st, [WorkerStep(g, DialFails)]) == Some(At(st, Finishing(None)))
  {
    hide Run;
    var s := |st.ended|;
    var begun := At(st, Publishing(s)).(ended := st.ended + [0]);
    var end := if st.cancelled[g] then At(st, Discarding(s)).(ended := st.ended + [0])
               else At(st, Running(s)).(client := Some(s), phase := Connected, ended := st.ended + [0]);
    AtAgain(st, Publishing(s), Running(s));
    AtAgain(st, Publishing(s), Discarding(s));
    Chain(st, [WorkerStep(g, DialSucceeds), WorkerStep(g, DialFails)], [begun, end]);
    Chain(st, [WorkerStep(g, DialFails)], [At(st, Finishing(None))]);
  }

  /** Dictionaries that do not load end the session at once and publish nothing. */
  lemma DictionariesTurn(st: State, g: nat)
    requires Stands(st, g, Opening)
    ensures Run(st, [WorkerStep(g, DictionariesFail), WorkerStep(g, DialFails)])
         == Some(At(st, Finishing(None)).(ended := st.ended + [1]))
  {
    hide Run;
    var s := |st.ended|;
    var begun := At(st, Discarding(s)).(ended := st.ended + [0]);
    AtAgain(st, Discarding(s), Finishing(None));
    assert (st.ended + [0])[s := 1] == st.ended + [1];
    Chain(st, [WorkerStep(g, DictionariesFail), WorkerStep(g, DialFails)],
          [begun, At(st, Finishing(None)).(ended := st.ended + [1])]);
  }

  /** A connection that is lost gives up phase and client, then ends its session, reports and is
      done. */
  lemma LossTurn(st: State, g: nat, s: nat)
    requires Stands(st, g, Running(s)) && !st.cancelled[g] && s < |st.ended|
    ensures var w := WorkerStep(g, DialFails);
            Run(st, [w, w, w, w, w])
            == Some(At(st, Done).(phase := Disconnected, client := None, ended := st.ended[s := st.ended[s] + 1]))
  {
    hide Run;
    var w := WorkerStep(g, DialFails);
    var lost := st.(phase := Disconnected, client := None);
    var over := lost.(ended := st.ended[s := st.ended[s] + 1]);
    AtAgain(st, Finishing(Some(s)), Closing(Some(s)));
    AtAgain(lost, Closing(Some(s)), Reporting);
    AtAgain(over, Reporting, Exiting);
    AtAgain(over, Exiting, Done);
    Chain(st, [w, w, w, w, w],
          [At(st, Finishing(Some(s))), At(lost, Closing(Some(s))), At(over, Reporting), At(over, Exiting), At(over, Done)]);
  }

  /** A disconnect cancels the connection, waits for its worker, and only then ends the session. */
  lemma DisconnectTurn(st: State, g: nat, s: nat)
    requires Stands(st, g, Running(s)) && !st.cancelled[g] && !st.closed && s < |st.ended|
    requires st.phase == Connected && st.client == Some(s)
    ensures var w := WorkerStep(g, DialFails);
            Run(st, [Disconnect, CommandStep, w, w, CommandStep, CommandStep, CommandStep])
            == Some(At(st, Done).(phase := Disconnected, client := None, cancelled := st.cancelled[g := true],
                                  ended := st.ended[s := st.ended[s] + 1]))
  {
    hide Run;
    var w := WorkerStep(g, DialFails);
    var told := st.(command := Cancelling(g, false));
    var waiting := st.(cancelled := st.cancelled[g := true], command := Waiting(g, false));
    var done := At(waiting, Done);
    var taking := done.(command := Taking(g, false));
    var taken := done.(phase := Disconnected, client := None, command := LoggingOut(Some(s), false));
    var end := At(st, Done).(phase := Disconnected, client := None, cancelled := st.cancelled[g := true],
                             ended := st.ended[s := st.ended[s] + 1]);
    AtAgain(waiting, Exiting, Done);
    Chain(st, [Disconnect, CommandStep, w, w, CommandStep, CommandStep, CommandStep],
          [told, waiting, At(waiting, Exiting), done, taking, taken, end]);
  }

  // ---- coming to rest ----

  /** A bound on the steps a worker can still take. */
  function WorkerRank(w: Worker): nat {
    match w
    case Opening => 7
    case Publishing(_) => 6
    case Discarding(_) => 5
    case Running(_) => 5
    case Finishing(_) => 4
    case Closing(_) => 3
    case Reporting => 2
    case Exiting => 1
    case Done => 0
  }

  function CommandRank(c: Command): nat {
    match c
    case Idle => 0
    case CloseWaiting => 1
    case LoggingOut(_, _) => 2
    case Taking(_, _) => 3
    case Waiting(_, _) => 4
    case Cancelling(_, _) => 5
  }

  function TotalRank(workers: seq<Worker>): nat {
    if workers == [] then 0 else WorkerRank(workers[0]) + TotalRank(workers[1..])
  }

  function Rank(st: State): nat { CommandRank(st.command) + TotalRank(st.workers) }

  /** The steps that go on with what has begun: no new connect, disconnect or Close. */
  predicate Own(a: Action) { a.CommandStep? || a.WorkerStep? }

  predicate AtRest(st: State) {
    st.command == Idle && st.phase == Disconnected && forall w <- st.workers :: w == Done
  }

  lemma {:induction false} RankAfter(workers: seq<Worker>, g: nat, w: Worker)
    requires g < |workers|
    ensures TotalRank(workers[g := w]) == TotalRank(workers) - WorkerRank(workers[g]) + WorkerRank(w)
  {
    hide WorkerRank;
    var after := workers[g := w];
    if g == 0 {
      assert after[1..] == workers[1..];
    } else {
      assert after[1..] == workers[1..][g - 1 := w];
      RankAfter(workers[1..], g - 1, w);
    }
  }

  lemma WorkLowersRank(st: State, g: nat, dial: DialOutcome)
    requires Work(st, g, dial).Some? && g < |st.workers| == |Work(st, g, dial).value.workers|
    ensures WorkerRank(Work(st, g, dial).value.workers[g]) < WorkerRank(st.workers[g])
  {
  }

  /** What a step of the command can change. */
  lemma ContinueEffect(st: State)
    requires Continue(st).Some?
    ensures var next := Continue(st).value;
            && next.workers == st.workers && next.overlapped == st.overlapped
            && CommandRank(next.command) < CommandRank(st.command)
  {
    EndEffect(st, LogoutOwned(st.command));
  }

  lemma StepLowersRank(st: State, a: Action)
    requires Sized(st) && Own(a) && Step(st, a).Some?
    ensures Rank(Step(st, a).value) < Rank(st)
  {
    hide Work, Continue, CommandRank, WorkerRank, Sized;
    if a.WorkerStep? {
      WorkEffect(st, a.g, a.dial);
      WorkLowersRank(st, a.g, a.dial);
      RankAfter(st.workers, a.g, Step(st, a).value.workers[a.g]);
    } else {
      ContinueEffect(st);
    }
  }

  /** A session that is up: its worker takes no step until the connection is lost or a command
      cancels its context. */
  predicate Up(st: State, g: nat) {
    g < |st.workers| == |st.cancelled| && st.workers[g].Running? && !st.cancelled[g]
  }

  /** The own steps that will be taken without anything happening from outside. */
  predicate Due(st: State, a: Action) {
    Own(a) && Step(st, a).Some? && (a.WorkerStep? ==> !Up(st, a.g))
  }

  ghost predicate NothingDue(st: State) {
    forall a: Action :: !Due(st, a)
  }

  /** No command under way, and every worker done or holding the one session that is up. */
  predicate Settled(st: State) {
    st.command == Idle
    && forall g :: 0 <= g < |st.workers| ==> st.workers[g] == Done || (Up(st, g) && g == Last(st) && st.phase == Connected)
  }

  lemma NothingDueSettled(st: State)
    requires Inv(st)
    ensures NothingDue(st) <==> Settled(st)
  {
    hide Ownership;
    if NothingDue(st) {
      forall g | 0 <= g < |st.workers|
        ensures st.workers[g] == Done || (Up(st, g) && g == Last(st) && st.phase == Connected)
      {
        assert !Due(st, WorkerStep(g, DialFails)) && Holding(st, g);
      }
      assert !Due(st, CommandStep);
    }
  }

  /** However the steps of what has begun are ordered, there are boundedly many of them, and the
      connector can stop nowhere but with no command under way and every worker done, save the
      one whose session is up. */
  lemma {:induction false} ComesToRest(st: State, schedule: seq<Action>)
    requires Inv(st) && Run(st, schedule).Some? && forall a <- schedule :: Own(a)
    ensures |schedule| + Rank(Run(st, schedule).value) <= Rank(st)
    ensures NothingDue(Run(st, schedule).value) <==> Settled(Run(st, schedule).value)
    decreases |schedule|
  {
    hide Step, NothingDue, Settled, Own, Rank;
    if schedule == [] {
      NothingDueSettled(st);
    } else {
      assert schedule[0] in schedule && forall a <- schedule[1..] :: a in schedule;
      StepLowersRank(st, schedule[0]);
      StepKeepsInv(st, schedule[0]);
      ComesToRest(Step(st, schedule[0]).value, schedule[1..]);
    }
  }

  /** A disconnect or Close is under way, or there is no connection any more. */
  predicate WindingDown(st: State) { st.command != Idle || st.phase == Disconnected }

  lemma StepWindsDown(st: State, a: Action)
    requires Inv(st) && WindingDown(st) && Own(a) && Step(st, a).Some?
    ensures WindingDown(Step(st, a).value)
  {
    hide Ownership, Work, Continue, WorkerRank;
    match a
    case WorkerStep(g, dial) =>
      WorkEffect(st, g, dial);
      WorkEffectOnConnection(st, g, dial);
      assert Holding(st, g);
    case _ =>
      ContinueSettles(st);
  }

  lemma ContinueSettles(st: State)
    requires Inv(st) && Continue(st).Some?
    ensures WindingDown(Continue(st).value)
  {
    hide Ownership, Connection;
    EndEffect(st, LogoutOwned(st.command));
  }

  /** Once a disconnect or Close has begun every order of the steps ends with the command
      finished and every worker done: a cancelled worker never holds its command up. */
  lemma {:induction false} CommandsComplete(st: State, schedule: seq<Action>)
    requires Inv(st) && WindingDown(st) && Run(st, schedule).Some? && forall a <- schedule :: Own(a)
    ensures NothingDue(Run(st, schedule).value) <==> AtRest(Run(st, schedule).value)
    decreases |schedule|
  {
    hide Inv, Step, NothingDue, Own, WindingDown, AtRest;
    if schedule == [] {
      NothingDueSettled(st);
      SettledAtRest(st);
    } else {
      assert schedule[0] in schedule && forall a <- schedule[1..] :: a in schedule;
      StepWindsDown(st, schedule[0]);
      StepKeepsInv(st, schedule[0]);
      CommandsComplete(Step(st, schedule[0]).value, schedule[1..]);
    }
  }

  lemma SettledAtRest(st: State)
    requires Inv(st) && WindingDown(st)
    ensures Settled(st) <==> AtRest(st)
  {
    hide Ownership;
    if AtRest(st) {
      assert forall g :: 0 <= g < |st.workers| ==> st.workers[g] in st.workers;
    }
  }

  predicate Settles(st: State, schedule: seq<Action>) {
    (forall a <- schedule :: Own(a)) && Run(st, schedule).Some? && AtRest(Run(st, schedule).value)
  }

  lemma NeverStuck(st: State) returns (a: Action)
    requires Inv(st) && !AtRest(st)
    ensures Own(a) && Step(st, a).Some?
  {
    hide Ownership;
    if w :| w in st.workers && w != Done {
      var g :| 0 <= g < |st.workers| && st.workers[g] == w;
      a := WorkerStep(g, DialFails);
    } else {
      assert forall g :: 0 <= g < |st.workers| ==> st.workers[g] in st.workers;
      a := CommandStep;
    }
  }

  /** From every reachable state the connector can come to rest without a further command. */
  lemma {:induction false} RestReachable(st: State)
    requires Inv(st)
    ensures exists schedule :: Settles(st, schedule)
    decreases Rank(st)
  {
    hide Connection, Ownership, Quiet, Step, AtRest, Rank;
    if AtRest(st) {
      assert Settles(st, []);
    } else {
      var a := NeverStuck(st);
      StepLowersRank(st, a);
      StepKeepsInv(st, a);
      var next := Step(st, a).value;
      RestReachable(next);
      var rest :| Settles(next, rest);
      assert ([a] + rest)[1..] == rest;
      assert Settles(st, [a] + rest);
    }
  }

  // ---- workers that outlive Close ----

  /** A schedule that completes Close while worker g is still alive. */
  predicate Outlives(st: State, schedule: seq<Action>, g: nat) {
    match Run(st, schedule)
    case None => false
    case Some(end) => end.closed && g < |end.workers| && end.workers[g] != Done
  }

  predicate OutlivesAsItWas(st: State, schedule: seq<Action>, g: nat)
    requires g < |st.workers|
  {
    match Run(st, schedule)
    case None => false
    case Some(end) => end.closed && g < |end.workers| && end.workers[g] == st.workers[g]
  }

  /** The next step on the way to a completed Close that only the last worker takes part in. */
  function TowardsClose(st: State): Action {
    if Last(st) >= 0 && st.workers[Last(st)] != Done then WorkerStep(Last(st), DialFails)
    else if st.command != Idle then CommandStep
    else Close
  }

  function CloseRank(st: State): nat {
    (if Last(st) >= 0 then WorkerRank(st.workers[Last(st)]) else 0)
    + if st.closed then 0
      else match st.command
           case Idle => 6
           case LoggingOut(_, false) => 12
           case Taking(_, false) => 13
           case Waiting(_, false) => 14
           case Cancelling(_, false) => 15
           case c => CommandRank(c)
  }

  lemma StepTowardsClose(st: State)
    requires Inv(st) && !st.closed
    ensures Step(st, TowardsClose(st)).Some?
    ensures var next := Step(st, TowardsClose(st)).value;
            && CloseRank(next) < CloseRank(st) && |next.workers| == |st.workers|
            && forall g :: 0 <= g < Last(st) ==> next.workers[g] == st.workers[g]
  {
    hide Ownership, Holding, Quiet;
    match TowardsClose(st)
    case WorkerStep(g, dial) =>
      hide WorkerRank, InCharge;
      assert st.workers[g] != Done && Work(st, g, dial).Some?;
      hide Work;
      WorkEffect(st, g, dial);
      WorkLowersRank(st, g, dial);
    case CommandStep =>
      hide WorkerRank;
      EndEffect(st, LogoutOwned(st.command));
    case _ =>
      hide WorkerRank;
  }

  /** Close waits for the last worker only: from every reachable state an earlier worker can
      stay exactly where it is while Close completes. */
  lemma {:induction false} EarlierWorkerOutlives(st: State, g: nat)
    requires Inv(st) && g < Last(st)
    ensures exists schedule :: OutlivesAsItWas(st, schedule, g)
    decreases CloseRank(st)
  {
    hide Inv, Step, CloseRank, TowardsClose;
    if st.closed {
      assert OutlivesAsItWas(st, [], g);
    } else {
      var a := TowardsClose(st);
      StepTowardsClose(st);
      StepKeepsInv(st, a);
      var next := Step(st, a).value;
      EarlierWorkerOutlives(next, g);
      var rest :| OutlivesAsItWas(next, rest, g);
      assert ([a] + rest)[1..] == rest;
      assert OutlivesAsItWas(st, [a] + rest, g);
    }
  }

  /** A live worker that no command is going to wait for: an earlier one, or the last one
      while no command is under way (a further connect can then overtake it). */
  predicate Unawaited(st: State, g: nat) {
    && g < |st.workers| && st.workers[g] != Done
    && (g < Last(st) || st.command == Idle || (st.command.LoggingOut? && !st.command.closing))
  }

  /** The next step on the way to a connect that overtakes the last worker. */
  function TowardsConnect(st: State): Action {
    if st.command != Idle then CommandStep
    else if st.phase == Disconnected || Last(st) < 0 then Connect
    else WorkerStep(Last(st), DialFails)
  }

  lemma StepTowardsConnect(st: State)
    requires Inv(st) && !st.closed && Last(st) >= 0 && Unawaited(st, Last(st))
    ensures Step(st, TowardsConnect(st)).Some?
    ensures var next := Step(st, TowardsConnect(st)).value;
            && !next.closed && Unawaited(next, Last(st))
            && (|next.workers| == |st.workers| ==> Rank(next) < Rank(st))
            && |st.workers| <= |next.workers|
  {
    hide Ownership, Accounted, Holders, Rank;
    assert Holding(st, Last(st));
    if Own(TowardsConnect(st)) {
      StepLowersRank(st, TowardsConnect(st));
    }
  }

  lemma {:induction false} UnawaitedOutlives(st: State, g: nat)
    requires Inv(st) && !st.closed && Unawaited(st, g)
    ensures exists schedule :: Outlives(st, schedule, g)
    decreases Rank(st)
  {
    hide Inv, Step, Rank, TowardsConnect;
    if g < Last(st) {
      EarlierWorkerOutlives(st, g);
      var schedule :| OutlivesAsItWas(st, schedule, g);
      assert Outlives(st, schedule, g);
    } else {
      var a := TowardsConnect(st);
      StepTowardsConnect(st);
      StepKeepsInv(st, a);
      var next := Step(st, a).value;
      var rest: seq<Action>;
      if |next.workers| == |st.workers| {
        UnawaitedOutlives(next, g);
        rest :| Outlives(next, rest, g);
      } else {
        EarlierWorkerOutlives(next, g);
        rest :| OutlivesAsItWas(next, rest, g);
      }
      assert ([a] + rest)[1..] == rest;
      assert Outlives(st, [a] + rest, g);
    }
  }

  lemma AwaitedStays(st: State, a: Action, g: nat)
    requires Inv(st) && Step(st, a).Some? && g < |st.workers| && !Unawaited(st, g)
    ensures g < |Step(st, a).value.workers| && !Unawaited(Step(st, a).value, g)
  {
    hide Ownership, Work, Continue, WorkerRank, Holding;
    match a
    case WorkerStep(h, dial) => WorkEffect(st, h, dial);
    case CommandStep =>
      ContinueEffect(st);
      if st.workers[g] != Done { AwaitedCommand(st, g); }
    case _ =>
  }

  /** A command under way keeps waiting for a last worker that is still alive. */
  lemma AwaitedCommand(st: State, g: nat)
    requires Inv(st) && Continue(st).Some? && g < |st.workers| && !Unawaited(st, g) && st.workers[g] != Done
    ensures Continue(st).value.workers == st.workers ==> !Unawaited(Continue(st).value, g)
  {
    hide Ownership, Holding;
    EndEffect(st, LogoutOwned(st.command));
  }

  lemma {:induction false} AwaitedEnds(st: State, schedule: seq<Action>, g: nat)
    requires Inv(st) && g < |st.workers| && !Unawaited(st, g)
    ensures !Outlives(st, schedule, g)
    decreases |schedule|
  {
    hide Step;
    if schedule == [] {
    } else if Step(st, schedule[0]).Some? {
      hide Inv, Unawaited;
      AwaitedStays(st, schedule[0], g);
      StepKeepsInv(st, schedule[0]);
      AwaitedEnds(Step(st, schedule[0]).value, schedule[1..], g);
    }
  }

  /** Exactly which workers Close can leave behind, in every reachable state: the live ones
      that the command under way, if any, does not wait for. */
  lemma OutlivesExactly(st: State, g: nat)
    requires Inv(st) && !st.closed && g < |st.workers|
    ensures (exists schedule :: Outlives(st, schedule, g)) <==> Unawaited(st, g)
  {
    hide Inv, Outlives, Unawaited;
    if Unawaited(st, g) {
      UnawaitedOutlives(st, g);
    } else {
      forall schedule ensures !Outlives(st, schedule, g) {
        AwaitedEnds(st, schedule, g);
      }
    }
  }

  /** A schedule in which worker 0 fails to log in and is still to report when a second connect
      is accepted, fails too and is followed by Close. */
  const OVERLAP := [Connect, WorkerStep(0, DialFails), WorkerStep(0, DialFails), WorkerStep(0, DialFails),
                    Connect, WorkerStep(1, DialFails), WorkerStep(1, DialFails), WorkerStep(1, DialFails),
                    WorkerStep(1, DialFails), WorkerStep(1, DialFails), Close, CommandStep]

  function First(w: Worker, phase: Phase): State {
    State(phase, None, [w], [false], [], Idle, false, false)
  }

  function Second(w: Worker, phase: Phase, command: Command, closed: bool): State {
    State(phase, None, [Reporting, w], [false, false], [], command, closed, true)
  }

  lemma FirstSteps()
    ensures Step(First(Opening, Connecting), WorkerStep(0, DialFails)) == Some(First(Finishing(None), Connecting))
    ensures Step(First(Finishing(None), Connecting), WorkerStep(0, DialFails)) == Some(First(Closing(None), Disconnected))
    ensures Step(First(Closing(None), Disconnected), WorkerStep(0, DialFails)) == Some(First(Reporting, Disconnected))
  {
    assert forall a: Worker, b: Worker :: [a][0 := b] == [b];
  }

  lemma Connects()
    ensures Step(INITIAL, Connect) == Some(First(Opening, Connecting))
    ensures Step(First(Reporting, Disconnected), Connect) == Some(Second(Opening, Connecting, Idle, false))
  {
    assert [] + [Opening] == [Opening] && [] + [false] == [false];
    assert Reporting in [Reporting] && [Reporting] + [Opening] == [Reporting, Opening] && [false] + [false] == [false, false];
  }

  lemma SecondSteps()
    ensures Step(Second(Opening, Connecting, Idle, false), WorkerStep(1, DialFails))
         == Some(Second(Finishing(None), Connecting, Idle, false))
    ensures Step(Second(Finishing(None), Connecting, Idle, false), WorkerStep(1, DialFails))
         == Some(Second(Closing(None), Disconnected, Idle, false))
    ensures Step(Second(Closing(None), Disconnected, Idle, false), WorkerStep(1, DialFails))
         == Some(Second(Reporting, Disconnected, Idle, false))
    ensures Step(Second(Reporting, Disconnected, Idle, false), WorkerStep(1, DialFails))
         == Some(Second(Exiting, Disconnected, Idle, false))
    ensures Step(Second(Exiting, Disconnected, Idle, false), WorkerStep(1, DialFails))
         == Some(Second(Done, Disconnected, Idle, false))
  {
    assert forall a: Worker, b: Worker :: [Reporting, a][1 := b] == [Reporting, b];
  }

  lemma CloseSteps()
    ensures Step(Second(Done, Disconnected, Idle, false), Close) == Some(Second(Done, Disconnected, CloseWaiting, false))
    ensures Step(Second(Done, Disconnected, CloseWaiting, false), CommandStep)
         == Some(Second(Done, Disconnected, Idle, true))
  {
  }

  /** Overlapping connects do leave a worker that has yet to report after the output is closed:
      Close waits for the last worker only. */
  lemma OverlapOutlivesClose()
    ensures Run(INITIAL, OVERLAP).Some?
    ensures var st := Run(INITIAL, OVERLAP).value;
            st.closed && st.overlapped && |st.workers| == 2 && st.workers[0] == Reporting
  {
    hide Step, Run;
    Connects();
    FirstSteps();
    SecondSteps();
    CloseSteps();
    var states := [
      First(Opening, Connecting), First(Finishing(None), Connecting), First(Closing(None), Disconnected),
      First(Reporting, Disconnected), Second(Opening, Connecting, Idle, false),
      Second(Finishing(None), Connecting, Idle, false), Second(Closing(None), Disconnected, Idle, false),
      Second(Reporting, Disconnected, Idle, false), Second(Exiting, Disconnected, Idle, false),
      Second(Done, Disconnected, Idle, false), Second(Done, Disconnected, CloseWaiting, false),
      Second(Done, Disconnected, Idle, true)];
    Chain(INITIAL, OVERLAP, states);
  }

}
