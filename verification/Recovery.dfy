/** Losing and restoring the link: the retry window, the recovery loop, the statuses Run reports
    and what a fatal change_pass does to them. */
module Recovery {
  import opened Bytes
  import opened Codec

  // ---- the recovery window ----

  /** Durations are nanoseconds. */
  const MILLISECOND := 1_000_000
  const SECOND := 1_000_000_000
  const DEFAULT_REQUEST_TIMEOUT := 20 * SECOND
  const CONNECT_TIMEOUT := 10 * SECOND

  /** The session lifetime: the caller's override first, otherwise the server's value. */
  function EffectiveTTL(override: int, server: Option<i32>): int {
    if override != 0 then
      if override < 20 * SECOND then 20 * SECOND
      else if override < 300 * SECOND then override
      else override / SECOND * MILLISECOND
    else
      match server
      case None => 120 * SECOND
      case Some(v) => if v < 0x14 then 20 * SECOND else if v < 300 then v * SECOND else v * MILLISECOND
  }

  function RequestTimeout(request: int, ttl: int): int {
    var r := if request <= 0 then DEFAULT_REQUEST_TIMEOUT else request;
    if ttl > 0 && r >= ttl then ttl / 2 else r
  }

  /** An override of v seconds means what v means in the server's reply, except that 0 stands
      for no override. */
  lemma OverrideMeansServerValue(v: i32, server: Option<i32>)
    requires v != 0
    ensures EffectiveTTL(v * SECOND, server) == EffectiveTTL(0, Some(v))
  {
    assert v * SECOND / SECOND == v;
  }

  /** Whatever is configured, the window is at least 300 ms long, the request timeout is
      positive and shorter than the window, and normalizing it again changes nothing. */
  lemma TimeoutsFit(request: int, override: int, server: Option<i32>)
    ensures var ttl := EffectiveTTL(override, server);
            var t := RequestTimeout(request, ttl);
            && ttl >= 300 * MILLISECOND && 0 < t < ttl
            && RequestTimeout(t, ttl) == t && (0 < request < ttl ==> t == request)
  {
    assert override >= 300 * SECOND ==> override / SECOND >= 300;
  }

  /** The window in figures: 120 s unless the server says otherwise, never below 20 s, and from
      300 on the server's figure is one of milliseconds. */
  lemma WindowInFigures(v: i32, override: int)
    ensures EffectiveTTL(0, None) == 120_000_000_000
    ensures v < 20 ==> EffectiveTTL(0, Some(v)) == 20_000_000_000
    ensures 20 <= v < 300 ==> EffectiveTTL(0, Some(v)) == v * 1_000_000_000
    ensures v >= 300 ==> EffectiveTTL(0, Some(v)) == v * 1_000_000
    ensures override != 0 && override < 20_000_000_000 ==> EffectiveTTL(override, Some(v)) == 20_000_000_000
    ensures 20_000_000_000 <= override < 300_000_000_000 ==> EffectiveTTL(override, Some(v)) == override
    ensures override >= 300_000_000_000 ==> EffectiveTTL(override, Some(v)) == override / 1_000_000_000 * 1_000_000
    ensures RequestTimeout(0, EffectiveTTL(0, None)) == 20_000_000_000
  {
  }

  // ---- the recovery loop ----

  datatype LinkError =
    | ByeReceived | IncorrectRelogin | IncorrectRecover | PayloadCRC(typ: byte) | HeaderCRC
    | ServerMismatch | Network | TimedOut | MarkedFatal | ConnectionGone

  const RQ_RECOVER: byte := 64

  predicate IsFatal(e: LinkError) {
    || e.ByeReceived? || e.IncorrectRelogin? || e.IncorrectRecover?
    || (e.PayloadCRC? && e.typ == RQ_RECOVER)
  }

  /** What happens around attempt k: whether the context is alive before it and during the
      pause, how long the attempt needs and how it ends. */
  datatype Try = Try(alive: bool, slept: bool, took: nat, error: Option<LinkError>)

  /** An attempt as it was made, on a clock that starts with the recovery. */
  datatype Made = Made(start: nat, took: nat, error: Option<LinkError>)

  datatype Ending = Recovered | Refused(error: LinkError) | Expired(error: LinkError) | Cancelled

  function Attempted(t: Try, now: nat, limit: nat): Made
    requires now <= limit
  {
    var budget := if limit - now > CONNECT_TIMEOUT then CONNECT_TIMEOUT else limit - now;
    if t.took > budget then Made(now, budget, Some(TimedOut)) else Made(now, t.took, t.error)
  }

  /** When attempt k is due: at once, then one second after the end of the previous one. */
  function Due(log: seq<Made>, k: nat): nat
    requires k <= |log|
  {
    if k == 0 then 0 else log[k - 1].start + log[k - 1].took + SECOND
  }

  predicate Reached(t: Try, k: nat) {
    t.alive && (k > 0 ==> t.slept)
  }

  predicate MadeInTime(log: seq<Made>, k: nat, limit: nat, t: Try)
    requires k < |log|
  {
    Due(log, k) <= limit && Reached(t, k) && log[k] == Attempted(t, Due(log, k), limit)
  }

  predicate Paced(log: seq<Made>, limit: nat, tries: nat -> Try) {
    forall k: nat :: k < |log| ==> MadeInTime(log, k, limit, tries(k))
  }

  predicate Retryable(m: Made) {
    m.error.Some? && !IsFatal(m.error.value)
  }

  predicate Ends(ending: Ending, log: seq<Made>, limit: nat, tries: nat -> Try) {
    && (forall k :: 0 <= k < |log| - 1 ==> Retryable(log[k]))
    && match ending
       case Recovered => log != [] && log[|log| - 1].error == None
       case Refused(e) => log != [] && log[|log| - 1].error == Some(e) && IsFatal(e)
       case Expired(e) =>
         && log != [] && log[|log| - 1].error == Some(e) && !IsFatal(e)
         && Reached(tries(|log|), |log|) && Due(log, |log|) > limit
       case Cancelled => (log != [] ==> Retryable(log[|log| - 1])) && !Reached(tries(|log|), |log|)
  }

  method Recover(limit: nat, tries: nat -> Try) returns (ending: Ending, log: seq<Made>)
    ensures Paced(log, limit, tries) && Ends(ending, log, limit, tries)
  {
    var now: nat, attempt: nat := 0, 0;
    log := [];
    while true
      invariant attempt == |log| && Paced(log, limit, tries)
      invariant forall k :: 0 <= k < |log| ==> Retryable(log[k])
      invariant now + (if attempt > 0 then SECOND else 0) == Due(log, attempt) <= limit + SECOND
      decreases limit + SECOND - now - (if attempt > 0 then SECOND else 0), attempt == 0
    {
      if !tries(attempt).alive {
        return Cancelled, log;
      }
      if attempt > 0 {
        if !tries(attempt).slept {
          return Cancelled, log;
        }
        now := now + SECOND;
      }
      if now > limit {
        return Expired(log[attempt - 1].error.value), log;
      }
      var m := Attempted(tries(attempt), now, limit);
      PacedStep(log, m, limit, tries);
      log, now, attempt := log + [m], now + m.took, attempt + 1;
      if m.error == None {
        return Recovered, log;
      }
      if IsFatal(m.error.value) {
        return Refused(m.error.value), log;
      }
    }
  }

  lemma PacedStep(log: seq<Made>, m: Made, limit: nat, tries: nat -> Try)
    requires Paced(log, limit, tries) && Due(log, |log|) <= limit && Reached(tries(|log|), |log|)
    requires m == Attempted(tries(|log|), Due(log, |log|), limit)
    ensures Paced(log + [m], limit, tries)
    ensures Due(log + [m], |log| + 1) == m.start + m.took + SECOND <= limit + SECOND
  {
    var longer := log + [m];
    assert forall k: nat :: k <= |log| ==> Due(longer, k) == Due(log, k);
    forall k: nat | k < |longer| ensures MadeInTime(longer, k, limit, tries(k)) {
      assert k < |log| ==> MadeInTime(log, k, limit, tries(k));
    }
  }

  lemma {:induction false} DueGrows(log: seq<Made>, limit: nat, tries: nat -> Try, k: nat)
    requires Paced(log, limit, tries) && k <= |log|
    ensures k * SECOND <= Due(log, k) <= limit + SECOND
  {
    if k > 0 {
      DueGrows(log, limit, tries, k - 1);
      assert MadeInTime(log, k - 1, limit, tries(k - 1));
    }
  }

  /** A recovery makes at most floor(window / 1 s) + 1 attempts, all inside the window, and
      is over no later than one second after the window. */
  lemma RecoveryBounded(ending: Ending, log: seq<Made>, limit: nat, tries: nat -> Try)
    requires Paced(log, limit, tries) && Ends(ending, log, limit, tries)
    ensures |log| <= limit / SECOND + 1
    ensures forall k :: 0 <= k < |log| ==> log[k].start + log[k].took <= limit
    ensures Due(log, |log|) <= limit + SECOND
  {
    if log != [] {
      DueGrows(log, limit, tries, |log| - 1);
      DueGrows(log, limit, tries, |log|);
      assert MadeInTime(log, |log| - 1, limit, tries(|log| - 1));
    }
    forall k: nat | k < |log| ensures log[k].start + log[k].took <= limit {
      assert MadeInTime(log, k, limit, tries(k));
    }
  }

  /** Exactly a BYE, a wrong answer to either request and a damaged RQ_RECOVER answer end a
      recovery at its first attempt; after any other error there is another one while the window
      lasts. */
  lemma FatalErrors(ending: Ending, log: seq<Made>, limit: nat, tries: nat -> Try, e: LinkError)
    requires Paced(log, limit, tries) && Ends(ending, log, limit, tries)
    requires forall k: nat :: tries(k) == Try(true, true, 0, Some(e))
    ensures ending == Refused(e) <==> e in {ByeReceived, IncorrectRelogin, IncorrectRecover, PayloadCRC(64)}
    ensures if ending == Refused(e) then |log| == 1 else ending == Expired(e)
  {
    assert Reached(tries(|log|), |log|);
    SteadyDue(log, limit, tries, |log|);
    if log != [] {
      assert MadeInTime(log, |log| - 1, limit, tries(|log| - 1));
      assert MadeInTime(log, 0, limit, tries(0));
    }
  }

  /** No attempt takes longer than ten seconds or outlasts the window: one that would is cut off
      there and has timed out. */
  lemma AttemptsCut(log: seq<Made>, limit: nat, tries: nat -> Try, k: nat)
    requires Paced(log, limit, tries) && k < |log|
    ensures var room := if limit - log[k].start < 10_000_000_000 then limit - log[k].start else 10_000_000_000;
            && log[k].took == (if tries(k).took <= room then tries(k).took else room)
            && log[k].error == if tries(k).took <= room then tries(k).error else Some(TimedOut)
    ensures log[k].start == if k == 0 then 0 else log[k - 1].start + log[k - 1].took + 1_000_000_000
  {
    assert MadeInTime(log, k, limit, tries(k));
  }

  /** The bound is met when every attempt fails at once. */
  lemma BoundIsTight(ending: Ending, log: seq<Made>, limit: nat, tries: nat -> Try, e: LinkError)
    requires Paced(log, limit, tries) && Ends(ending, log, limit, tries)
    requires !IsFatal(e) && forall k: nat :: tries(k) == Try(true, true, 0, Some(e))
    ensures ending == Expired(e) && |log| == limit / SECOND + 1
  {
    assert Reached(tries(|log|), |log|);
    SteadyDue(log, limit, tries, |log|);
    if log != [] {
      assert MadeInTime(log, |log| - 1, limit, tries(|log| - 1));
    }
    RecoveryBounded(ending, log, limit, tries);
  }

  lemma {:induction false} SteadyDue(log: seq<Made>, limit: nat, tries: nat -> Try, k: nat)
    requires Paced(log, limit, tries) && k <= |log| && forall i: nat :: tries(i).took == 0
    ensures Due(log, k) == k * SECOND
  {
    if k > 0 {
      SteadyDue(log, limit, tries, k - 1);
      assert MadeInTime(log, k - 1, limit, tries(k - 1));
    }
  }

  lemma {:induction false} PacedAgree(a: seq<Made>, b: seq<Made>, limit: nat, tries: nat -> Try, k: nat)
    requires Paced(a, limit, tries) && Paced(b, limit, tries) && k <= |a| && k <= |b|
    ensures a[..k] == b[..k] && Due(a, k) == Due(b, k)
  {
    if k > 0 {
      PacedAgree(a, b, limit, tries, k - 1);
      assert MadeInTime(a, k - 1, limit, tries(k - 1)) && MadeInTime(b, k - 1, limit, tries(k - 1));
      assert a[..k] == a[..k - 1] + [a[k - 1]] && b[..k] == b[..k - 1] + [b[k - 1]];
    }
  }

  /** Whether no further attempt can follow a log. */
  predicate Over(log: seq<Made>, limit: nat, tries: nat -> Try) {
    || (log != [] && !Retryable(log[|log| - 1]))
    || !Reached(tries(|log|), |log|) || Due(log, |log|) > limit
  }

  lemma EndsOver(ending: Ending, log: seq<Made>, limit: nat, tries: nat -> Try)
    requires Ends(ending, log, limit, tries)
    ensures Over(log, limit, tries)
  {
    hide Due, Reached;
  }

  lemma NotOverBefore(ending: Ending, log: seq<Made>, limit: nat, tries: nat -> Try, n: nat)
    requires Paced(log, limit, tries) && Ends(ending, log, limit, tries) && n < |log|
    ensures !Over(log[..n], limit, tries)
  {
    hide Attempted, Reached, IsFatal;
    assert MadeInTime(log, n, limit, tries(n));
    assert n > 0 ==> log[..n][n - 1] == log[n - 1];
    assert Due(log[..n], n) == Due(log, n);
    assert n > 0 ==> Retryable(log[n - 1]) && log[..n][n - 1] == log[n - 1];
  }

  lemma NotShorter(a: Ending, la: seq<Made>, b: Ending, lb: seq<Made>, limit: nat, tries: nat -> Try)
    requires Paced(la, limit, tries) && Ends(a, la, limit, tries)
    requires Paced(lb, limit, tries) && Ends(b, lb, limit, tries)
    ensures |la| >= |lb|
  {
    hide Over, Ends, Paced;
    if |la| < |lb| {
      PacedAgree(la, lb, limit, tries, |la|);
      assert la[..|la|] == la;
      EndsOver(a, la, limit, tries);
      NotOverBefore(b, lb, limit, tries, |la|);
    }
  }

  /** The surroundings determine the attempts and the outcome, so the contract of Recover
      leaves nothing open. */
  lemma RecoveryDetermined(a: Ending, la: seq<Made>, b: Ending, lb: seq<Made>, limit: nat, tries: nat -> Try)
    requires Paced(la, limit, tries) && Ends(a, la, limit, tries)
    requires Paced(lb, limit, tries) && Ends(b, lb, limit, tries)
    ensures a == b && la == lb
  {
    hide Paced, Reached;
    NotShorter(a, la, b, lb, limit, tries);
    NotShorter(b, lb, a, la, limit, tries);
    PacedAgree(la, lb, limit, tries, |la|);
    assert la[..|la|] == la && lb[..|lb|] == lb;
  }

  // ---- the Run loop and the fatal change_pass ----

  /** A lost link was closed by the other side, or by this client's own change_pass. */
  datatype Loss = Remote | OwnClose

  datatype Polled = Reply(more: bool) | Lost(loss: Loss) | OtherError

  /** What the handler is given: an event batch, recover="true", connected="true" or
      connected="false". */
  datatype Event = Batch | Losing(loss: Loss) | Restored | Down

  datatype Where =
    | Resting | Checking | Polling | Judging(polled: Polled) | Handling(more: bool)
    | Announcing(loss: Loss) | Recovering | Reporting(ok: bool) | Returned

  datatype State = State(where: Where, log: seq<Event>, fatal: bool, socketClosed: bool, cancelled: bool)

  const START := State(Resting, [], false, false, false)

  /** A step of Run with the choices of its surroundings, a cancellation, or one of the two
      steps with which change_pass ends the session. */
  datatype Action = RunStep(timer: bool, polled: Polled, handled: bool, recovered: bool) | Cancel | MarkFatal | CloseSocket

  function Notify(st: State, e: Event, next: Where): State {
    st.(log := st.log + [e], where := next)
  }

  function RunOnce(st: State, a: Action): Option<State>
    requires a.RunStep?
  {
    match st.where
    case Resting => Some(st.(where := if st.cancelled && !a.timer then Returned else Checking))
    case Checking => Some(st.(where := if st.fatal then Returned else Polling))
    case Polling =>
      if a.polled == Lost(OwnClose) && !st.socketClosed then None else Some(st.(where := Judging(a.polled)))
    case Judging(p) =>
      if st.fatal then Some(st.(where := Returned))
      else (match p
            case Reply(more) => Some(st.(where := Handling(more)))
            case OtherError => Some(st.(where := Returned))
            case Lost(l) => Some(st.(where := if st.cancelled then Returned else Announcing(l))))
    case Handling(more) =>
      Some(Notify(st, Batch, if !a.handled then Returned else if more then Polling else Resting))
    case Announcing(l) => Some(Notify(st, Losing(l), if a.handled then Recovering else Returned))
    case Recovering => Some(st.(where := if st.cancelled then Returned else Reporting(a.recovered)))
    case Reporting(ok) =>
      Some(Notify(st, if ok then Restored else Down, if ok && a.handled then Resting else Returned))
    case Returned => None
  }

  /** change_pass marks the failure and then closes the socket; `markFirst` is false in the
      variant with the opposite order. */
  function Step(markFirst: bool, st: State, a: Action): Option<State> {
    match a
    case RunStep(_, _, _, _) => RunOnce(st, a)
    case Cancel => Some(st.(cancelled := true))
    case MarkFatal => if markFirst || st.socketClosed then Some(st.(fatal := true)) else None
    case CloseSocket => if !markFirst || st.fatal then Some(st.(socketClosed := true)) else None
  }

  function Run(markFirst: bool, st: State, schedule: seq<Action>): Option<State>
    decreases |schedule|
  {
    if schedule == [] then Some(st)
    else match Step(markFirst, st, schedule[0]) case None => None case Some(next) => Run(markFirst, next, schedule[1..])
  }

  lemma Taken(markFirst: bool, st: State, schedule: seq<Action>, end: State)
    requires schedule == [] && st == end
    ensures Run(markFirst, st, schedule) == Some(end)
  {
  }

  lemma Unfold(markFirst: bool, st: State, a: Action, next: State, rest: seq<Action>)
    requires Step(markFirst, st, a) == Some(next)
    ensures Run(markFirst, st, [a] + rest) == Run(markFirst, next, rest)
  {
    assert ([a] + rest)[1..] == rest;
  }

  /** (event batch | recover, connected)* */
  predicate Balanced(log: seq<Event>) {
    log == [] || (log[0] == Batch && Balanced(log[1..]))
    || (|log| > 1 && log[0].Losing? && log[1] == Restored && Balanced(log[2..]))
  }

  /** A balanced log with an optional final recover, or recover and connected="false". */
  predicate WellFormed(log: seq<Event>) {
    || Balanced(log)
    || (|log| > 0 && Balanced(log[..|log| - 1]) && log[|log| - 1].Losing?)
    || (|log| > 1 && Balanced(log[..|log| - 2]) && log[|log| - 2].Losing? && log[|log| - 1] == Down)
  }

  lemma {:induction false} BalancedGrows(log: seq<Event>, more: seq<Event>)
    requires Balanced(log) && Balanced(more)
    ensures Balanced(log + more)
    decreases |log|
  {
    if log == [] {
      assert log + more == more;
    } else if log[0] == Batch {
      BalancedGrows(log[1..], more);
      assert (log + more)[1..] == log[1..] + more;
    } else {
      BalancedGrows(log[2..], more);
      assert (log + more)[2..] == log[2..] + more;
    }
  }

  predicate Open(w: Where) { w.Recovering? || w.Reporting? }

  /** The log is open while Run is between recover="true" and what follows it. */
  predicate Told(st: State) {
    if Open(st.where) then
      st.log != [] && Balanced(st.log[..|st.log| - 1]) && st.log[|st.log| - 1].Losing?
    else if st.where.Returned? then WellFormed(st.log)
    else Balanced(st.log)
  }

  lemma BatchTold(log: seq<Event>)
    requires Balanced(log)
    ensures Balanced(log + [Batch])
  {
    EmptyBalanced(Batch);
    BalancedGrows(log, [Batch]);
  }

  lemma LossTold(log: seq<Event>, e: Event)
    requires Balanced(log) && e.Losing?
    ensures var l := log + [e]; Balanced(l[..|l| - 1]) && l[|l| - 1] == e && WellFormed(l)
  {
    hide Balanced;
    assert (log + [e])[..|log|] == log;
  }

  lemma OutcomeTold(log: seq<Event>, e: Event)
    requires log != [] && Balanced(log[..|log| - 1]) && log[|log| - 1].Losing? && (e == Restored || e == Down)
    ensures e == Restored ==> Balanced(log + [e])
    ensures WellFormed(log + [e])
  {
    hide Balanced;
    var n := |log| - 1;
    assert log + [e] == log[..n] + [log[n], e];
    assert (log + [e])[..n] == log[..n];
    if e == Restored {
      PairBalanced(log[n]);
      BalancedGrows(log[..n], [log[n], e]);
    }
  }

  lemma StepTells(markFirst: bool, st: State, a: Action)
    requires Told(st) && Step(markFirst, st, a).Some?
    ensures Told(Step(markFirst, st, a).value)
  {
    hide Balanced, WellFormed, Told;
    if a.RunStep? && (st.where.Handling? || st.where.Announcing? || st.where.Reporting?) {
      NotifyTells(st, a);
    } else {
      SilentTells(st, Step(markFirst, st, a).value);
    }
  }

  lemma SilentTells(st: State, st': State)
    requires Told(st) && st'.log == st.log
    requires st'.where == st.where || (!st.where.Returned? && (st'.where.Returned? || (Open(st.where) <==> Open(st'.where))))
    ensures Told(st')
  {
    hide Balanced;
  }

  lemma NotifyTells(st: State, a: Action)
    requires Told(st) && a.RunStep? && (st.where.Handling? || st.where.Announcing? || st.where.Reporting?)
    ensures RunOnce(st, a).Some? && Told(RunOnce(st, a).value)
  {
    hide Balanced;
    match st.where
    case Handling(_) => BatchTold(st.log);
    case Announcing(l) => LossTold(st.log, Losing(l));
    case Reporting(ok) => OutcomeTold(st.log, if ok then Restored else Down);
  }

  lemma EmptyBalanced(e: Event)
    ensures Balanced([]) && (e == Batch ==> Balanced([e]))
  {
  }

  lemma PairBalanced(e: Event)
    requires e.Losing?
    ensures Balanced([e, Restored])
  {
    assert [e, Restored][2..] == [];
  }

  lemma {:induction false} RunTells(markFirst: bool, st: State, schedule: seq<Action>)
    requires Told(st) && Run(markFirst, st, schedule).Some?
    ensures Told(Run(markFirst, st, schedule).value)
    decreases |schedule|
  {
    hide Told, Step;
    if schedule != [] {
      StepTells(markFirst, st, schedule[0]);
      RunTells(markFirst, Step(markFirst, st, schedule[0]).value, schedule[1..]);
    }
  }

  /** Over every interleaving the handler sees event batches and recover/connected pairs, then
      at most one open recover or a recover followed by connected="false". */
  lemma StatusesWellFormed(schedule: seq<Action>)
    requires Run(true, START, schedule).Some?
    ensures var st := Run(true, START, schedule).value;
            && WellFormed(st.log)
            && (st.log != [] && st.log[|st.log| - 1] == Down ==> st.where == Returned)
            && (st.where.Resting? || st.where.Checking? || st.where.Polling? ==> Balanced(st.log))
  {
    hide Run;
    RunTells(true, START, schedule);
    var st := Run(true, START, schedule).value;
    if Balanced(st.log) {
      BalancedNotDown(st.log);
    }
  }

  lemma {:induction false} BalancedNotDown(log: seq<Event>)
    requires Balanced(log)
    ensures Down !in log
    decreases |log|
  {
    if log == [] {
    } else if log[0] == Batch {
      BalancedNotDown(log[1..]);
      assert log == [log[0]] + log[1..];
    } else {
      BalancedNotDown(log[2..]);
      assert log == [log[0], log[1]] + log[2..];
    }
  }

  /** The own close is preceded by the mark, so a poll that fails on it finds the mark. */
  predicate MarkedBeforeClosed(st: State) {
    && (st.socketClosed ==> st.fatal)
    && (st.where == Judging(Lost(OwnClose)) ==> st.fatal)
    && st.where != Announcing(OwnClose)
    && Losing(OwnClose) !in st.log
  }

  lemma {:induction false} MarkHolds(st: State, schedule: seq<Action>)
    requires MarkedBeforeClosed(st) && Run(true, st, schedule).Some?
    ensures MarkedBeforeClosed(Run(true, st, schedule).value)
    decreases |schedule|
  {
    if schedule != [] {
      MarkHolds(Step(true, st, schedule[0]).value, schedule[1..]);
    }
  }

  /** A socket that change_pass closed never starts a recovery. */
  lemma OwnCloseNotRecovered(schedule: seq<Action>)
    requires Run(true, START, schedule).Some?
    ensures Losing(OwnClose) !in Run(true, START, schedule).value.log
  {
    hide Run;
    MarkHolds(START, schedule);
  }

  function Losses(log: seq<Event>): nat {
    if log == [] then 0 else Losses(log[..|log| - 1]) + if log[|log| - 1].Losing? then 1 else 0
  }

  /** Once the failure is marked no further recovery begins, except one already judged. */
  lemma {:induction false} FatalEndsRecoveries(st: State, schedule: seq<Action>)
    requires st.fatal && !st.where.Announcing? && Run(true, st, schedule).Some?
    ensures Losses(Run(true, st, schedule).value.log) == Losses(st.log)
    decreases |schedule|
  {
    hide Step;
    if schedule != [] {
      FatalStep(st, schedule[0]);
      FatalEndsRecoveries(Step(true, st, schedule[0]).value, schedule[1..]);
    }
  }

  lemma FatalStep(st: State, a: Action)
    requires st.fatal && !st.where.Announcing? && Step(true, st, a).Some?
    ensures var next := Step(true, st, a).value;
            next.fatal && !next.where.Announcing? && Losses(next.log) == Losses(st.log)
  {
    hide Losses;
    LossesGrow(st.log, Batch);
    LossesGrow(st.log, Restored);
    LossesGrow(st.log, Down);
  }

  // ---- what the handler is told about each recovery ----

  datatype Outcome = Succeeded | Failed | Interrupted

  /** How a recovery that ends with this step came out. */
  function OutcomeOf(st: State, a: Action): seq<Outcome> {
    if !a.RunStep? || st.where != Recovering then []
    else [if st.cancelled then Interrupted else if a.recovered then Succeeded else Failed]
  }

  /** The outcomes of the recoveries of a schedule, in order. */
  function Outcomes(markFirst: bool, st: State, schedule: seq<Action>): seq<Outcome>
    decreases |schedule|
  {
    if schedule == [] then []
    else match Step(markFirst, st, schedule[0])
         case None => []
         case Some(next) => OutcomeOf(st, schedule[0]) + Outcomes(markFirst, next, schedule[1..])
  }

  predicate LastLosing(log: seq<Event>) { log != [] && log[|log| - 1].Losing? }

  /** An event that follows recover="true" tells the outcome of that recovery. */
  predicate Answered(log: seq<Event>, outs: seq<Outcome>, i: nat)
    requires i < |log|
  {
    && (log[i].Losing? && i + 1 < |log| ==>
          var k := Losses(log[..i]);
          && k < |outs|
          && ((log[i + 1] == Restored && outs[k] == Succeeded) || (log[i + 1] == Down && outs[k] == Failed)))
    && (log[i] == Restored || log[i] == Down ==> i > 0 && log[i - 1].Losing?)
  }

  /** Every finished recovery has its outcome told or about to be told; an interrupted one is
      the last. */
  predicate Tied(st: State, outs: seq<Outcome>) {
    && (forall i: nat :: i < |st.log| ==> Answered(st.log, outs, i))
    && (if st.where.Recovering? then LastLosing(st.log) && |outs| + 1 == Losses(st.log)
        else if st.where.Reporting? then
          LastLosing(st.log) && |outs| == Losses(st.log) && outs[|outs| - 1] == if st.where.ok then Succeeded else Failed
        else if st.where.Returned? && LastLosing(st.log) then
          |outs| + 1 == Losses(st.log) || (|outs| == Losses(st.log) && outs[|outs| - 1] == Interrupted)
        else |outs| == Losses(st.log) && !LastLosing(st.log))
  }

  lemma {:induction false} LossesBefore(log: seq<Event>, i: nat)
    requires i < |log|
    ensures Losses(log[..i]) + (if log[i].Losing? then 1 else 0) <= Losses(log)
    decreases |log|
  {
    if i < |log| - 1 {
      LossesBefore(log[..|log| - 1], i);
      assert log[..|log| - 1][..i] == log[..i];
    }
  }

  lemma LossesGrow(log: seq<Event>, e: Event)
    ensures Losses(log + [e]) == Losses(log) + if e.Losing? then 1 else 0
  {
    assert (log + [e])[..|log|] == log;
  }

  /** What was told stays so when outcomes are added. */
  lemma ToldStays(log: seq<Event>, outs: seq<Outcome>, more: seq<Outcome>)
    requires forall i: nat :: i < |log| ==> Answered(log, outs, i)
    ensures forall i: nat :: i < |log| ==> Answered(log, outs + more, i)
  {
    hide Losses;
    forall i: nat | i < |log| ensures Answered(log, outs + more, i) {
      assert Answered(log, outs, i);
    }
  }

  lemma ToldGrows(log: seq<Event>, outs: seq<Outcome>, e: Event)
    requires forall i: nat :: i < |log| ==> Answered(log, outs, i)
    requires LastLosing(log) ==>
               outs != [] && |outs| == Losses(log)
               && ((e == Restored && outs[|outs| - 1] == Succeeded) || (e == Down && outs[|outs| - 1] == Failed))
    requires e == Restored || e == Down ==> LastLosing(log)
    ensures forall i: nat :: i < |log + [e]| ==> Answered(log + [e], outs, i)
  {
    var l := log + [e];
    forall i: nat | i < |l| ensures Answered(l, outs, i) {
      if i < |log| {
        assert Answered(log, outs, i) && l[..i] == log[..i];
        if i == |log| - 1 && log[i].Losing? {
          assert log[..i] + [log[i]] == log;
          LossesGrow(log[..i], log[i]);
        }
      }
    }
  }

  lemma StepTied(markFirst: bool, st: State, a: Action, outs: seq<Outcome>)
    requires Tied(st, outs) && Step(markFirst, st, a).Some?
    ensures Tied(Step(markFirst, st, a).value, outs + OutcomeOf(st, a))
  {
    hide Tied, OutcomeOf;
    if a.RunStep? && (st.where.Handling? || st.where.Announcing? || st.where.Reporting?) {
      NotifyTied(st, a, outs);
    } else {
      SilentTied(markFirst, st, a, outs);
    }
  }

  lemma SilentTied(markFirst: bool, st: State, a: Action, outs: seq<Outcome>)
    requires Tied(st, outs) && Step(markFirst, st, a).Some?
    requires !(a.RunStep? && (st.where.Handling? || st.where.Announcing? || st.where.Reporting?))
    ensures Tied(Step(markFirst, st, a).value, outs + OutcomeOf(st, a))
  {
    hide Answered, Losses;
    ToldStays(st.log, outs, OutcomeOf(st, a));
    assert outs + [] == outs;
  }

  lemma NotifyTied(st: State, a: Action, outs: seq<Outcome>)
    requires Tied(st, outs) && a.RunStep? && (st.where.Handling? || st.where.Announcing? || st.where.Reporting?)
    ensures RunOnce(st, a).Some? && Tied(RunOnce(st, a).value, outs + OutcomeOf(st, a))
  {
    hide Answered;
    assert LastLosing(st.log) ==> Losses(st.log) > 0;
    hide Losses;
    var e := RunOnce(st, a).value.log[|st.log|];
    assert RunOnce(st, a).value.log == st.log + [e] && outs + OutcomeOf(st, a) == outs;
    ToldGrows(st.log, outs, e);
    LossesGrow(st.log, e);
  }

  lemma {:induction false} RunTied(markFirst: bool, st: State, schedule: seq<Action>, outs: seq<Outcome>)
    requires Tied(st, outs) && Run(markFirst, st, schedule).Some?
    ensures Tied(Run(markFirst, st, schedule).value, outs + Outcomes(markFirst, st, schedule))
    decreases |schedule|
  {
    hide Tied, Step;
    if schedule == [] {
      assert outs + [] == outs;
    } else {
      var next, more := Step(markFirst, st, schedule[0]).value, OutcomeOf(st, schedule[0]);
      StepTied(markFirst, st, schedule[0], outs);
      RunTied(markFirst, next, schedule[1..], outs + more);
      assert outs + more + Outcomes(markFirst, next, schedule[1..]) == outs + (more + Outcomes(markFirst, next, schedule[1..]));
    }
  }

  /** Over every run the k-th recover="true" is followed by connected="true" exactly if the k-th
      recovery succeeded without a cancellation, and by connected="false" exactly if it failed
      without one (its report may still be due); Run has returned after connected="false". */
  lemma OutcomesTold(markFirst: bool, schedule: seq<Action>, i: nat)
    requires Run(markFirst, START, schedule).Some? && i < |Run(markFirst, START, schedule).value.log|
    ensures var st, outs := Run(markFirst, START, schedule).value, Outcomes(markFirst, START, schedule);
            var k, last := Losses(st.log[..i]), i + 1 == |st.log|;
            && (st.log[i].Losing? && !(last && st.where.Reporting?) ==>
                  && (!last && st.log[i + 1] == Restored <==> k < |outs| && outs[k] == Succeeded)
                  && (!last && st.log[i + 1] == Down <==> k < |outs| && outs[k] == Failed))
            && (st.log[i] == Restored || st.log[i] == Down ==> i > 0 && st.log[i - 1].Losing?)
            && (st.log[i].Losing? && last && st.where.Reporting? ==>
                  k + 1 == |outs| && outs[k] == if st.where.ok then Succeeded else Failed)
  {
    hide Run, Outcomes, Losses;
    var st, outs := Run(markFirst, START, schedule).value, Outcomes(markFirst, START, schedule);
    assert Losses([]) == 0 by { NoLosses(); }
    RunTied(markFirst, START, schedule, []);
    assert [] + outs == outs;
    assert Answered(st.log, outs, i);
    if st.log[i].Losing? && i + 1 == |st.log| {
      assert st.log[..i] + [st.log[i]] == st.log;
      LossesGrow(st.log[..i], st.log[i]);
    }
  }

  lemma NoLosses()
    ensures Losses([]) == 0
  {
  }

  /** One turn of the loop that reads a reply: a handled batch is followed by the next poll at
      once if there is more and after the pause otherwise, a refused one ends Run. */
  lemma ReplyTurn(st: State, more: bool, go: Action)
    requires st.where.Polling? && !st.fatal && go.RunStep? && go.polled == Reply(more)
    ensures Run(true, st, [go] + ([go] + ([go] + [])))
         == Some(st.(log := st.log + [Batch], where := if !go.handled then Returned else if more then Polling else Resting))
  {
    hide Run;
    var s1, s2 := st.(where := Judging(Reply(more))), st.(where := Handling(more));
    var end := Notify(st, Batch, if !go.handled then Returned else if more then Polling else Resting);
    Unfold(true, st, go, s1, [go] + ([go] + []));
    Unfold(true, s1, go, s2, [go] + []);
    Unfold(true, s2, go, end, []);
    Taken(true, end, [], end);
  }

  /** A failure that is no lost link ends Run without a word. */
  lemma ErrorTurn(st: State, go: Action)
    requires st.where.Polling? && go.RunStep? && go.polled == OtherError
    ensures Run(true, st, [go] + ([go] + [])) == Some(st.(where := Returned))
  {
    hide Run;
    var s1, end := st.(where := Judging(OtherError)), st.(where := Returned);
    Unfold(true, st, go, s1, [go] + []);
    Unfold(true, s1, go, end, []);
    Taken(true, end, [], end);
  }

  /** One turn that loses the link and is neither cancelled nor refused by the handler: after a
      recovery the loop pauses and goes on, after a failed one it has ended. */
  lemma LossTurn(st: State, go: Action)
    requires st.where.Polling? && !st.fatal && !st.cancelled && go.RunStep? && go.polled == Lost(Remote) && go.handled
    ensures Run(true, st, [go] + ([go] + ([go] + ([go] + ([go] + [])))))
         == Some(st.(log := st.log + [Losing(Remote)] + [if go.recovered then Restored else Down],
                     where := if go.recovered then Resting else Returned))
  {
    hide Run;
    var s1, s2 := st.(where := Judging(Lost(Remote))), st.(where := Announcing(Remote));
    var s3 := Notify(st, Losing(Remote), Recovering);
    var s4 := s3.(where := Reporting(go.recovered));
    var end := st.(log := st.log + [Losing(Remote)] + [if go.recovered then Restored else Down],
                   where := if go.recovered then Resting else Returned);
    Unfold(true, st, go, s1, [go] + ([go] + ([go] + ([go] + []))));
    Unfold(true, s1, go, s2, [go] + ([go] + ([go] + [])));
    Unfold(true, s2, go, s3, [go] + ([go] + []));
    Unfold(true, s3, go, s4, [go] + []);
    Unfold(true, s4, go, end, []);
    Taken(true, end, [], end);
  }

  /** Nothing is told any more once Run has returned. */
  lemma {:induction false} ReturnedIsFinal(markFirst: bool, st: State, schedule: seq<Action>)
    requires st.where.Returned? && Run(markFirst, st, schedule).Some?
    ensures Run(markFirst, st, schedule).value.log == st.log && Run(markFirst, st, schedule).value.where.Returned?
    decreases |schedule|
  {
    if schedule != [] {
      ReturnedIsFinal(markFirst, Step(markFirst, st, schedule[0]).value, schedule[1..]);
    }
  }

  /** With the opposite order the poll can fail on the closed socket before the mark, and a
      recovery of the terminated session begins. */
  lemma CloseFirstRecovers()
    ensures exists schedule :: Run(false, START, schedule).Some?
                               && Losing(OwnClose) in Run(false, START, schedule).value.log
  {
    hide Run;
    var go := RunStep(true, Lost(OwnClose), true, true);
    var s0, s1 := State(Resting, [], false, true, false), State(Checking, [], false, true, false);
    var s2, s3 := State(Polling, [], false, true, false), State(Judging(Lost(OwnClose)), [], false, true, false);
    var s4 := State(Announcing(OwnClose), [], false, true, false);
    var s5 := State(Recovering, [Losing(OwnClose)], false, true, false);
    assert [] + [Losing(OwnClose)] == [Losing(OwnClose)];
    Taken(false, s5, [], s5);
    Unfold(false, s4, go, s5, []);
    var r4 := [go] + [];
    Unfold(false, s3, go, s4, r4);
    var r3 := [go] + r4;
    Unfold(false, s2, go, s3, r3);
    var r2 := [go] + r3;
    Unfold(false, s1, go, s2, r2);
    var r1 := [go] + r2;
    Unfold(false, s0, go, s1, r1);
    var r0 := [go] + r1;
    Unfold(false, START, CloseSocket, s0, r0);
    assert Run(false, START, [CloseSocket] + r0) == Some(s5);
  }

}
