/** How one TRANSAQ connection pairs replies with requests: by order alone, with late replies
    of given-up requests to be skipped, across the change of socket that a short recovery makes. */
module Session {
  import opened Bytes
  import opened Codec

  const KIND_REPLY: byte := 2
  const KIND_BYE: byte := 3
  const MAX_LOGIN := 12
  const RQ_TRANSACT: byte := 14
  const RQ_RELOGIN: byte := 63
  const RQ_RECOVER: byte := 64

  /** A frame on its way to the client. `req` is the number of the request it answers; the
      client never looks at it. */
  datatype Frame = Frame(kind: byte, typ: byte, payload: seq<byte>, req: nat)

  /** What the surroundings do to one exchange: whether the socket's deadline can be armed, the
      frame be encoded and written, how many frames can be read before the wait ends, and whether
      the wait ended because the caller's context was cancelled rather than by the timeout. */
  datatype Env = Env(armed: bool, encodes: bool, writes: bool, budget: nat, cancelled: bool)

  datatype Result = Closed | NotArmed | NotSent | NotWritten | NoReply | Bye | Incorrect | Got(frame: Frame)

  /** The connection and the stream of frames that the server has sent or will send on it. */
  datatype Link = Link(open: bool, seqNo: i32, lastType: byte, abandoned: seq<byte>, inbox: seq<Frame>)

  datatype Read = Read(frame: Option<Frame>, abandoned: seq<byte>, inbox: seq<Frame>)

  /** Skips the replies of abandoned requests; a reply of another type drops the list. */
  function ReadReply(abandoned: seq<byte>, inbox: seq<Frame>, budget: nat): Read {
    if budget == 0 || inbox == [] then Read(None, abandoned, inbox)
    else
      var f := inbox[0];
      if abandoned == [] || f.kind != KIND_REPLY then Read(Some(f), abandoned, inbox[1..])
      else if f.typ == abandoned[0] then ReadReply(abandoned[1..], inbox[1..], budget - 1)
      else Read(Some(f), [], inbox[1..])
  }

  predicate Ordinary(typ: byte) { typ != RQ_RELOGIN && typ != RQ_RECOVER }

  /** The send counter moves before every ordinary request, whether or not it is sent. */
  function Counted(l: Link, typ: byte): Link {
    if Ordinary(typ) then l.(seqNo := Wrap32(l.seqNo + 1), lastType := typ) else l
  }

  function Judge(f: Frame, typ: byte): Result {
    if f.kind == KIND_BYE then Bye
    else if f.kind != KIND_REPLY || f.typ != typ then Incorrect
    else Got(f)
  }

  /** One exchange; `answer` is the frame the server adds to its stream once it has the
      request. */
  function Exchange(l: Link, typ: byte, answer: Frame, env: Env): (Link, Result) {
    if !l.open then (l, Closed)
    else if !env.armed then (l, NotArmed)
    else
      var c := Counted(l, typ);
      if !env.encodes then (c, NotSent)
      else if !env.writes then (c, NotWritten)
      else
        var r := ReadReply(c.abandoned, c.inbox + [answer], env.budget);
        match r.frame
        case None =>
          (c.(abandoned := if env.cancelled then r.abandoned + [typ] else r.abandoned, inbox := r.inbox), NoReply)
        case Some(f) => (c.(abandoned := r.abandoned, inbox := r.inbox), Judge(f, typ))
  }

  /** The first frame that is no reply to the abandoned request in its place is handed over. If it
      is a reply at all, the rest of the list is dropped; otherwise the list stays. */
  lemma {:induction false} SkippedExactly(abandoned: seq<byte>, inbox: seq<Frame>, budget: nat, i: nat)
    requires i <= |abandoned| && i <= |inbox| && i <= budget
    requires forall j :: 0 <= j < i ==> inbox[j].kind == 2 && inbox[j].typ == abandoned[j]
    ensures i < |inbox| && i < budget && (i == |abandoned| || inbox[i].kind != 2 || inbox[i].typ != abandoned[i]) ==>
              ReadReply(abandoned, inbox, budget)
              == Read(Some(inbox[i]), if i < |abandoned| && inbox[i].kind != 2 then abandoned[i..] else [], inbox[i + 1..])
    ensures i == |inbox| || i == budget ==> ReadReply(abandoned, inbox, budget) == Read(None, abandoned[i..], inbox[i..])
  {
    if i > 0 {
      var a, b := abandoned[1..], inbox[1..];
      assert inbox[0].kind == 2 && inbox[0].typ == abandoned[0];
      forall j | 0 <= j < i - 1 ensures b[j].kind == 2 && b[j].typ == a[j] {
        assert inbox[j + 1].kind == 2;
      }
      SkippedExactly(a, b, budget - 1, i - 1);
      assert a[i - 1..] == abandoned[i..] && b[i - 1..] == inbox[i..];
      if i < |inbox| {
        assert b[i - 1] == inbox[i] && b[i..] == inbox[i + 1..];
      }
    }
  }

  /** How a written exchange that reads a frame at once ends, in figures: kind 3 is a BYE whatever
      its type, kind 2 with the type of the request is the reply, everything else is refused. */
  lemma FrameJudged(l: Link, typ: byte, answer: Frame, env: Env)
    requires l.open && env.armed && env.encodes && env.writes && env.budget > 0 && l.abandoned == [] && l.inbox == []
    ensures var (l', r) := Exchange(l, typ, answer, env);
            && (r == Bye <==> answer.kind == 3)
            && (r == Got(answer) <==> answer.kind == 2 && answer.typ == typ)
            && (r == Incorrect <==> answer.kind != 3 && !(answer.kind == 2 && answer.typ == typ))
            && l'.inbox == [] && l'.abandoned == []
  {
    assert [] + [answer] == [answer] && [answer][1..] == [];
  }

  /** The counter and the last type move with every request but those of types 63 and 64, once
      the deadline is armed and whatever happens then. */
  lemma CounterMoves(l: Link, typ: byte, answer: Frame, env: Env)
    requires l.open
    ensures var l' := Exchange(l, typ, answer, env).0;
            && l'.open
            && (l'.seqNo == if env.armed && typ != 63 && typ != 64 then Wrap32(l.seqNo + 1) else l.seqNo)
            && (l'.lastType == if env.armed && typ != 63 && typ != 64 then typ else l.lastType)
  {
    hide ReadReply;
  }

  /** A short recovery on a new socket: the replies of the old one never come. */
  function Restored(l: Link): Link {
    l.(open := true, abandoned := [], inbox := [])
  }

  function Detached(l: Link): Link {
    l.(open := false, inbox := [])
  }

  // ---- the invariant between exchanges ----

  function Types(inbox: seq<Frame>): (ts: seq<byte>)
    ensures |ts| == |inbox|
  {
    seq(|inbox|, i requires 0 <= i < |inbox| => inbox[i].typ)
  }

  /** On an open link the frames still to come are replies, exactly one for each abandoned
      request, in order. */
  predicate InSync(l: Link) {
    l.open ==>
      && Types(l.inbox) == l.abandoned
      && forall f <- l.inbox :: f.kind == KIND_REPLY
  }

  lemma {:induction false} ReadInSync(abandoned: seq<byte>, inbox: seq<Frame>, answer: Frame, budget: nat)
    requires Types(inbox) == abandoned && (forall f <- inbox :: f.kind == KIND_REPLY) && answer.kind == KIND_REPLY
    ensures var r := ReadReply(abandoned, inbox + [answer], budget);
            if budget > |inbox| then r == Read(Some(answer), [], [])
            else r == Read(None, abandoned[budget..], inbox[budget..] + [answer])
  {
    var stream := inbox + [answer];
    if budget == 0 {
      assert abandoned[0..] == abandoned && inbox[0..] == inbox;
    } else if inbox == [] {
      assert stream == [answer];
    } else {
      assert stream[1..] == inbox[1..] + [answer];
      assert Types(inbox)[0] == inbox[0].typ && Types(inbox[1..]) == Types(inbox)[1..];
      assert inbox[0] in inbox && forall f <- inbox[1..] :: f in inbox;
      ReadInSync(abandoned[1..], inbox[1..], answer, budget - 1);
      assert budget <= |inbox| ==> abandoned[1..][budget - 1..] == abandoned[budget..]
                                   && inbox[1..][budget - 1..] == inbox[budget..];
    }
  }

  /** A server that answers every request once and in order. */
  predicate Answers(answer: Frame, typ: byte, id: nat) {
    answer.kind == KIND_REPLY && answer.typ == typ && answer.req == id
  }

  /** From a synchronized link every successful exchange returns the reply to its own request
      and no reply is ever taken for another; the link stays synchronized unless the request
      was written and its wait ended by the plain request timeout. */
  lemma ExchangeMatched(l: Link, typ: byte, answer: Frame, id: nat, env: Env)
    requires InSync(l) && Answers(answer, typ, id)
    ensures var (l', r) := Exchange(l, typ, answer, env);
            && (r.Got? ==> r.frame == answer && r.frame.req == id && l'.inbox == [] && l'.abandoned == [])
            && !r.Incorrect? && !r.Bye?
            && (InSync(l') <==> !(r.NoReply? && !env.cancelled))
  {
    if l.open && env.armed && env.encodes && env.writes {
      ReadInSync(l.abandoned, l.inbox, answer, env.budget);
      if env.budget <= |l.inbox| {
        var left := l.inbox[env.budget..] + [answer];
        assert Types(left) == l.abandoned[env.budget..] + [typ];
        assert forall f <- left :: f in l.inbox || f == answer;
      }
    }
  }

  /** After a plain timeout the next request of the same type is given the stale reply. */
  lemma TimeoutMismatch(typ: byte, first: Frame, second: Frame)
    requires Answers(first, typ, 0) && Answers(second, typ, 1) && Ordinary(typ)
    ensures var l0 := Link(true, 0, 0, [], []);
            var (l1, r1) := Exchange(l0, typ, first, Env(true, true, true, 0, false));
            var (l2, r2) := Exchange(l1, typ, second, Env(true, true, true, 1, false));
            InSync(l0) && r1 == NoReply && r2 == Got(first) && r2.frame.req != 1
  {
    var stream := [first] + [second];
    assert stream[0] == first;
  }

  // ---- whole runs ----

  /** Restore fails without touching the link, or replaces the socket. */
  datatype Op = Request(typ: byte, payload: seq<byte>, env: Env) | Restore(succeeds: bool) | Close

  function AnswerTo(op: Op, id: nat): Frame
    requires op.Request?
  {
    Frame(KIND_REPLY, op.typ, op.payload, id)
  }

  function Step(l: Link, op: Op, id: nat): (Link, Option<Result>) {
    match op
    case Request(typ, _, env) =>
      var (l', r) := Exchange(l, typ, AnswerTo(op, id), env);
      (l', Some(r))
    case Restore(succeeds) => (if succeeds then Restored(l) else l, None)
    case Close => (Detached(l), None)
  }

  /** The results of operations id, id+1, ... from link l, and the link they lead to. */
  function Run(l: Link, ops: seq<Op>, id: nat): (Link, seq<Option<Result>>)
    decreases |ops|
  {
    if ops == [] then (l, [])
    else
      var (l1, r) := Step(l, ops[0], id);
      var (l2, rs) := Run(l1, ops[1..], id + 1);
      (l2, [r] + rs)
  }

  /** The answer of a request whose wait ended by the plain timeout is not remembered: more
      replies are to come than the client knows of. */
  predicate Lagging(l: Link) { l.open && |l.inbox| > |l.abandoned| }

  /** All frames still to come answer earlier requests. */
  predicate Earlier(l: Link, id: nat) {
    forall f <- l.inbox :: f.kind == KIND_REPLY && f.req < id
  }

  lemma {:induction false} ReadLagging(abandoned: seq<byte>, inbox: seq<Frame>, answer: Frame, budget: nat)
    requires |inbox| > |abandoned|
    ensures var r := ReadReply(abandoned, inbox + [answer], budget);
            && |r.inbox| > |r.abandoned| + (if r.frame.Some? then 0 else 1)
            && (r.frame.Some? ==> r.frame.value in inbox)
            && forall f <- r.inbox :: f in inbox || f == answer
  {
    var stream := inbox + [answer];
    assert forall f <- stream :: f in inbox || f == answer;
    assert forall f <- stream[1..] :: f in stream;
    assert stream[1..] == inbox[1..] + [answer] && forall f <- inbox[1..] :: f in inbox;
    if budget > 0 && abandoned != [] && inbox[0].kind == KIND_REPLY && inbox[0].typ == abandoned[0] {
      ReadLagging(abandoned[1..], inbox[1..], answer, budget - 1);
    }
  }

  /** A lagging link stays so, and never returns the answer to the request at hand. */
  lemma ExchangeLags(l: Link, typ: byte, answer: Frame, id: nat, env: Env)
    requires Lagging(l) && Earlier(l, id) && Answers(answer, typ, id)
    ensures var (l', r) := Exchange(l, typ, answer, env);
            && Lagging(l') && Earlier(l', id + 1)
            && (r.Got? ==> r.frame != answer && r.frame.req < id)
  {
    if env.armed && env.encodes && env.writes {
      ReadLagging(l.abandoned, l.inbox, answer, env.budget);
    }
  }

  /** A synchronized link begins to lag exactly with a plain timeout. */
  lemma ExchangeFromSync(l: Link, typ: byte, answer: Frame, id: nat, env: Env)
    requires InSync(l) && Earlier(l, id) && Answers(answer, typ, id)
    ensures var (l', r) := Exchange(l, typ, answer, env);
            && Earlier(l', id + 1)
            && (if r.NoReply? && !env.cancelled then Lagging(l') else InSync(l'))
            && (r.Got? ==> r.frame == answer) && !r.Incorrect? && !r.Bye?
  {
    ExchangeMatched(l, typ, answer, id, env);
    if l.open && env.armed && env.encodes && env.writes {
      ReadInSync(l.abandoned, l.inbox, answer, env.budget);
      if env.budget <= |l.inbox| {
        var left := l.inbox[env.budget..] + [answer];
        assert forall f <- left :: f in l.inbox || f == answer;
      }
    }
  }

  predicate PlainTimeout(op: Op, r: Option<Result>) {
    op.Request? && r == Some(NoReply) && !op.env.cancelled
  }

  /** Whether the link lags after an operation. */
  predicate LagsAfter(op: Op, r: Option<Result>, lag: bool) {
    match op
    case Request(_, _, _) => lag || PlainTimeout(op, r)
    case Restore(succeeds) => lag && !succeeds
    case Close => false
  }

  /** Whether a request before operation i ended by the plain timeout and the socket has not
      been replaced or closed since. */
  predicate TimedOut(ops: seq<Op>, rs: seq<Option<Result>>, i: nat, lag: bool)
    requires i <= |ops| == |rs|
  {
    if i == 0 then lag else LagsAfter(ops[i - 1], rs[i - 1], TimedOut(ops, rs, i - 1, lag))
  }

  lemma {:induction false} TimedOutTail(ops: seq<Op>, rs: seq<Option<Result>>, i: nat, lag: bool)
    requires 0 < i <= |ops| == |rs|
    ensures TimedOut(ops, rs, i, lag) == TimedOut(ops[1..], rs[1..], i - 1, LagsAfter(ops[0], rs[0], lag))
  {
    hide LagsAfter;
    if i > 1 {
      TimedOutTail(ops, rs, i - 1, lag);
    }
  }

  /** The result of operation i is right exactly when no plain timeout precedes it. */
  predicate Exact(ops: seq<Op>, rs: seq<Option<Result>>, id: nat, i: nat, timedOut: bool)
    requires i < |ops| == |rs|
  {
    rs[i].Some? ==>
      && (rs[i].value.Got? ==> ops[i].Request? && (rs[i].value.frame == AnswerTo(ops[i], id + i) <==> !timedOut))
      && (!timedOut ==> rs[i].value != Incorrect && rs[i].value != Bye)
  }

  predicate Linked(l: Link, id: nat, lag: bool) {
    Earlier(l, id) && if lag then !l.open || Lagging(l) else InSync(l)
  }

  lemma StepLinked(l: Link, op: Op, id: nat, lag: bool)
    requires Linked(l, id, lag)
    ensures var (l', r) := Step(l, op, id);
            && Linked(l', id + 1, LagsAfter(op, r, lag))
            && (r.Some? ==> op.Request? && (r.value.Got? ==> (r.value.frame == AnswerTo(op, id) <==> !lag))
                            && (!lag ==> r.value != Incorrect && r.value != Bye))
  {
    hide Exchange;
    if op.Request? {
      ClosedStays(l, op.typ, AnswerTo(op, id), op.env);
      if lag && l.open {
        ExchangeLags(l, op.typ, AnswerTo(op, id), id, op.env);
      } else if !lag {
        ExchangeFromSync(l, op.typ, AnswerTo(op, id), id, op.env);
      }
    } else {
      SocketReplaced(l);
    }
  }

  lemma ClosedStays(l: Link, typ: byte, answer: Frame, env: Env)
    ensures !l.open ==> Exchange(l, typ, answer, env) == (l, Closed)
  {
  }

  /** In every run of requests, cancellations, timeouts, recoveries and closes, a successful
      exchange returns the answer to its own request exactly when no request before it has ended
      by the plain timeout since the last successful recovery. */
  lemma {:induction false} RunExact(l: Link, ops: seq<Op>, id: nat, lag: bool)
    requires Linked(l, id, lag)
    ensures var rs := Run(l, ops, id).1;
            |rs| == |ops| && forall i: nat :: i < |ops| ==> Exact(ops, rs, id, i, TimedOut(ops, rs, i, lag))
    decreases |ops|
  {
    hide Exact, Linked, LagsAfter, Step;
    if ops != [] {
      var (l1, r) := Step(l, ops[0], id);
      var rs := Run(l, ops, id).1;
      StepLinked(l, ops[0], id, lag);
      RunExact(l1, ops[1..], id + 1, LagsAfter(ops[0], r, lag));
      assert rs[0] == r && rs[1..] == Run(l1, ops[1..], id + 1).1;
      forall i: nat | i < |ops| ensures Exact(ops, rs, id, i, TimedOut(ops, rs, i, lag)) {
        if i == 0 {
          ExactFirst(ops, rs, id, lag);
        } else {
          TimedOutTail(ops, rs, i, lag);
          ExactTail(ops, rs, id, i, TimedOut(ops, rs, i, lag));
        }
      }
    }
  }

  lemma ExactFirst(ops: seq<Op>, rs: seq<Option<Result>>, id: nat, lag: bool)
    requires |ops| == |rs| > 0
    requires rs[0].Some? ==>
               && ops[0].Request? && (rs[0].value.Got? ==> (rs[0].value.frame == AnswerTo(ops[0], id) <==> !lag))
               && (!lag ==> rs[0].value != Incorrect && rs[0].value != Bye)
    ensures Exact(ops, rs, id, 0, lag)
  {
  }

  lemma ExactTail(ops: seq<Op>, rs: seq<Option<Result>>, id: nat, i: nat, timedOut: bool)
    requires 0 < i < |ops| == |rs| && Exact(ops[1..], rs[1..], id + 1, i - 1, timedOut)
    ensures Exact(ops, rs, id, i, timedOut)
  {
  }

  /** From a synchronized link, as long as every wait that ends without a reply was cancelled by
      the caller, each successful exchange returns the answer to its own request. */
  lemma RunMatched(l: Link, ops: seq<Op>, id: nat)
    requires Linked(l, id, false)
    requires forall i :: 0 <= i < |ops| && i < |Run(l, ops, id).1| ==> !PlainTimeout(ops[i], Run(l, ops, id).1[i])
    ensures var rs := Run(l, ops, id).1;
            |rs| == |ops| && forall i: nat :: i < |ops| ==> Exact(ops, rs, id, i, false)
  {
    hide Run, Exact, Linked;
    RunExact(l, ops, id, false);
    var rs := Run(l, ops, id).1;
    forall i: nat | i < |ops| ensures Exact(ops, rs, id, i, false) {
      NeverTimedOut(ops, rs, i);
      assert Exact(ops, rs, id, i, TimedOut(ops, rs, i, false));
    }
  }

  lemma {:induction false} NeverTimedOut(ops: seq<Op>, rs: seq<Option<Result>>, i: nat)
    requires i <= |ops| == |rs| && forall j :: 0 <= j < i ==> !PlainTimeout(ops[j], rs[j])
    ensures !TimedOut(ops, rs, i, false)
  {
    if i > 0 {
      NeverTimedOut(ops, rs, i - 1);
    }
  }

  lemma SocketReplaced(l: Link)
    ensures InSync(Restored(l)) && InSync(Detached(l))
  {
  }

  /** How many ordinary requests a run attempts on an open link. */
  function Attempts(l: Link, ops: seq<Op>, id: nat): nat
    decreases |ops|
  {
    if ops == [] then 0
    else
      (if l.open && ops[0].Request? && ops[0].env.armed && Ordinary(ops[0].typ) then 1 else 0)
      + Attempts(Step(l, ops[0], id).0, ops[1..], id + 1)
  }

  /** The counter that RQ_RECOVER carries counts attempts, modulo 2^32: it also counts
      requests that were too large to be encoded and so never left the client. */
  lemma {:induction false} SeqCountsAttempts(l: Link, ops: seq<Op>, id: nat)
    ensures Run(l, ops, id).0.seqNo == Wrap32(l.seqNo + Attempts(l, ops, id))
    decreases |ops|
  {
    hide ReadReply;
    if ops == [] {
      WrapSmall(l.seqNo);
    } else {
      var l1 := Step(l, ops[0], id).0;
      SeqCountsAttempts(l1, ops[1..], id + 1);
      WrapAdds(l.seqNo + 1, Attempts(l1, ops[1..], id + 1));
    }
  }

  lemma WrapSmall(x: i32)
    ensures Wrap32(x) == x
  {
  }

  lemma WrapAdds(x: int, n: nat)
    ensures Wrap32(Wrap32(x) + n) == Wrap32(x + n)
  {
  }

  // ---- transactions ----

  datatype Verdict = OrdinaryError | OutcomeUnknown | Rejected(code: byte) | Accepted(number: i32)

  /** The direct reply: a code, then the packed transaction number. */
  function ReplyVerdict(reply: seq<byte>): Verdict {
    if reply == [] then OutcomeUnknown
    else if reply[0] != 0 then Rejected(reply[0])
    else match ReadInt32(reply[1..]) case None => OutcomeUnknown case Some((tid, _)) => Accepted(tid)
  }

  function Verdicts(r: Result): Verdict {
    match r
    case Closed => OrdinaryError
    case NotArmed => OrdinaryError
    case NotSent => OrdinaryError
    case Got(f) => ReplyVerdict(f.payload)
    case _ => OutcomeUnknown
  }

  /** A transaction fails as an ordinary error only when nothing was handed to the socket; on
      a synchronized link its number or rejection is the one the server sent for it. */
  lemma TransactionClassified(l: Link, answer: Frame, id: nat, env: Env)
    requires InSync(l) && Answers(answer, RQ_TRANSACT, id)
    ensures var (l', r) := Exchange(l, RQ_TRANSACT, answer, env);
            && (Verdicts(r).OrdinaryError? <==> !l.open || !env.armed || !env.encodes)
            && (Verdicts(r).OrdinaryError? ==> l'.inbox == l.inbox)
            && (Verdicts(r).Accepted? || Verdicts(r).Rejected? ==> Verdicts(r) == ReplyVerdict(answer.payload))
  {
    hide ReadReply, InSync;
    ExchangeMatched(l, RQ_TRANSACT, answer, id, env);
  }

  /** The results of an exchange whose request was handed to the socket. */
  predicate Sent(r: Result) { r != Closed && r != NotArmed && r != NotSent && r != NotWritten }

  /** What the caller of a transaction is told: its number (the server's, or else the local
      one), the verdict, and the number under which an unknown outcome is filed. */
  datatype Report = Report(number: nat, verdict: Verdict, filed: Option<nat>)

  /** A failed exchange files its unknown outcome under the number last issued by then, by this
      call or by one of the `others` that began on other connections. */
  function Reported(r: Result, local: nat, others: nat): Report {
    var v := Verdicts(r);
    Report(if v.Accepted? then v.number % TWO64 else local, v,
           if v != OutcomeUnknown then None else if r.Got? then Some(local) else Some((local + others) % TWO64))
  }

  /** An unknown outcome carries the number its own call was given exactly when a reply was
      read or no other transaction began in the meantime (counting modulo 2^64). */
  lemma FiledUnderOwnNumber(r: Result, local: nat, others: nat)
    requires local < TWO64 && Verdicts(r) == OutcomeUnknown
    ensures Reported(r, local, others).number == local
    ensures Reported(r, local, others).filed == Some(local) <==> r.Got? || others % TWO64 == 0
  {
    hide Verdicts;
    Joined(others, local);
  }

  lemma Joined(a: nat, b: nat)
    ensures (a % TWO64 + b) % TWO64 == (a + b) % TWO64
  {
  }

  /** What a transaction comes to: once a reply has been read, a first byte other than 0 is a
      rejection with that code whatever follows, 0 with a packed number an acceptance with that
      number, and an empty reply or 0 without one leaves the outcome unknown. */
  lemma VerdictExactly(r: Result)
    ensures forall code: byte ::
              Verdicts(r) == Rejected(code) <==> code != 0 && r.Got? && r.frame.payload != [] && r.frame.payload[0] == code
    ensures forall n: i32 ::
              Verdicts(r) == Accepted(n) <==>
                r.Got? && r.frame.payload != [] && r.frame.payload[0] == 0
                && exists k: nat :: ReadInt32(r.frame.payload[1..]) == Some((n, k))
    ensures Verdicts(r) == OrdinaryError <==> r == Closed || r == NotArmed || r == NotSent
  {
    hide ReadInt32;
    if r.Got? && r.frame.payload != [] && r.frame.payload[0] == 0 && ReadInt32(r.frame.payload[1..]).Some? {
      var (n, k) := ReadInt32(r.frame.payload[1..]).value;
      assert ReadInt32(r.frame.payload[1..]) == Some((n, k));
    }
  }

  /** The same on a synchronized link, of what the server sent for this transaction. */
  lemma RejectionsAreTold(l: Link, code: byte, tail: seq<byte>, n: i32, id: nat, env: Env)
    requires InSync(l) && l.open && env.armed && env.encodes && env.writes && env.budget > |l.inbox|
    ensures code != 0 ==>
              Verdicts(Exchange(l, 14, Frame(2, 14, [code] + tail, id), env).1) == Rejected(code)
    ensures Verdicts(Exchange(l, 14, Frame(2, 14, [0] + PackedBytes(n) + tail, id), env).1) == Accepted(n)
    ensures Verdicts(Exchange(l, 14, Frame(2, 14, [], id), env).1) == OutcomeUnknown
    ensures Verdicts(Exchange(l, 14, Frame(2, 14, [0], id), env).1) == OutcomeUnknown
  {
    hide ReadReply, PackedBytes;
    var none: seq<byte> := [];
    assert ReadInt32(none) == None && [0][1..] == none;
    hide ReadInt32;
    ReadInSync(l.abandoned, l.inbox, Frame(2, 14, [code] + tail, id), env.budget);
    ReadInSync(l.abandoned, l.inbox, Frame(2, 14, [0] + PackedBytes(n) + tail, id), env.budget);
    ReadInSync(l.abandoned, l.inbox, Frame(2, 14, [], id), env.budget);
    ReadInSync(l.abandoned, l.inbox, Frame(2, 14, [0], id), env.budget);
    VerdictRoundTrip(n, tail);
  }

  lemma VerdictRoundTrip(number: i32, rest: seq<byte>)
    ensures ReplyVerdict([0] + PackedBytes(number) + rest) == Accepted(number)
  {
    hide ReadInt32, PackedBytes;
    Int32RoundTrip(number, rest);
    assert ([0] + PackedBytes(number) + rest)[1..] == PackedBytes(number) + rest;
  }

  // ---- the recovery handshake ----

  /** RQ_RELOGIN reply: length, token, server id. */
  function ParseRelogin(p: seq<byte>): Option<(seq<byte>, byte)> {
    if |p| < 1 || |p| < p[0] as int + 2 then None
    else Some((p[1..1 + p[0] as int], p[1 + p[0] as int]))
  }

  /** RQ_RECOVER: the token without a length, then the send counter. */
  function RecoverPayload(token: seq<byte>, lastSeq: i32): seq<byte> {
    token + PackedBytes(lastSeq)
  }

  datatype Handshake = Recovered | LostLink | HungUp | WrongRelogin | OtherServer | WrongRecover

  /** The verdict on the two frames of a handshake; None is a frame that did not arrive. */
  function JudgeHandshake(sid: byte, lastType: byte, relogin: Option<Frame>, recover: Option<Frame>): Handshake {
    match relogin
    case None => LostLink
    case Some(f) =>
      if f.kind == KIND_BYE then HungUp
      else if f.kind != KIND_REPLY || f.typ != RQ_RELOGIN then WrongRelogin
      else
        match ParseRelogin(f.payload)
        case None => WrongRelogin
        case Some((_, id)) =>
          if id != sid then OtherServer
          else
            match recover
            case None => LostLink
            case Some(g) =>
              if g.kind != KIND_REPLY || (g.typ != RQ_RECOVER && g.typ != lastType) then WrongRecover else Recovered
  }

  /** A reply frame of a type in the given set. */
  predicate Reply(f: Option<Frame>, types: set<byte>) { f.Some? && f.value.kind == 2 && f.value.typ in types }

  /** Exactly when a handshake ends how, in figures: it succeeds with a reply 63 that names the
      same server and a reply 64 or of the last ordinary type. */
  lemma HandshakeExactly(sid: byte, lastType: byte, relogin: Option<Frame>, recover: Option<Frame>)
    ensures var h := JudgeHandshake(sid, lastType, relogin, recover);
            var readable := Reply(relogin, {63}) && ParseRelogin(relogin.value.payload).Some?;
            var same := readable && ParseRelogin(relogin.value.payload).value.1 == sid;
            && (h == Recovered <==> same && Reply(recover, {64, lastType}))
            && (h == HungUp <==> relogin.Some? && relogin.value.kind == 3)
            && (h == WrongRelogin <==> relogin.Some? && relogin.value.kind != 3 && !readable)
            && (h == OtherServer <==> readable && !same)
            && (h == WrongRecover <==> same && recover.Some? && !Reply(recover, {64, lastType}))
            && (h == LostLink <==> relogin == None || (same && recover == None))
  {
    hide ParseRelogin;
  }

  /** What the surroundings do to a handshake: whether the new socket's deadline can be armed,
      each request be written, and what is decoded as the reply to it. */
  datatype HandshakeEnv = HandshakeEnv(armed: bool, reloginWritten: bool, relogin: Option<Frame>,
                                       recoverWritten: bool, recover: Option<Frame>)

  function Conducted(sid: byte, lastType: byte, env: HandshakeEnv): Handshake {
    JudgeHandshake(sid, lastType, if env.armed && env.reloginWritten then env.relogin else None,
                   if env.recoverWritten then env.recover else None)
  }

  /** The server that answers RQ_RELOGIN is the one the session was opened with. */
  predicate SameServer(sid: byte, relogin: Option<Frame>) {
    relogin.Some? && relogin.value.kind == KIND_REPLY && relogin.value.typ == RQ_RELOGIN
    && ParseRelogin(relogin.value.payload).Some? && ParseRelogin(relogin.value.payload).value.1 == sid
  }

  /** The requests of a handshake that leave the client whole: the login, then, only to the same
      server, its token with the send counter. */
  function Asked(login: seq<byte>, sid: byte, seqNo: i32, env: HandshakeEnv): seq<Asking> {
    if !env.armed || !env.reloginWritten then []
    else [Asking(RQ_RELOGIN, StringBytes(login, MAX_LOGIN))]
         + if !SameServer(sid, env.relogin) || !env.recoverWritten then []
           else [Asking(RQ_RECOVER, RecoverPayload(ParseRelogin(env.relogin.value.payload).value.0, seqNo))]
  }

  /** A handshake succeeds only if both requests were written and the token the server issued
      went back to it together with the count of ordinary requests. */
  lemma RecoveredAsked(login: seq<byte>, sid: byte, lastType: byte, seqNo: i32, env: HandshakeEnv)
    requires Conducted(sid, lastType, env) == Recovered
    ensures SameServer(sid, env.relogin)
    ensures var token := ParseRelogin(env.relogin.value.payload).value.0;
            var asked := [Asking(RQ_RELOGIN, StringBytes(login, MAX_LOGIN)), Asking(RQ_RECOVER, token + PackedBytes(seqNo))];
            Asked(login, sid, seqNo, env) == asked
  {
    hide StringBytes, PackedBytes, ParseRelogin;
  }

  /** The token and counter sent in RQ_RECOVER are the ones the server issued and counts. */
  lemma HandshakeRoundTrip(token: seq<byte>, sid: byte, lastSeq: i32)
    requires |token| < 0x100
    ensures ParseRelogin([|token|] + token + [sid]) == Some((token, sid))
    ensures var p := RecoverPayload(token, lastSeq);
            p[..|token|] == token && ReadInt32(p[|token|..]) == Some((lastSeq, |p| - |token|))
  {
    hide ReadInt32, PackedBytes;
    var q := [|token|] + token + [sid];
    assert q[1..1 + |token|] == token && q[1 + |token|] == sid;
    var p := RecoverPayload(token, lastSeq);
    assert p[|token|..] == PackedBytes(lastSeq) + [];
    Int32RoundTrip(lastSeq, []);
  }

  // ---- the connection object ----

  /** A request as it was handed to a socket. */
  datatype Asking = Asking(typ: byte, payload: seq<byte>)

  /** A socket is the queue of frames the server has sent or will send on it, and the requests
      written to it whole. */
  class Socket {
    var frames: seq<Frame>
    var asked: seq<Asking>
    var closed: bool

    constructor ()
      ensures frames == [] && asked == [] && !closed
    {
      frames, asked, closed := [], [], false;
    }
  }

  /** Where local transaction numbers come from: one source for all connections. */
  class Numbering {
    var issued: nat

    constructor ()
      ensures issued == 0
    {
      issued := 0;
    }

    method Add(n: nat)
      modifies this
      ensures issued == (old(issued) + n) % TWO64
    {
      issued := (issued + n) % TWO64;
    }
  }

  class Conn {
    var nc: Socket?
    var sid: byte
    var seqNo: i32
    var lastType: byte
    var abandoned: seq<byte>

    function Abstract(): Link
      reads this, nc
    {
      Link(nc != null, seqNo, lastType, abandoned, if nc == null then [] else nc.frames)
    }

    constructor (socket: Socket, serverID: byte)
      ensures nc == socket && sid == serverID && Abstract() == Link(true, 0, 0, [], socket.frames)
    {
      nc, sid, seqNo, lastType, abandoned := socket, serverID, 0, 0, [];
    }

    /** Consumes one late reply per entry of `abandoned` as long as their types agree, then
        hands over the frame behind them. */
    method ReadNext(budget: nat) returns (f: Option<Frame>)
      requires nc != null
      modifies this`abandoned, nc`frames
      ensures nc == old(nc)
      ensures Read(f, abandoned, nc.frames) == ReadReply(old(abandoned), old(nc.frames), budget)
    {
      var left := budget;
      while left > 0 && nc.frames != []
        invariant nc == old(nc) && 0 <= left
        invariant ReadReply(abandoned, nc.frames, left) == ReadReply(old(abandoned), old(nc.frames), budget)
        decreases left
      {
        var g := nc.frames[0];
        nc.frames := nc.frames[1..];
        if abandoned == [] || g.kind != KIND_REPLY {
          return Some(g);
        }
        if g.typ != abandoned[0] {
          abandoned := [];
          return Some(g);
        }
        abandoned := abandoned[1..];
        left := left - 1;
      }
      f := None;
    }

    /** One exchange on the connection: the counter moves, the frame goes out, and the next frame
        ReadNext hands over is taken for the reply. */
    method Request(typ: byte, payload: seq<byte>, answer: Frame, env: Env) returns (r: Result)
      modifies this, nc
      ensures nc == old(nc) && sid == old(sid)
      ensures nc != null ==> nc.asked == old(nc.asked) + if Sent(r) then [Asking(typ, payload)] else []
      ensures (Abstract(), r) == Exchange(old(Abstract()), typ, answer, env)
    {
      hide ReadReply;
      if nc == null {
        return Closed;
      }
      if !env.armed {
        return NotArmed;
      }
      if typ != RQ_RELOGIN && typ != RQ_RECOVER {
        seqNo := Wrap32(seqNo + 1);
        lastType := typ;
      }
      if !env.encodes {
        return NotSent;
      }
      if !env.writes {
        return NotWritten;
      }
      nc.frames, nc.asked := nc.frames + [answer], nc.asked + [Asking(typ, payload)];
      var f := ReadNext(env.budget);
      if f == None {
        if env.cancelled {
          abandoned := abandoned + [typ];
        }
        return NoReply;
      }
      r := Judge(f.value, typ);
    }

    /** RQ_TRANSACT is an exchange whose failures after the write are never taken for
        rejections; `others` transactions begin on other connections while it is under way. */
    method Transact(kind: byte, body: seq<byte>, numbers: Numbering, others: nat, answer: Frame, env: Env)
      returns (t: Report)
      modifies this, nc, numbers
      ensures nc == old(nc) && sid == old(sid)
      ensures Abstract() == Exchange(old(Abstract()), RQ_TRANSACT, answer, env).0
      ensures numbers.issued == (old(numbers.issued) + 1 + others) % TWO64
      ensures t == Reported(Exchange(old(Abstract()), RQ_TRANSACT, answer, env).1, (old(numbers.issued) + 1) % TWO64, others)
      ensures var r := Exchange(old(Abstract()), RQ_TRANSACT, answer, env).1;
              && (r.Got? && r.frame.payload != [] && r.frame.payload[0] != 0 ==> t.verdict == Rejected(r.frame.payload[0]))
              && (t.verdict.Accepted? ==> r.Got? && r.frame.payload != [] && r.frame.payload[0] == 0)
      ensures nc != null && t.verdict.OrdinaryError? ==> nc.asked == old(nc.asked)
      ensures nc != null && (t.verdict.Accepted? || t.verdict.Rejected?) ==>
                nc.asked == old(nc.asked) + [Asking(RQ_TRANSACT, [kind] + body)]
    {
      hide Exchange, ReadInt32;
      numbers.Add(1);
      var local := numbers.issued;
      var r := Request(RQ_TRANSACT, [kind] + body, answer, env);
      numbers.Add(others);
      Joined(old(numbers.issued) + 1, others);
      t := Reported(r, local, others);
    }

    /** Runs the handshake on a fresh socket. Only a complete handshake with the same server
        replaces the socket, and then the old one is closed. */
    method Restore(socket: Socket, login: seq<byte>, env: HandshakeEnv) returns (h: Handshake)
      requires socket != nc
      modifies this, nc, socket
      ensures h == Conducted(sid, old(lastType), env)
      ensures sid == old(sid) && socket.frames == old(socket.frames) && socket.closed == old(socket.closed)
      ensures socket.asked == old(socket.asked) + Asked(login, sid, old(seqNo), env)
      ensures h == Recovered ==> nc == socket && (old(nc) != null ==> old(nc).closed)
      ensures h == Recovered && socket.frames == [] ==> Abstract() == Restored(old(Abstract()))
      ensures h != Recovered ==> nc == old(nc) && Abstract() == old(Abstract())
                                 && (nc != null ==> nc.closed == old(nc.closed))
    {
      hide StringBytes, PackedBytes, ParseRelogin;
      if !env.armed || !env.reloginWritten {
        return LostLink;
      }
      socket.asked := socket.asked + [Asking(RQ_RELOGIN, StringBytes(login, MAX_LOGIN))];
      if env.relogin == None {
        return LostLink;
      }
      var f := env.relogin.value;
      if f.kind == KIND_BYE {
        return HungUp;
      }
      if f.kind != KIND_REPLY || f.typ != RQ_RELOGIN || ParseRelogin(f.payload) == None {
        return WrongRelogin;
      }
      var (token, server) := ParseRelogin(f.payload).value;
      if server != sid {
        return OtherServer;
      }
      if !env.recoverWritten {
        return LostLink;
      }
      socket.asked := socket.asked + [Asking(RQ_RECOVER, RecoverPayload(token, seqNo))];
      if env.recover == None {
        return LostLink;
      }
      var g := env.recover.value;
      if g.kind != KIND_REPLY || (g.typ != RQ_RECOVER && g.typ != lastType) {
        return WrongRecover;
      }
      var previous := nc;
      nc, abandoned := socket, [];
      if previous != null {
        previous.closed := true;
      }
      h := Recovered;
    }

    /** The socket is detached under the lock that Restore swaps it with, then closed. */
    method Close()
      modifies this, nc
      ensures nc == null && (old(nc) != null ==> old(nc).closed)
      ensures Abstract() == Detached(old(Abstract()))
    {
      var socket := nc;
      nc := null;
      if socket != null {
        socket.closed := true;
      }
    }
  }
}
