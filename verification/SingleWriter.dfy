/** The single-writer protocol of the SQLite pool.

    Callers hand a callback to one writer goroutine over an unbuffered channel and
    wait on a buffered reply channel.  A callback is a program over the database: it
    runs one statement at a time, each statement taking an input from the environment
    (clock readings, tie-breaks, whether the statement fails).  Callers, the writer
    loop and Close are interleaved statement by statement. */
module SingleWriter {

  /** `next` runs one statement, allowed when `enabled` holds of the environment's
      input; the callback returns once `finished` holds of its local state. */
  datatype Callback<!D, !L, !E> = Callback(
    init: L,
    enabled: (D, L, E) -> bool,
    next: (D, L, E) -> (D, L),
    finished: L -> bool)

  /** Where a call of Write stands.  `Withdrawn` and `Abandoned` both return the
      context's error; only the second left the request behind in the writer. */
  datatype Phase<L> =
    | Submitting
    | Waiting
    | Replied(local: L)
    | RefusedClosed
    | Withdrawn
    | Abandoned

  datatype Call<!D, !L, !E> = Call(body: Callback<D, L, E>, phase: Phase<L>, ctxDone: bool)

  datatype Writer<L, E> = Idle | Busy(req: nat, local: L, inputs: seq<E>) | Exited

  /** One finished execution: the request, its callback and the inputs it consumed. */
  datatype Execution<!D, !L, !E> = Execution(req: nat, body: Callback<D, L, E>, inputs: seq<E>)

  datatype State<!D, !L, !E> = State(
    db: D,
    writer: Writer<L, E>,
    closed: bool,
    handlesClosed: bool,
    calls: map<nat, Call<D, L, E>>,
    replies: map<nat, L>,
    accepted: seq<nat>,
    log: seq<Execution<D, L, E>>)

  datatype Action<!D, !L, !E> =
    | Submit(req: nat, body: Callback<D, L, E>, done: bool)
    | CancelContext(req: nat)
    | Accept(req: nat)
    | Refuse(req: nat)
    | Withdraw(req: nat)
    | Execute(input: E)
    | Reply
    | Receive(req: nat)
    | Abandon(req: nat)
    | Close
    | Exit
    | CloseReturns

  ghost predicate Init<D, L, E>(s: State<D, L, E>, db: D) {
    s == State(db, Idle, false, false, map[], map[], [], [])
  }

  ghost predicate InPhase<D, L, E>(s: State<D, L, E>, req: nat, phase: Phase<L>) {
    req in s.calls && s.calls[req].phase == phase
  }

  ghost function WithPhase<D, L, E>(s: State<D, L, E>, req: nat, phase: Phase<L>): map<nat, Call<D, L, E>>
    requires req in s.calls
  {
    s.calls[req := s.calls[req].(phase := phase)]
  }

  ghost predicate Step<D, L, E>(s: State<D, L, E>, a: Action<D, L, E>, t: State<D, L, E>) {
    match a
    case Submit(r, body, done) =>
      r !in s.calls && t == s.(calls := s.calls[r := Call(body, Submitting, done)])
    case CancelContext(r) =>
      r in s.calls && t == s.(calls := s.calls[r := s.calls[r].(ctxDone := true)])
    case Accept(r) =>
      && InPhase(s, r, Submitting) && s.writer.Idle?
      && t == s.(calls := WithPhase(s, r, Waiting), accepted := s.accepted + [r],
                 writer := Busy(r, s.calls[r].body.init, []))
    case Refuse(r) =>
      && InPhase(s, r, Submitting) && s.closed
      && t == s.(calls := WithPhase(s, r, RefusedClosed))
    case Withdraw(r) =>
      && InPhase(s, r, Submitting) && s.calls[r].ctxDone
      && t == s.(calls := WithPhase(s, r, Withdrawn))
    case Execute(e) =>
      && s.writer.Busy? && s.writer.req in s.calls
      && var body := s.calls[s.writer.req].body;
      && !body.finished(s.writer.local)
      && body.enabled(s.db, s.writer.local, e)
      && var (db, local) := body.next(s.db, s.writer.local, e);
         t == s.(db := db, writer := Busy(s.writer.req, local, s.writer.inputs + [e]))
    case Reply =>
      && s.writer.Busy? && s.writer.req in s.calls
      && var body := s.calls[s.writer.req].body;
      && body.finished(s.writer.local)
      && t == s.(writer := Idle,
                 replies := s.replies[s.writer.req := s.writer.local],
                 log := s.log + [Execution(s.writer.req, body, s.writer.inputs)])
    case Receive(r) =>
      && InPhase(s, r, Waiting) && r in s.replies
      && t == s.(calls := WithPhase(s, r, Replied(s.replies[r])))
    case Abandon(r) =>
      && InPhase(s, r, Waiting) && s.calls[r].ctxDone
      && t == s.(calls := WithPhase(s, r, Abandoned))
    case Close => t == s.(closed := true)
    case Exit => s.writer.Idle? && s.closed && t == s.(writer := Exited)
    case CloseReturns => s.writer.Exited? && s.closed && t == s.(handlesClosed := true)
  }

  /** A run: one more state than actions, each action leading to the next state. */
  ghost predicate IsRun<D, L, E>(db: D, states: seq<State<D, L, E>>, actions: seq<Action<D, L, E>>) {
    && |states| == |actions| + 1
    && Init(states[0], db)
    && forall i {:trigger actions[i]} :: 0 <= i < |actions| ==> Step(states[i], actions[i], states[i + 1])
  }

  lemma RunStep<D, L, E>(db: D, states: seq<State<D, L, E>>, actions: seq<Action<D, L, E>>, i: nat)
    requires IsRun(db, states, actions) && 0 < i < |states|
    ensures Step(states[i - 1], actions[i - 1], states[i])
  {
    var a := actions[i - 1];
  }

  // ----- the serial reference -----

  /** A callback run alone from `db` on the given inputs. */
  ghost function RunAlone<D, L, E>(body: Callback<D, L, E>, db: D, inputs: seq<E>): (D, L) {
    if inputs == [] then (db, body.init)
    else
      var (d, l) := RunAlone(body, db, inputs[..|inputs| - 1]);
      body.next(d, l, inputs[|inputs| - 1])
  }

  /** Each input was allowed where it was consumed, and none came after the end. */
  ghost predicate Allowed<D, L, E>(body: Callback<D, L, E>, db: D, inputs: seq<E>) {
    inputs != [] ==>
      && Allowed(body, db, inputs[..|inputs| - 1])
      && var (d, l) := RunAlone(body, db, inputs[..|inputs| - 1]);
         !body.finished(l) && body.enabled(d, l, inputs[|inputs| - 1])
  }

  /** The database after the executions of `log`, one whole callback after another. */
  ghost function Serial<D, L, E>(db: D, log: seq<Execution<D, L, E>>): D {
    if log == [] then db
    else
      var e := log[|log| - 1];
      RunAlone(e.body, Serial(db, log[..|log| - 1]), e.inputs).0
  }

  /** What execution `i` computed when it ran alone after the first `i` executions. */
  ghost function SerialReply<D, L, E>(db: D, log: seq<Execution<D, L, E>>, i: nat): L
    requires i < |log|
  {
    RunAlone(log[i].body, Serial(db, log[..i]), log[i].inputs).1
  }

  /** Every execution of `log` was a whole, allowed run of its callback. */
  ghost predicate IsSerialHistory<D, L, E>(db: D, log: seq<Execution<D, L, E>>) {
    forall i {:trigger log[i]} :: 0 <= i < |log| ==>
      && Allowed(log[i].body, Serial(db, log[..i]), log[i].inputs)
      && log[i].body.finished(SerialReply(db, log, i))
  }

  ghost function Requests<D, L, E>(log: seq<Execution<D, L, E>>): seq<nat> {
    seq(|log|, i requires 0 <= i < |log| => log[i].req)
  }

  ghost predicate NoDuplicates(xs: seq<nat>) {
    forall i, j :: 0 <= i < j < |xs| ==> xs[i] != xs[j]
  }

  ghost predicate WasAccepted<L>(p: Phase<L>) {
    p.Waiting? || p.Replied? || p.Abandoned?
  }

  ghost predicate HasReturned<L>(p: Phase<L>) {
    p.Replied? || p.RefusedClosed? || p.Withdrawn? || p.Abandoned?
  }

  // ----- the invariant -----

  /** The database is the serial result, plus the current callback's statements. */
  ghost predicate DatabaseIsSerial<D, L, E>(s: State<D, L, E>, db0: D) {
    if s.writer.Busy? then
      && s.writer.req in s.calls
      && (s.db, s.writer.local)
         == RunAlone(s.calls[s.writer.req].body, Serial(db0, s.log), s.writer.inputs)
      && Allowed(s.calls[s.writer.req].body, Serial(db0, s.log), s.writer.inputs)
    else
      s.db == Serial(db0, s.log)
  }

  /** Each accepted request is in the log once, in order, or is the one now running. */
  ghost predicate AcceptedOnce<D, L, E>(s: State<D, L, E>) {
    && |s.accepted| == |s.log| + (if s.writer.Busy? then 1 else 0)
    && (forall i {:trigger s.log[i]} :: 0 <= i < |s.log| ==> s.accepted[i] == s.log[i].req)
    && (s.writer.Busy? ==> s.accepted[|s.log|] == s.writer.req)
    && NoDuplicates(s.accepted)
    && (forall i :: 0 <= i < |s.accepted| ==> s.accepted[i] in s.calls)
    && (forall r :: r in s.calls ==> (r in s.accepted <==> WasAccepted(s.calls[r].phase)))
  }

  /** Execution `i` ran whole, and its reply is the one it computes alone at its place. */
  ghost predicate ReplyIsSerial<D, L, E>(s: State<D, L, E>, db0: D, i: nat)
    requires i < |s.log|
  {
    var e := s.log[i];
    && e.req in s.replies && e.req in s.calls && e.body == s.calls[e.req].body
    && e.body.finished(s.replies[e.req])
    && s.replies[e.req] == SerialReply(db0, s.log, i)
    && Allowed(e.body, Serial(db0, s.log[..i]), e.inputs)
  }

  ghost predicate RepliesAreSerial<D, L, E>(s: State<D, L, E>, db0: D) {
    && (forall i {:trigger s.log[i]} {:trigger ReplyIsSerial(s, db0, i)} :: 0 <= i < |s.log| ==> ReplyIsSerial(s, db0, i))
    && (forall r :: r in s.replies ==> r in s.accepted)
    && (s.writer.Busy? ==> s.writer.req !in s.replies)
    && (forall r :: r in s.calls && s.calls[r].phase.Replied? ==>
          r in s.replies && s.calls[r].phase.local == s.replies[r])
  }

  ghost predicate Shutdown<D, L, E>(s: State<D, L, E>) {
    && (s.writer.Exited? ==> s.closed)
    && (s.handlesClosed ==> s.writer.Exited?)
  }

  ghost predicate Inv<D, L, E>(s: State<D, L, E>, db0: D) {
    && DatabaseIsSerial(s, db0)
    && AcceptedOnce(s)
    && RepliesAreSerial(s, db0)
    && Shutdown(s)
  }

  lemma SerialOfExtended<D, L, E>(db: D, log: seq<Execution<D, L, E>>, e: Execution<D, L, E>)
    ensures Serial(db, log + [e]) == RunAlone(e.body, Serial(db, log), e.inputs).0
    ensures SerialReply(db, log + [e], |log|) == RunAlone(e.body, Serial(db, log), e.inputs).1
    ensures forall i :: 0 <= i < |log| ==> SerialReply(db, log + [e], i) == SerialReply(db, log, i)
    ensures forall i :: 0 <= i <= |log| ==> Serial(db, (log + [e])[..i]) == Serial(db, log[..i])
  {
    assert (log + [e])[..|log|] == log;
    forall i | 0 <= i <= |log|
      ensures Serial(db, (log + [e])[..i]) == Serial(db, log[..i])
      ensures i < |log| ==> SerialReply(db, log + [e], i) == SerialReply(db, log, i)
    {
      assert (log + [e])[..i] == log[..i];
    }
  }

  lemma StepKeepsDatabase<D, L, E>(s: State<D, L, E>, a: Action<D, L, E>, t: State<D, L, E>, db0: D)
    requires DatabaseIsSerial(s, db0) && Step(s, a, t)
    ensures DatabaseIsSerial(t, db0)
  {
    match a
    case Execute(e) => ExecuteKeepsDatabase(s, e, t, db0);
    case Reply =>
      SerialOfExtended(db0, s.log,
        Execution(s.writer.req, s.calls[s.writer.req].body, s.writer.inputs));
    case _ =>
  }

  lemma ExecuteKeepsDatabase<D, L, E>(s: State<D, L, E>, e: E, t: State<D, L, E>, db0: D)
    requires DatabaseIsSerial(s, db0) && Step(s, Execute(e), t)
    ensures DatabaseIsSerial(t, db0)
  {
    assert (s.writer.inputs + [e])[..|s.writer.inputs|] == s.writer.inputs;
  }

  lemma StepKeepsAccepted<D, L, E>(s: State<D, L, E>, a: Action<D, L, E>, t: State<D, L, E>)
    requires AcceptedOnce(s) && Step(s, a, t)
    ensures AcceptedOnce(t)
  {
    match a
    case Accept(r) => AcceptKeepsAccepted(s, r, t);
    case Reply => ReplyKeepsAccepted(s, t);
    case Execute(_) =>
    case Close =>
    case Exit =>
    case CloseReturns =>
    case _ =>
      CallStepKeepsPhases(s, a, t);
      CallsKeepAccepted(s, t);
  }

  lemma AcceptKeepsAccepted<D, L, E>(s: State<D, L, E>, r: nat, t: State<D, L, E>)
    requires AcceptedOnce(s) && Step(s, Accept(r), t)
    ensures AcceptedOnce(t)
  {
    assert r !in s.accepted;
    assert forall q :: q in t.accepted <==> q in s.accepted || q == r;
  }

  lemma ReplyKeepsAccepted<D, L, E>(s: State<D, L, E>, t: State<D, L, E>)
    requires AcceptedOnce(s) && Step(s, Reply, t)
    ensures AcceptedOnce(t)
  {
    assert t.accepted == s.accepted && t.calls == s.calls && |t.log| == |s.log| + 1;
  }

  /** Calls come and change phase without being accepted. */
  ghost predicate SameAcceptance<D, L, E>(s: State<D, L, E>, t: State<D, L, E>) {
    && t == s.(calls := t.calls)
    && (forall r :: r in s.calls ==> r in t.calls)
    && (forall r :: r in t.calls ==>
          (WasAccepted(t.calls[r].phase) <==> r in s.calls && WasAccepted(s.calls[r].phase)))
  }

  lemma CallStepKeepsPhases<D, L, E>(s: State<D, L, E>, a: Action<D, L, E>, t: State<D, L, E>)
    requires Step(s, a, t)
    requires a.Submit? || a.CancelContext? || a.Refuse? || a.Withdraw? || a.Receive? || a.Abandon?
    ensures SameAcceptance(s, t)
  {
  }

  lemma CallsKeepAccepted<D, L, E>(s: State<D, L, E>, t: State<D, L, E>)
    requires AcceptedOnce(s) && SameAcceptance(s, t)
    ensures AcceptedOnce(t)
  {
    forall r | r in t.calls ensures r in t.accepted <==> WasAccepted(t.calls[r].phase) {
      if r !in s.calls {
        assert r !in s.accepted;
      }
    }
  }

  lemma EarlierReplyStays<D, L, E>(s: State<D, L, E>, t: State<D, L, E>, db0: D, i: nat)
    requires Inv(s, db0) && Step(s, Reply, t) && i < |s.log|
    ensures ReplyIsSerial(t, db0, i)
  {
    var e := Execution(s.writer.req, s.calls[s.writer.req].body, s.writer.inputs);
    assert ReplyIsSerial(s, db0, i) && t.log[i] == s.log[i];
    assert s.accepted[i] != s.accepted[|s.log|];
    SerialOfExtended(db0, s.log, e);
  }

  lemma NewReplyIsSerial<D, L, E>(s: State<D, L, E>, t: State<D, L, E>, db0: D)
    requires Inv(s, db0) && Step(s, Reply, t)
    ensures ReplyIsSerial(t, db0, |s.log|)
  {
    var e := Execution(s.writer.req, s.calls[s.writer.req].body, s.writer.inputs);
    assert t.log[|s.log|] == e && t.log[..|s.log|] == s.log;
    SerialOfExtended(db0, s.log, e);
  }

  lemma ReplyKeepsReplies<D, L, E>(s: State<D, L, E>, t: State<D, L, E>, db0: D)
    requires Inv(s, db0) && Step(s, Reply, t)
    ensures RepliesAreSerial(t, db0)
  {
    forall i {:trigger ReplyIsSerial(t, db0, i)} | 0 <= i < |t.log| ensures ReplyIsSerial(t, db0, i) {
      if i == |s.log| {
        NewReplyIsSerial(s, t, db0);
      } else {
        EarlierReplyStays(s, t, db0, i);
      }
    }
    assert s.accepted[|s.log|] == s.writer.req;
  }

  /** Only Reply touches the log and the reply channels. */
  lemma OtherStepsKeepLog<D, L, E>(s: State<D, L, E>, a: Action<D, L, E>, t: State<D, L, E>)
    requires Step(s, a, t) && !a.Reply?
    ensures t.log == s.log && t.replies == s.replies && s.accepted <= t.accepted
    ensures forall r :: r in s.calls ==> r in t.calls && t.calls[r].body == s.calls[r].body
  {
  }

  /** Only Receive hands out a reply, and only Accept gives the writer a request. */
  lemma OtherStepsInventNothing<D, L, E>(s: State<D, L, E>, a: Action<D, L, E>, t: State<D, L, E>)
    requires Step(s, a, t) && !a.Reply?
    ensures forall r :: r in t.calls && t.calls[r].phase.Replied? ==>
              || (r in s.calls && s.calls[r].phase == t.calls[r].phase)
              || (r in s.replies && t.calls[r].phase.local == s.replies[r])
    ensures t.writer.Busy? ==> (s.writer.Busy? && s.writer.req == t.writer.req)
                               || InPhase(s, t.writer.req, Submitting)
  {
  }

  lemma StepKeepsReplies<D, L, E>(s: State<D, L, E>, a: Action<D, L, E>, t: State<D, L, E>, db0: D)
    requires Inv(s, db0) && Step(s, a, t)
    ensures RepliesAreSerial(t, db0)
  {
    if a.Reply? {
      ReplyKeepsReplies(s, t, db0);
    } else {
      OtherStepsKeepLog(s, a, t);
      OtherStepsInventNothing(s, a, t);
      SubmittingHasNoReply(s, db0);
      FrameReplies(s, t, db0);
    }
  }

  lemma SubmittingHasNoReply<D, L, E>(s: State<D, L, E>, db0: D)
    requires AcceptedOnce(s) && RepliesAreSerial(s, db0)
    ensures forall r :: InPhase(s, r, Submitting) ==> r !in s.replies
  {
  }

  lemma FrameReplies<D, L, E>(s: State<D, L, E>, t: State<D, L, E>, db0: D)
    requires RepliesAreSerial(s, db0)
    requires t.log == s.log && t.replies == s.replies && s.accepted <= t.accepted
    requires forall r :: r in s.calls ==> r in t.calls && t.calls[r].body == s.calls[r].body
    requires forall r :: r in t.calls && t.calls[r].phase.Replied? ==>
               || (r in s.calls && s.calls[r].phase == t.calls[r].phase)
               || (r in s.replies && t.calls[r].phase.local == s.replies[r])
    requires t.writer.Busy? ==> t.writer.req !in s.replies
    ensures RepliesAreSerial(t, db0)
  {
    forall i {:trigger ReplyIsSerial(t, db0, i)} | 0 <= i < |t.log| ensures ReplyIsSerial(t, db0, i) {
      assert ReplyIsSerial(s, db0, i);
    }
  }

  lemma StepKeepsInv<D, L, E>(s: State<D, L, E>, a: Action<D, L, E>, t: State<D, L, E>, db0: D)
    requires Inv(s, db0) && Step(s, a, t)
    ensures Inv(t, db0)
  {
    StepKeepsDatabase(s, a, t, db0);
    StepKeepsAccepted(s, a, t);
    StepKeepsReplies(s, a, t, db0);
  }

  lemma {:induction false} RunKeepsInv<D, L, E>(
    db0: D, states: seq<State<D, L, E>>, actions: seq<Action<D, L, E>>, i: nat)
    requires IsRun(db0, states, actions) && i < |states|
    ensures Inv(states[i], db0)
  {
    if i > 0 {
      RunKeepsInv(db0, states, actions, i - 1);
      RunStep(db0, states, actions, i);
      StepKeepsInv(states[i - 1], actions[i - 1], states[i], db0);
    }
  }

  // ----- the theorems -----

  /** Linearizability: whenever no callback is in the middle, the database is what the
      accepted callbacks give when run whole, one after another, each exactly once and
      in the order they were accepted. */
  lemma WritesAreSerial<D, L, E>(
    db0: D, states: seq<State<D, L, E>>, actions: seq<Action<D, L, E>>, i: nat)
    requires IsRun(db0, states, actions) && i < |states|
    requires !states[i].writer.Busy?
    ensures states[i].db == Serial(db0, states[i].log)
    ensures IsSerialHistory(db0, states[i].log)
    ensures Requests(states[i].log) == states[i].accepted && NoDuplicates(states[i].accepted)
  {
    RunKeepsInv(db0, states, actions, i);
  }

  /** A caller that got a reply got the one its own callback computes when run alone at
      its request's place in the order of acceptance. */
  lemma RepliesComeFromSerialOrder<D, L, E>(
    db0: D, states: seq<State<D, L, E>>, actions: seq<Action<D, L, E>>, i: nat, r: nat) returns (k: nat)
    requires IsRun(db0, states, actions) && i < |states|
    requires r in states[i].calls && states[i].calls[r].phase.Replied?
    ensures k < |states[i].log| && states[i].log[k].req == r
    ensures states[i].log[k].body == states[i].calls[r].body
    ensures states[i].calls[r].phase.local == SerialReply(db0, states[i].log, k)
  {
    RunKeepsInv(db0, states, actions, i);
    k :| 0 <= k < |states[i].accepted| && states[i].accepted[k] == r;
    assert k < |states[i].log|;
  }

  /** What a caller in a call, or the writer on its behalf, does. */
  ghost predicate IsProgress<D, L, E>(a: Action<D, L, E>) {
    a.Accept? || a.Refuse? || a.Withdraw? || a.Execute? || a.Reply? || a.Receive? || a.Abandon?
  }

  /** While a call has not returned, the writer or its caller can move, before, during and
      after Close, if the running callback can take its next statement. */
  lemma NoCallIsStuck<D, L, E>(
    db0: D, states: seq<State<D, L, E>>, actions: seq<Action<D, L, E>>, i: nat, r: nat, e: E)
    returns (a: Action<D, L, E>, t: State<D, L, E>)
    requires IsRun(db0, states, actions) && i < |states|
    requires r in states[i].calls && !HasReturned(states[i].calls[r].phase)
    requires var s := states[i]; s.writer.Busy? && s.writer.req in s.calls ==>
      || s.calls[s.writer.req].body.finished(s.writer.local)
      || s.calls[s.writer.req].body.enabled(s.db, s.writer.local, e)
    ensures IsProgress(a) && Step(states[i], a, t)
  {
    RunKeepsInv(db0, states, actions, i);
    var s := states[i];
    if s.writer.Busy? {
      var body := s.calls[s.writer.req].body;
      if body.finished(s.writer.local) {
        a := Reply;
        t := s.(writer := Idle, replies := s.replies[s.writer.req := s.writer.local],
                log := s.log + [Execution(s.writer.req, body, s.writer.inputs)]);
      } else {
        a := Execute(e);
        var (db, local) := body.next(s.db, s.writer.local, e);
        t := s.(db := db, writer := Busy(s.writer.req, local, s.writer.inputs + [e]));
      }
    } else if s.calls[r].phase.Waiting? {
      WaitingHasReply(s, db0, r);
      a, t := Receive(r), s.(calls := WithPhase(s, r, Replied(s.replies[r])));
    } else if s.writer.Idle? {
      a := Accept(r);
      t := s.(calls := WithPhase(s, r, Waiting), accepted := s.accepted + [r],
              writer := Busy(r, s.calls[r].body.init, []));
    } else {
      a, t := Refuse(r), s.(calls := WithPhase(s, r, RefusedClosed));
    }
  }

  lemma WaitingHasReply<D, L, E>(s: State<D, L, E>, db0: D, r: nat)
    requires Inv(s, db0) && !s.writer.Busy? && InPhase(s, r, Waiting)
    ensures r in s.replies
  {
    var k :| 0 <= k < |s.accepted| && s.accepted[k] == r;
    assert s.log[k].req == r && ReplyIsSerial(s, db0, k);
  }

  /** A caller whose context is done can return at once, and so can one that finds the pool
      closed before it was accepted; the database and the log stay as they are. */
  lemma CallerCanLeave<D, L, E>(s: State<D, L, E>, r: nat) returns (a: Action<D, L, E>, t: State<D, L, E>)
    requires r in s.calls && !HasReturned(s.calls[r].phase)
    requires s.calls[r].ctxDone || (s.closed && s.calls[r].phase.Submitting?)
    ensures Step(s, a, t) && r in t.calls && HasReturned(t.calls[r].phase) && !t.calls[r].phase.Replied?
    ensures t.db == s.db && t.log == s.log && t.writer == s.writer
  {
    if s.calls[r].phase.Waiting? {
      a, t := Abandon(r), s.(calls := WithPhase(s, r, Abandoned));
    } else if s.calls[r].ctxDone {
      a, t := Withdraw(r), s.(calls := WithPhase(s, r, Withdrawn));
    } else {
      a, t := Refuse(r), s.(calls := WithPhase(s, r, RefusedClosed));
    }
  }

  /** A call refused because the pool closed, or withdrawn before acceptance, is not
      accepted in any state of the run, so its callback never runs. */
  lemma UnacceptedHasNoEffect<D, L, E>(
    db0: D, states: seq<State<D, L, E>>, actions: seq<Action<D, L, E>>, i: nat, j: nat, r: nat)
    requires IsRun(db0, states, actions) && i < |states| && j < |states|
    requires r in states[i].calls
    requires states[i].calls[r].phase.RefusedClosed? || states[i].calls[r].phase.Withdrawn?
    ensures r !in states[j].accepted
    ensures r !in Requests(states[j].log)
    ensures !(states[j].writer.Busy? && states[j].writer.req == r)
  {
    RunKeepsInv(db0, states, actions, i);
    RunKeepsInv(db0, states, actions, j);
    if j <= i {
      PhasesOnlyAdvance(db0, states, actions, j, i);
    } else {
      PhasesOnlyAdvance(db0, states, actions, i, j);
    }
    RequestsWereAccepted(states[j]);
  }

  lemma RequestsWereAccepted<D, L, E>(s: State<D, L, E>)
    requires AcceptedOnce(s)
    ensures forall r :: r in Requests(s.log) ==> r in s.accepted
    ensures s.writer.Busy? ==> s.writer.req in s.accepted
  {
    forall r | r in Requests(s.log) ensures r in s.accepted {
      var k :| 0 <= k < |s.log| && Requests(s.log)[k] == r;
      assert s.accepted[k] == s.log[k].req;
    }
  }

  /** The log and the accepted requests only grow; a returned call stays returned. */
  lemma {:induction false} PhasesOnlyAdvance<D, L, E>(
    db0: D, states: seq<State<D, L, E>>, actions: seq<Action<D, L, E>>, i: nat, j: nat)
    requires IsRun(db0, states, actions) && i <= j < |states|
    ensures states[i].accepted <= states[j].accepted && states[i].log <= states[j].log
    ensures forall r :: r in states[i].calls ==> r in states[j].calls
    ensures forall r :: r in states[i].calls && HasReturned(states[i].calls[r].phase) ==>
              states[j].calls[r].phase == states[i].calls[r].phase
  {
    if i < j {
      PhasesOnlyAdvance(db0, states, actions, i, j - 1);
      RunStep(db0, states, actions, j);
    }
  }

  /** Once Close has returned, every accepted request has run to completion and its
      reply is in its channel, whether or not its caller is still there; and nothing
      is accepted or executed from then on. */
  lemma CloseStrandsNothing<D, L, E>(
    db0: D, states: seq<State<D, L, E>>, actions: seq<Action<D, L, E>>, i: nat, j: nat)
    requires IsRun(db0, states, actions) && i <= j < |states|
    requires states[i].handlesClosed
    ensures states[j].accepted == Requests(states[i].log) && states[j].log == states[i].log
    ensures states[j].db == Serial(db0, states[i].log)
    ensures forall k :: 0 <= k < |states[i].log| ==>
              && states[i].log[k].req in states[i].replies
              && states[i].log[k].body.finished(states[i].replies[states[i].log[k].req])
  {
    RunKeepsInv(db0, states, actions, i);
    ExitedStaysExited(db0, states, actions, i, j);
  }

  lemma ExitedStep<D, L, E>(s: State<D, L, E>, a: Action<D, L, E>, t: State<D, L, E>)
    requires Step(s, a, t) && s.writer.Exited?
    ensures t.writer.Exited? && t.db == s.db && t.log == s.log && t.accepted == s.accepted
  {
  }

  lemma {:induction false} ExitedStaysExited<D, L, E>(
    db0: D, states: seq<State<D, L, E>>, actions: seq<Action<D, L, E>>, i: nat, j: nat)
    requires IsRun(db0, states, actions) && i <= j < |states|
    requires states[i].writer.Exited?
    ensures states[j].writer.Exited? && states[j].db == states[i].db
    ensures states[j].log == states[i].log && states[j].accepted == states[i].accepted
  {
    if i < j {
      ExitedStaysExited(db0, states, actions, i, j - 1);
      RunStep(db0, states, actions, j);
      ExitedStep(states[j - 1], actions[j - 1], states[j]);
    }
  }

  /** The context's error says nothing about the effect: some run returns it from a
      Write whose callback nevertheless changed the database. */
  lemma AbandonedWriteMayTakeEffect()
    returns (states: seq<State<int, bool, int>>, actions: seq<Action<int, bool, int>>)
    ensures IsRun(0, states, actions)
    ensures var last := states[|states| - 1];
      0 in last.calls && last.calls[0].phase == Abandoned && last.db == 1
  {
    var body: Callback<int, bool, int> :=
      Callback(false, (d, l, e) => true, (d, l, e) => (d + 1, true), l => l);
    var s0: State<int, bool, int> := State(0, Idle, false, false, map[], map[], [], []);
    var s1 := s0.(calls := map[0 := Call(body, Submitting, true)]);
    var s2 := s1.(calls := map[0 := Call(body, Waiting, true)], accepted := [0],
                  writer := Busy(0, false, []));
    var s3 := s2.(calls := map[0 := Call(body, Abandoned, true)]);
    var s4 := s3.(db := 1, writer := Busy(0, true, [7]));
    states := [s0, s1, s2, s3, s4];
    actions := [Submit(0, body, true), Accept(0), Abandon(0), Execute(7)];
    assert Step(s0, actions[0], s1);
    assert Step(s1, actions[1], s2);
    assert Step(s2, actions[2], s3);
    assert [] + [7] == [7];
    assert Step(s3, actions[3], s4);
  }
}
