/** The queue's operations as callbacks of the single writer, statement by statement,
    and what every history of them guarantees. */
module QueueHistory {
  import opened CommandTable
  import opened SingleWriter

  datatype Op =
    | Enqueue(name: string, priority: int, dedupKey: string)
    | Claim(worker: string, leaseDuration: nat)
    | Complete(id: int)
    | Fail(id: int)
    | Refresh(id: int, leaseUntil: int)
    | Sweep
    | DeleteOld(olderThan: int)

  /** What a statement takes from its environment: the clock, whether the statement
      fails (a failed statement changes nothing), and the database's pick among ties. */
  datatype Input = Input(now: nat, fails: bool, choice: int)

  datatype Local =
    | Start
    | Selected(id: int)
    | Marked(id: int)
    | Claimed(id: int, row: Row)
    | NoneQueued
    | Done
    | Error

  predicate Finished(l: Local) {
    l.Claimed? || l.NoneQueued? || l.Done? || l.Error?
  }

  /** The single statement of every operation but Claim. */
  function OneStatement(op: Op, t: Table, now: nat): Table
    requires !op.Claim?
  {
    match op
    case Enqueue(name, priority, key) => EnqueueCommand(t, SecondOf(now), name, priority, key)
    case Complete(id) => EndCommand(t, id, Completed, SecondOf(now))
    case Fail(id) => EndCommand(t, id, Failed, SecondOf(now))
    case Refresh(id, leaseUntil) => RefreshLease(t, id, leaseUntil)
    case Sweep => SweepExpiredLeases(t, SecondOf(now))
    case DeleteOld(olderThan) => DeleteOldCompleted(t, olderThan)
  }

  /** Claim selects, then marks, then loads; a failing statement ends it where it is. */
  ghost function ClaimStatement(op: Op, t: Table, l: Local, i: Input): (Table, Local)
    requires op.Claim?
  {
    match l
    case Start => if NothingQueued(t) then (t, NoneQueued) else (t, Selected(i.choice))
    case Selected(id) =>
      (MarkCommandRunning(t, id, op.worker, SecondOf(i.now), SecondOf(i.now + op.leaseDuration)), Marked(id))
    case Marked(id) => if id in t.rows then (t, Claimed(id, t.rows[id])) else (t, Error)
    case _ => (t, l)
  }

  ghost function Statement(op: Op, t: Table, l: Local, i: Input): (Table, Local) {
    if i.fails then (t, Error)
    else if op.Claim? then ClaimStatement(op, t, l, i)
    else (OneStatement(op, t, i.now), Done)
  }

  ghost predicate Selectable(op: Op, t: Table, l: Local, i: Input) {
    op.Claim? && l.Start? && !i.fails && !NothingQueued(t) ==> IsNextQueued(t, i.choice)
  }

  ghost function Body(op: Op): Callback<Table, Local, Input> {
    Callback(Start,
             (t, l, i) => Selectable(op, t, l, i),
             (t, l, i) => Statement(op, t, l, i),
             l => Finished(l))
  }

  // ----- Claim is atomic -----

  ghost predicate Took(op: Op, t: Table, u: Table, id: int, now: nat)
    requires op.Claim?
  {
    && IsNextQueued(t, id)
    && u == MarkCommandRunning(t, id, op.worker, SecondOf(now), SecondOf(now + op.leaseDuration))
  }

  /** One indivisible claim: nothing when nothing is queued, otherwise the row at the
      head of the order marked running, or an error that may have marked it too. */
  ghost predicate AtomicClaim(op: Op, t: Table, u: Table, l: Local)
    requires op.Claim?
  {
    match l
    case NoneQueued => NothingQueued(t) && u == t
    case Claimed(id, row) => (exists now :: Took(op, t, u, id, now)) && id in u.rows && row == u.rows[id]
    case Error => u == t || exists id, now :: Took(op, t, u, id, now)
    case _ => false
  }

  /** Where a claim stands after some of its statements. */
  ghost predicate ClaimProgress(op: Op, t: Table, u: Table, l: Local)
    requires op.Claim?
  {
    match l
    case Start => u == t
    case Selected(id) => u == t && IsNextQueued(t, id)
    case Marked(id) => exists now :: Took(op, t, u, id, now)
    case _ => AtomicClaim(op, t, u, l)
  }

  lemma {:induction false} ClaimProgresses(op: Op, t: Table, inputs: seq<Input>)
    requires op.Claim? && Allowed(Body(op), t, inputs)
    ensures var (u, l) := RunAlone(Body(op), t, inputs); ClaimProgress(op, t, u, l)
  {
    if inputs != [] {
      var before := inputs[..|inputs| - 1];
      var i := inputs[|inputs| - 1];
      ClaimProgresses(op, t, before);
      var (u, l) := RunAlone(Body(op), t, before);
      assert Selectable(op, u, l, i);
      if l.Selected? && !i.fails {
        assert Took(op, t, Statement(op, u, l, i).0, l.id, i.now);
      }
    }
  }

  /** Select, mark and load, run by the single writer, amount to one atomic claim of a
      highest-priority queued command. */
  lemma ClaimIsAtomic(op: Op, t: Table, inputs: seq<Input>)
    requires op.Claim? && Allowed(Body(op), t, inputs)
    requires Finished(RunAlone(Body(op), t, inputs).1)
    ensures var (u, l) := RunAlone(Body(op), t, inputs); AtomicClaim(op, t, u, l)
  {
    ClaimProgresses(op, t, inputs);
  }

  lemma {:induction false} OtherOpsRunOnce(op: Op, t: Table, inputs: seq<Input>)
    requires !op.Claim? && Allowed(Body(op), t, inputs)
    ensures var (u, l) := RunAlone(Body(op), t, inputs);
      match l
      case Start => u == t
      case Error => u == t
      case _ => l.Done? && exists i :: i in inputs && u == OneStatement(op, t, i.now)
  {
    if inputs != [] {
      var before := inputs[..|inputs| - 1];
      OtherOpsRunOnce(op, t, before);
      var (u, l) := RunAlone(Body(op), t, before);
      assert !Finished(l) && u == t;
      var i := inputs[|inputs| - 1];
      assert RunAlone(Body(op), t, inputs) == Statement(op, t, l, i);
    }
  }

  // ----- what an operation that succeeds has written -----

  /** A claim that returns a command has put it in the claimant's hands for the lease asked
      for, from one clock reading, and has touched no other row. */
  lemma ClaimHasWritten(op: Op, t: Table, inputs: seq<Input>)
    requires op.Claim? && Allowed(Body(op), t, inputs) && RunAlone(Body(op), t, inputs).1.Claimed?
    ensures var (u, l) := RunAlone(Body(op), t, inputs);
      && IsQueued(t, l.id) && OnlyRow(t, u, l.id) && l.id in u.rows && l.row == u.rows[l.id]
      && SameOrigin(t.rows[l.id], l.row)
      && exists now: nat :: IsHeld(l.row, op.worker, SecondOf(now), SecondOf(now + op.leaseDuration))
  {
    ClaimIsAtomic(op, t, inputs);
    var (u, l) := RunAlone(Body(op), t, inputs);
    var now: nat :| Took(op, t, u, l.id, now);
    MarkWrites(t, l.id, op.worker, SecondOf(now), SecondOf(now + op.leaseDuration));
  }

  /** The rows of `u` are those of `t` with what the operation asks for, column by column,
      written at second `now`. */
  ghost predicate Wrote(op: Op, t: Table, u: Table, now: int) {
    match op
    case Enqueue(name, priority, key) =>
      && u.rows.Keys == t.rows.Keys + {t.nextId} && IsNew(u.rows[t.nextId], name, priority, key, now)
      && forall o :: o in t.rows ==> u.rows[o] == t.rows[o]
    case Claim(_, _) => true
    case Complete(id) => OnlyRow(t, u, id) && (id in t.rows ==> IsEndOf(t.rows[id], u.rows[id], Completed, now))
    case Fail(id) => OnlyRow(t, u, id) && (id in t.rows ==> IsEndOf(t.rows[id], u.rows[id], Failed, now))
    case Refresh(id, lease) =>
      && OnlyRow(t, u, id)
      && (IsRunning(t, id) ==> u.rows[id] == t.rows[id].(leaseUntil := u.rows[id].leaseUntil)
                               && u.rows[id].leaseUntil.Some? && u.rows[id].leaseUntil.value == lease)
      && (id in t.rows && !IsRunning(t, id) ==> u.rows[id] == t.rows[id])
    case Sweep => u.rows.Keys == t.rows.Keys && forall id :: id in t.rows ==> SweptRow(t.rows[id], u.rows[id], now)
    case DeleteOld(olderThan) =>
      && u.rows.Keys <= t.rows.Keys
      && forall id :: id in t.rows ==>
           (id in u.rows <==> !EndedBefore(t.rows[id], olderThan)) && (id in u.rows ==> u.rows[id] == t.rows[id])
  }

  ghost predicate SweptRow(r: Row, q: Row, now: int) {
    if r.status == Running && r.leaseUntil.Some? && r.leaseUntil.value < now
    then SameOrigin(r, q) && q.status == Queued && q.worker == "" && q.leaseUntil.None? && q.startedAt.None?
    else q == r
  }

  lemma StatementWrites(op: Op, t: Table, now: nat)
    requires ValidTable(t) && !op.Claim?
    ensures Wrote(op, t, OneStatement(op, t, now), SecondOf(now))
  {
  }

  /** A queue operation whose Write returned without an error has written what it was asked
      to write, at one of its clock readings, and nothing else. */
  lemma DoneHasWritten(op: Op, t: Table, inputs: seq<Input>)
    requires ValidTable(t) && !op.Claim? && Allowed(Body(op), t, inputs)
    requires RunAlone(Body(op), t, inputs).1.Done?
    ensures exists i :: i in inputs && Wrote(op, t, RunAlone(Body(op), t, inputs).0, SecondOf(i.now))
  {
    OtherOpsRunOnce(op, t, inputs);
    var i :| i in inputs && RunAlone(Body(op), t, inputs).0 == OneStatement(op, t, i.now);
    StatementWrites(op, t, i.now);
  }

  // ----- what each operation may do to a row -----

  ghost predicate RequeuesOnlyBySweep(op: Op, t: Table, u: Table) {
    forall id :: id in t.rows && id in u.rows && t.rows[id].status.Running? && u.rows[id].status.Queued?
      ==> op.Sweep? && u.rows[id] == Requeue(t.rows[id])
  }

  /** What any operation may do to a valid table. */
  ghost predicate MayBecome(op: Op, t: Table, u: Table) {
    ValidTable(u) && KeepsCommands(t, u) && RequeuesOnlyBySweep(op, t, u)
  }

  lemma ClaimMayBecome(op: Op, t: Table, u: Table, l: Local)
    requires ValidTable(t) && op.Claim? && AtomicClaim(op, t, u, l)
    ensures MayBecome(op, t, u)
  {
  }

  lemma StatementMayBecome(op: Op, t: Table, now: nat)
    requires ValidTable(t) && !op.Claim?
    ensures MayBecome(op, t, OneStatement(op, t, now))
  {
  }

  lemma OpEffect(op: Op, t: Table, inputs: seq<Input>)
    requires ValidTable(t) && Allowed(Body(op), t, inputs)
    requires Finished(RunAlone(Body(op), t, inputs).1)
    ensures MayBecome(op, t, RunAlone(Body(op), t, inputs).0)
  {
    var (u, l) := RunAlone(Body(op), t, inputs);
    if op.Claim? {
      ClaimIsAtomic(op, t, inputs);
      ClaimMayBecome(op, t, u, l);
    } else {
      OtherOpsRunOnce(op, t, inputs);
      if l.Done? {
        var now :| u == OneStatement(op, t, now);
        StatementMayBecome(op, t, now);
      }
    }
  }

  // ----- sequences of tables -----

  /** `ts[i]` is the table before operation `ops[i]`, `ts[i + 1]` the one after. */
  ghost predicate IsTrail(ops: seq<Op>, ts: seq<Table>) {
    && |ts| == |ops| + 1
    && ValidTable(ts[0])
    && forall i {:trigger ops[i]} :: 0 <= i < |ops| ==> MayBecome(ops[i], ts[i], ts[i + 1])
  }

  lemma TrailKeepsCommands(ops: seq<Op>, ts: seq<Table>)
    requires IsTrail(ops, ts)
    ensures EachKeepsCommands(ts)
  {
    forall i: nat | i + 1 < |ts| ensures Linked(ts, i) {
      assert MayBecome(ops[i], ts[i], ts[i + 1]);
    }
  }

  lemma {:induction false} TrailIsValid(ops: seq<Op>, ts: seq<Table>, i: nat)
    requires IsTrail(ops, ts) && i < |ts|
    ensures ValidTable(ts[i])
  {
    if i > 0 {
      assert MayBecome(ops[i - 1], ts[i - 1], ts[i]);
    }
  }

  /** Between a table where a row runs and a later one where it is queued lies a sweep
      that requeued it. */
  lemma {:induction false} RequeuedBySweep(ops: seq<Op>, ts: seq<Table>, i: nat, j: nat, id: int) returns (k: nat)
    requires IsTrail(ops, ts) && i <= j < |ts|
    requires IsRunning(ts[i], id) && IsQueued(ts[j], id)
    ensures i <= k < j && ops[k].Sweep?
    ensures IsRunning(ts[k], id)
    ensures id in ts[k + 1].rows && ts[k + 1].rows[id] == Requeue(ts[k].rows[id])
    decreases j - i
  {
    TrailIsValid(ops, ts, i);
    TrailKeepsCommands(ops, ts);
    CommandsAreKept(ts, i, j - 1, id);
    assert MayBecome(ops[j - 1], ts[j - 1], ts[j]);
    assert IsActive(ts[j - 1], id);
    if ts[j - 1].rows[id].status.Running? {
      k := j - 1;
    } else {
      k := RequeuedBySweep(ops, ts, i, j - 1, id);
    }
  }

  // ----- histories of the writer -----

  /** A serial history of the writer in which execution i is operation ops[i]. */
  ghost predicate IsHistory(ops: seq<Op>, log: seq<Execution<Table, Local, Input>>) {
    && |ops| == |log|
    && IsSerialHistory(EMPTY_TABLE, log)
    && forall i :: 0 <= i < |ops| ==> log[i].body == Body(ops[i])
  }

  /** The tables before, between and after the executions of `log`. */
  ghost function Trail(log: seq<Execution<Table, Local, Input>>): seq<Table> {
    seq(|log| + 1, i requires 0 <= i <= |log| => Serial(EMPTY_TABLE, log[..i]))
  }

  lemma TrailStep(ops: seq<Op>, log: seq<Execution<Table, Local, Input>>, i: nat)
    requires IsHistory(ops, log) && i < |log| && ValidTable(Trail(log)[i])
    ensures MayBecome(ops[i], Trail(log)[i], Trail(log)[i + 1])
    ensures Trail(log)[i + 1] == RunAlone(Body(ops[i]), Trail(log)[i], log[i].inputs).0
  {
    assert log[..i + 1][..i] == log[..i] && log[..i + 1][i] == log[i];
    OpEffect(ops[i], Serial(EMPTY_TABLE, log[..i]), log[i].inputs);
  }

  /** Every history of the writer passes through the tables of a trail. */
  lemma HistoryIsTrail(ops: seq<Op>, log: seq<Execution<Table, Local, Input>>)
    requires IsHistory(ops, log)
    ensures IsTrail(ops, Trail(log))
  {
    forall i | 0 <= i < |ops| ensures MayBecome(ops[i], Trail(log)[i], Trail(log)[i + 1]) {
      TablesAreValid(ops, log, i);
      TrailStep(ops, log, i);
    }
  }

  lemma {:induction false} TablesAreValid(ops: seq<Op>, log: seq<Execution<Table, Local, Input>>, i: nat)
    requires IsHistory(ops, log) && i <= |log|
    ensures ValidTable(Trail(log)[i])
  {
    if i > 0 {
      TablesAreValid(ops, log, i - 1);
      TrailStep(ops, log, i - 1);
    }
  }

  /** Execution i was a claim that returned command `id`. */
  ghost predicate Returned(ops: seq<Op>, log: seq<Execution<Table, Local, Input>>, i: nat, id: int)
    requires |ops| == |log|
  {
    && i < |log| && ops[i].Claim?
    && var l := SerialReply(EMPTY_TABLE, log, i);
       l.Claimed? && l.id == id
  }

  lemma ReturnedTookIt(ops: seq<Op>, log: seq<Execution<Table, Local, Input>>, i: nat, id: int)
    requires IsHistory(ops, log) && Returned(ops, log, i, id)
    ensures IsNextQueued(Trail(log)[i], id)
    ensures IsRunning(Trail(log)[i + 1], id)
  {
    TablesAreValid(ops, log, i);
    TrailStep(ops, log, i);
    ClaimIsAtomic(ops[i], Trail(log)[i], log[i].inputs);
  }

  /** No two claims return the same queued occurrence: if two claims of a history
      return one id, a sweep between them put that command back in the queue. */
  lemma ClaimsAreExclusive(
    ops: seq<Op>, log: seq<Execution<Table, Local, Input>>, i: nat, j: nat, id: int) returns (k: nat)
    requires IsHistory(ops, log) && i < j
    requires Returned(ops, log, i, id) && Returned(ops, log, j, id)
    ensures i < k < j && ops[k].Sweep?
    ensures IsRunning(Trail(log)[k], id) && id in Trail(log)[k + 1].rows
    ensures Trail(log)[k + 1].rows[id] == Requeue(Trail(log)[k].rows[id])
  {
    HistoryIsTrail(ops, log);
    ReturnedTookIt(ops, log, i, id);
    ReturnedTookIt(ops, log, j, id);
    k := RequeuedBySweep(ops, Trail(log), i + 1, j, id);
  }

  // ----- runs of the writer -----

  lemma RunIsHistory(
    states: seq<State<Table, Local, Input>>, actions: seq<Action<Table, Local, Input>>, n: nat, ops: seq<Op>)
    requires IsRun(EMPTY_TABLE, states, actions) && n < |states|
    requires |ops| == |states[n].log|
    requires forall m :: 0 <= m < |ops| ==> states[n].log[m].body == Body(ops[m])
    ensures IsHistory(ops, states[n].log)
  {
    RunKeepsInv(EMPTY_TABLE, states, actions, n);
  }

  /** In any run of the writer protocol over queue operations, two callers that were
      both handed command `id` are separated by a sweep that requeued it. */
  lemma ConcurrentClaimsAreExclusive(
    states: seq<State<Table, Local, Input>>, actions: seq<Action<Table, Local, Input>>, n: nat,
    ops: seq<Op>, a: nat, b: nat, id: int) returns (i: nat, j: nat, k: nat)
    requires IsRun(EMPTY_TABLE, states, actions) && n < |states|
    requires |ops| == |states[n].log|
    requires forall m :: 0 <= m < |ops| ==> states[n].log[m].body == Body(ops[m])
    requires a != b && a in states[n].calls && b in states[n].calls
    requires states[n].calls[a].phase.Replied? && states[n].calls[b].phase.Replied?
    requires states[n].calls[a].phase.local.Claimed? && states[n].calls[a].phase.local.id == id
    requires states[n].calls[b].phase.local.Claimed? && states[n].calls[b].phase.local.id == id
    ensures (i < k < j || j < k < i) && i < |ops| && j < |ops|
    ensures states[n].log[i].req == a && states[n].log[j].req == b
    ensures ops[k].Sweep? && IsRunning(Trail(states[n].log)[k], id)
    ensures IsQueued(Trail(states[n].log)[k + 1], id)
  {
    var log := states[n].log;
    RunIsHistory(states, actions, n, ops);
    i := RepliesComeFromSerialOrder(EMPTY_TABLE, states, actions, n, a);
    j := RepliesComeFromSerialOrder(EMPTY_TABLE, states, actions, n, b);
    k := SeparatedBySweep(ops, log, i, j, id);
  }

  /** Operation `i` of the history returned command `id`. */
  ghost predicate RepliedWith(log: seq<Execution<Table, Local, Input>>, i: nat, id: int) {
    i < |log| && SerialReply(EMPTY_TABLE, log, i).Claimed? && SerialReply(EMPTY_TABLE, log, i).id == id
  }

  /** Operation `k` is a sweep that puts the running command back in the queue. */
  ghost predicate IsRequeue(ops: seq<Op>, log: seq<Execution<Table, Local, Input>>, k: nat, id: int) {
    && k < |ops| && k + 1 < |Trail(log)| && ops[k].Sweep?
    && IsRunning(Trail(log)[k], id) && IsQueued(Trail(log)[k + 1], id)
  }

  lemma SeparatedBySweep(
    ops: seq<Op>, log: seq<Execution<Table, Local, Input>>, i: nat, j: nat, id: int) returns (k: nat)
    requires IsHistory(ops, log) && i != j && RepliedWith(log, i, id) && RepliedWith(log, j, id)
    ensures (i < k < j || j < k < i) && IsRequeue(ops, log, k, id)
  {
    if i < j {
      k := SweepBetweenClaims(ops, log, i, j, id);
    } else {
      k := SweepBetweenClaims(ops, log, j, i, id);
    }
  }

  lemma SweepBetweenClaims(
    ops: seq<Op>, log: seq<Execution<Table, Local, Input>>, i: nat, j: nat, id: int) returns (k: nat)
    requires IsHistory(ops, log) && i < j && RepliedWith(log, i, id) && RepliedWith(log, j, id)
    ensures i < k < j && IsRequeue(ops, log, k, id)
  {
    OnlyClaimsAreClaimed(ops, log, i);
    OnlyClaimsAreClaimed(ops, log, j);
    k := ClaimsAreExclusive(ops, log, i, j, id);
  }

  lemma OnlyClaimsAreClaimed(ops: seq<Op>, log: seq<Execution<Table, Local, Input>>, i: nat)
    requires IsHistory(ops, log) && i < |log| && SerialReply(EMPTY_TABLE, log, i).Claimed?
    ensures ops[i].Claim?
  {
    if !ops[i].Claim? {
      OtherOpsRunOnce(ops[i], Serial(EMPTY_TABLE, log[..i]), log[i].inputs);
    }
  }

  // ----- who ended a command -----

  /** Operation `k` is the Complete or Fail that gives this status, and it succeeded. */
  ghost predicate IsEndOp(ops: seq<Op>, log: seq<Execution<Table, Local, Input>>, k: nat, id: int, status: Status)
    requires |ops| == |log|
  {
    k < |log| && ops[k] == (if status.Completed? then Complete(id) else Fail(id)) && SerialReply(EMPTY_TABLE, log, k).Done?
  }

  lemma OpKeepsEnd(op: Op, t: Table, u: Table, now: int, id: int)
    requires ValidTable(t) && Wrote(op, t, u, now) && !op.Claim? && IsEnded(u, id)
    ensures || (IsEnded(t, id) && u.rows[id].status == t.rows[id].status)
            || op == (if u.rows[id].status.Completed? then Complete(id) else Fail(id))
  {
  }

  lemma ClaimKeepsEnd(op: Op, t: Table, u: Table, l: Local, id: int)
    requires ValidTable(t) && op.Claim? && AtomicClaim(op, t, u, l) && IsEnded(u, id)
    ensures IsEnded(t, id) && u.rows[id].status == t.rows[id].status
  {
  }

  lemma HistoryStepKeepsEnd(ops: seq<Op>, log: seq<Execution<Table, Local, Input>>, i: nat, id: int)
    requires IsHistory(ops, log) && i < |log| && IsEnded(Trail(log)[i + 1], id)
    ensures || (IsEnded(Trail(log)[i], id) && Trail(log)[i + 1].rows[id].status == Trail(log)[i].rows[id].status)
            || IsEndOp(ops, log, i, id, Trail(log)[i + 1].rows[id].status)
  {
    var t, u := Trail(log)[i], Trail(log)[i + 1];
    TablesAreValid(ops, log, i);
    TrailStep(ops, log, i);
    if ops[i].Claim? {
      ClaimIsAtomic(ops[i], t, log[i].inputs);
      ClaimKeepsEnd(ops[i], t, u, SerialReply(EMPTY_TABLE, log, i), id);
    } else {
      OtherOpsRunOnce(ops[i], t, log[i].inputs);
      if SerialReply(EMPTY_TABLE, log, i).Done? {
        DoneHasWritten(ops[i], t, log[i].inputs);
        var now :| Wrote(ops[i], t, u, now);
        OpKeepsEnd(ops[i], t, u, now, id);
      }
    }
  }

  /** In every history a completed command was completed by a Complete of its id that
      succeeded, and a failed one failed by a Fail of it. */
  lemma {:induction false} EndedByOp(ops: seq<Op>, log: seq<Execution<Table, Local, Input>>, n: nat, id: int) returns (k: nat)
    requires IsHistory(ops, log) && n <= |log| && IsEnded(Trail(log)[n], id)
    ensures k < n && IsEndOp(ops, log, k, id, Trail(log)[n].rows[id].status)
  {
    assert Trail(log)[0] == EMPTY_TABLE;
    HistoryStepKeepsEnd(ops, log, n - 1, id);
    if IsEndOp(ops, log, n - 1, id, Trail(log)[n].rows[id].status) {
      k := n - 1;
    } else {
      k := EndedByOp(ops, log, n - 1, id);
    }
  }
}
