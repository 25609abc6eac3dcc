/** When is a command never executed by two workers at once?  The timing of claims and
    refreshes decides; this module finds the exact condition. */
module WorkerTiming {
  import opened CommandTable
  import opened WorkerPool
  import opened Options

  /** `lease` is the lease duration; a worker starts its refresh ticker at most
      `dispatchDelay` after the clock reading its claim's lease is based on; a refresh
      is written at most `refreshDelay` after the tick it answers. */
  datatype Timing = Timing(lease: nat, dispatchDelay: nat, refreshDelay: nat)

  predicate RefresherOnTime(p: Timing, now: int, r: Refresher) {
    now <= r.tick + p.refreshDelay
  }

  predicate PhaseOnTime(p: Timing, now: int, ph: Phase) {
    match ph
    case Idle => true
    case Claimed(_, stamp) => now <= stamp + p.dispatchDelay
    case Rejecting(_, stamp) => now <= stamp + p.dispatchDelay
    case Executing(_, r) => RefresherOnTime(p, now, r)
    case Finishing(_, r, _) => RefresherOnTime(p, now, r)
  }

  ghost predicate OnTime(p: Timing, s: State) {
    && (forall w :: w in s.workers ==> PhaseOnTime(p, s.now, s.workers[w]))
    && (forall r :: r in s.strays ==> RefresherOnTime(p, s.now, r.refresher))
  }

  /** A step on which no refresh fails and after which nobody is late. */
  ghost predicate TimelyStep(p: Timing, s: State, a: Action, t: State) {
    Step(p.lease, s, a, t) && !a.RefreshFails? && !a.StrayFails? && OnTime(p, t)
  }

  ghost predicate IsTimelyRun(p: Timing, states: seq<State>, actions: seq<Action>) {
    && |states| == |actions| + 1
    && Init(states[0])
    && forall i {:trigger actions[i]} :: 0 <= i < |actions| ==> TimelyStep(p, states[i], actions[i], states[i + 1])
  }

  ghost predicate Reachable(p: Timing, s: State) {
    exists states, actions :: IsTimelyRun(p, states, actions) && states[|states| - 1] == s
  }

  /** `w` is the recorded holder of a running row whose lease reaches `until`. */
  ghost predicate Holds(t: Table, w: string, id: int, until: int) {
    && id in t.rows && t.rows[id].status.Running? && t.rows[id].worker == w
    && t.rows[id].leaseUntil.Some? && SecondOf(until) <= t.rows[id].leaseUntil.value
  }

  ghost predicate NeverTogether(s: State) {
    forall v, w :: v in s.workers && w in s.workers && v != w ==>
      !(s.workers[v].Executing? && s.workers[w].Executing? && s.workers[v].id == s.workers[w].id)
  }

  /** Every executing worker is the recorded holder of a running row with an unexpired
      lease. */
  ghost predicate ExecutorsHoldLeases(s: State) {
    forall w :: w in s.workers && s.workers[w].Executing? ==> Holds(s.table, w, s.workers[w].id, s.now)
  }

  // ----- the invariant -----

  /** The lease outlasts the moment the phase must have moved on or refreshed. */
  ghost predicate PhaseCovered(p: Timing, t: Table, w: string, ph: Phase) {
    match ph
    case Idle => true
    case Claimed(id, stamp) => Holds(t, w, id, stamp + p.lease)
    case Rejecting(id, stamp) => Holds(t, w, id, stamp + p.lease)
    case Executing(id, r) => Holds(t, w, id, r.tick + p.refreshDelay) && (r.Writing? ==> r.tick <= r.stamp)
    case Finishing(id, r, outcome) =>
      Holds(t, w, id, r.tick + p.refreshDelay) && (r.Writing? ==> r.tick <= r.stamp) && !Active(outcome)
  }

  /** A stray refresh can only reach a row still held by its worker, or one that ended. */
  ghost predicate StrayHarmless(p: Timing, t: Table, r: Stray) {
    && r.id < t.nextId && (r.refresher.Writing? ==> r.refresher.tick <= r.refresher.stamp)
    && (IsActive(t, r.id) ==> Holds(t, r.worker, r.id, r.refresher.tick + p.refreshDelay))
  }

  ghost predicate Inv(p: Timing, s: State) {
    && ValidTable(s.table)
    && OnTime(p, s)
    && (forall w :: w in s.workers ==> PhaseCovered(p, s.table, w, s.workers[w]))
    && (forall r :: r in s.strays ==> StrayHarmless(p, s.table, r))
    && StraysAlone(s)
  }

  /** Nobody works on a command that a stray refresh names, and it names it alone. */
  ghost predicate StraysAlone(s: State) {
    && (forall r, w :: r in s.strays && w in s.workers && !s.workers[w].Idle? ==> s.workers[w].id != r.id)
    && (forall q, r :: q in s.strays && r in s.strays && q.id == r.id ==> q == r)
  }

  /** The condition: the first refresh after a claim is written before the lease ends. */
  predicate RefreshBeatsExpiry(p: Timing) {
    p.dispatchDelay + p.lease / 2 + p.refreshDelay <= p.lease
  }

  // ----- tables change without hurting other holders -----

  /** Rows that `w` holds are the same in both tables, unless `id`. */
  ghost predicate SameExcept(t: Table, u: Table, id: int) {
    && t.nextId <= u.nextId
    && (forall o :: o != id ==> (o in t.rows <==> o in u.rows) && (o in t.rows ==> u.rows[o] == t.rows[o]))
  }

  lemma OthersStayCovered(p: Timing, t: Table, u: Table, id: int, w: string, ph: Phase)
    requires PhaseCovered(p, t, w, ph) && SameExcept(t, u, id)
    requires !ph.Idle? ==> ph.id != id
    ensures PhaseCovered(p, u, w, ph)
  {
  }

  /** A sweep at a moment when nobody is late takes no row from its holder. */
  lemma SweepKeepsHolders(p: Timing, s: State)
    requires RefreshBeatsExpiry(p) && Inv(p, s)
    ensures var u := SweepExpiredLeases(s.table, SecondOf(s.now));
      && (forall w :: w in s.workers ==> PhaseCovered(p, u, w, s.workers[w]))
      && (forall r :: r in s.strays ==> StrayHarmless(p, u, r))
  {
    var u := SweepExpiredLeases(s.table, SecondOf(s.now));
    forall w | w in s.workers ensures PhaseCovered(p, u, w, s.workers[w]) {
      var ph := s.workers[w];
      if !ph.Idle? {
        var deadline := if ph.Claimed? || ph.Rejecting? then ph.stamp + p.lease else ph.refresher.tick + p.refreshDelay;
        SecondOfIsMonotone(s.now, deadline);
        assert Holds(s.table, w, ph.id, deadline);
      }
    }
    forall r | r in s.strays ensures StrayHarmless(p, u, r) {
      SecondOfIsMonotone(s.now, r.refresher.tick + p.refreshDelay);
      if IsActive(u, r.id) {
        assert IsActive(s.table, r.id);
      }
    }
  }

  /** A refresh by the row's holder leaves a lease that outlasts the next tick. */
  lemma RefreshCoversNextTick(p: Timing, t: Table, w: string, id: int, tick: int, stamp: int)
    requires RefreshBeatsExpiry(p) && Holds(t, w, id, tick + p.refreshDelay) && tick <= stamp
    ensures Holds(RefreshLease(t, id, SecondOf(stamp + p.lease)), w, id, tick + p.lease / 2 + p.refreshDelay)
    ensures Holds(RefreshLease(t, id, SecondOf(stamp + p.lease)), w, id, tick + p.refreshDelay)
  {
    SecondOfIsMonotone(tick + p.lease / 2 + p.refreshDelay, stamp + p.lease);
    SecondOfIsMonotone(tick + p.refreshDelay, stamp + p.lease);
  }

  // ----- every timely step keeps the invariant -----

  /** Two phases other than Idle never name the same command. */
  lemma HoldersDiffer(p: Timing, s: State, v: string, w: string)
    requires Inv(p, s) && v in s.workers && w in s.workers && v != w
    requires !s.workers[v].Idle? && !s.workers[w].Idle?
    ensures s.workers[v].id != s.workers[w].id
  {
  }

  lemma PhaseStepKeepsInv(p: Timing, s: State, a: Action, t: State)
    requires RefreshBeatsExpiry(p) && Inv(p, s) && TimelyStep(p, s, a, t)
    requires a.Start? || a.Crash? || a.Dispatch? || a.NoHandler? || a.HandlerReturns? || a.Tick? || a.Advance?
    ensures Inv(p, t)
  {
    if a.Dispatch? {
      var stamp := s.workers[a.w].stamp;
      SecondOfIsMonotone(s.now + p.lease / 2 + p.refreshDelay, stamp + p.lease);
    }
  }

  /** Changing row `id` only, when the one worker that may name it is `w`. */
  lemma RowStepKeepsInv(p: Timing, s: State, t: State, id: int, w: string)
    requires Inv(p, s) && OnTime(p, t) && ValidTable(t.table) && SameExcept(s.table, t.table, id)
    requires t.strays <= s.strays
    requires forall v :: v in t.workers && v != w ==> v in s.workers && t.workers[v] == s.workers[v]
    requires forall v :: v in s.workers && v != w && !s.workers[v].Idle? ==> s.workers[v].id != id
    requires forall r :: r in t.strays ==> r.id != id
    requires w in t.workers ==> PhaseCovered(p, t.table, w, t.workers[w])
    requires w in t.workers && !t.workers[w].Idle? ==> t.workers[w].id == id
    ensures Inv(p, t)
  {
    forall v | v in t.workers ensures PhaseCovered(p, t.table, v, t.workers[v]) {
      if v != w {
        OthersStayCovered(p, s.table, t.table, id, v, s.workers[v]);
      }
    }
  }

  lemma ClaimKeepsInv(p: Timing, s: State, a: Action, t: State)
    requires RefreshBeatsExpiry(p) && Inv(p, s) && TimelyStep(p, s, a, t)
    requires a.Claim? || a.ClaimLost?
    ensures Inv(p, t)
  {
    RowStepKeepsInv(p, s, t, a.id, a.w);
  }

  lemma EndingKeepsInv(p: Timing, s: State, a: Action, t: State)
    requires RefreshBeatsExpiry(p) && Inv(p, s) && TimelyStep(p, s, a, t)
    requires a.ShutDownBeforeDispatch? || a.Finish?
    ensures Inv(p, t)
  {
    var id := s.workers[a.w].id;
    forall v | v in s.workers && v != a.w && !s.workers[v].Idle? ensures s.workers[v].id != id {
      HoldersDiffer(p, s, v, a.w);
    }
    var t' := t.(strays := s.strays);
    RowStepKeepsInv(p, s, t', id, a.w);
  }

  lemma RefreshKeepsInv(p: Timing, s: State, a: Action, t: State)
    requires RefreshBeatsExpiry(p) && Inv(p, s) && TimelyStep(p, s, a, t)
    requires a.RefreshLands?
    ensures Inv(p, t)
  {
    var ph := s.workers[a.w];
    RefreshCoversNextTick(p, s.table, a.w, ph.id, ph.refresher.tick, ph.refresher.stamp);
    forall v | v in s.workers && v != a.w && !s.workers[v].Idle? ensures s.workers[v].id != ph.id {
      HoldersDiffer(p, s, v, a.w);
    }
    RowStepKeepsInv(p, s, t, ph.id, a.w);
  }

  lemma StrayKeepsInv(p: Timing, s: State, a: Action, t: State)
    requires RefreshBeatsExpiry(p) && Inv(p, s) && TimelyStep(p, s, a, t)
    requires a.StrayTick? || a.StrayQuits? || a.StrayLands?
    ensures Inv(p, t)
  {
    if a.StrayLands? && IsActive(s.table, a.stray.id) {
      var r := a.stray;
      RefreshCoversNextTick(p, s.table, r.worker, r.id, r.refresher.tick, r.refresher.stamp);
    }
  }

  lemma TableStepKeepsInv(p: Timing, s: State, a: Action, t: State)
    requires RefreshBeatsExpiry(p) && Inv(p, s) && TimelyStep(p, s, a, t)
    requires a.Enqueue? || a.Sweep? || a.DeleteOld?
    ensures Inv(p, t)
  {
    if a.Sweep? {
      SweepKeepsHolders(p, s);
    }
  }

  lemma StepKeepsInv(p: Timing, s: State, a: Action, t: State)
    requires RefreshBeatsExpiry(p) && Inv(p, s) && TimelyStep(p, s, a, t)
    ensures Inv(p, t)
  {
    match a
    case Claim(_, _) => ClaimKeepsInv(p, s, a, t);
    case ClaimLost(_, _) => ClaimKeepsInv(p, s, a, t);
    case ShutDownBeforeDispatch(_, _) => EndingKeepsInv(p, s, a, t);
    case Finish(_, _, _) => EndingKeepsInv(p, s, a, t);
    case RefreshLands(_) => RefreshKeepsInv(p, s, a, t);
    case StrayTick(_) => StrayKeepsInv(p, s, a, t);
    case StrayQuits(_) => StrayKeepsInv(p, s, a, t);
    case StrayLands(_, _) => StrayKeepsInv(p, s, a, t);
    case Enqueue(_, _, _) => TableStepKeepsInv(p, s, a, t);
    case Sweep => TableStepKeepsInv(p, s, a, t);
    case DeleteOld(_) => TableStepKeepsInv(p, s, a, t);
    case _ => PhaseStepKeepsInv(p, s, a, t);
  }

  lemma {:induction false} RunKeepsInv(p: Timing, states: seq<State>, actions: seq<Action>, i: nat)
    requires RefreshBeatsExpiry(p) && IsTimelyRun(p, states, actions) && i < |states|
    ensures Inv(p, states[i])
  {
    if i > 0 {
      RunKeepsInv(p, states, actions, i - 1);
      StepKeepsInv(p, states[i - 1], actions[i - 1], states[i]);
    }
  }

  /** Mutual exclusion: when the first refresh beats the expiry, every worker executing
      a command in a reachable state is the recorded holder of its running row with an
      unexpired lease, and no command is executed by two workers. */
  lemma ExecutionIsExclusive(p: Timing, s: State)
    requires RefreshBeatsExpiry(p) && Reachable(p, s)
    ensures ExecutorsHoldLeases(s) && NeverTogether(s)
  {
    var states, actions :| IsTimelyRun(p, states, actions) && states[|states| - 1] == s;
    RunKeepsInv(p, states, actions, |states| - 1);
    forall w | w in s.workers && s.workers[w].Executing? ensures Holds(s.table, w, s.workers[w].id, s.now) {
      SecondOfIsMonotone(s.now, s.workers[w].refresher.tick + p.refreshDelay);
    }
  }

  // ----- abandoned commands are orphans -----

  ghost predicate IsBusyWith(s: State, w: string, id: int) {
    w in s.workers && !s.workers[w].Idle? && s.workers[w].id == id
  }

  /** A step after which nobody is left to end command `id`, which is still running: a
      claim that failed after marking it, a crash of its worker, an end that could not be
      written, or the end of the last refresh goroutine that knew of it. */
  ghost predicate Abandons(p: Timing, s: State, a: Action, id: int) {
    match a
    case ClaimLost(_, claimed) => claimed == id
    case Crash(w) => IsBusyWith(s, w, id) || (IsRunning(s.table, id) && exists r :: r in StraysOf(s, w) && r.id == id)
    case ShutDownBeforeDispatch(w, written) => !written && IsBusyWith(s, w, id)
    case Finish(w, written, lateTick) =>
      !written && IsBusyWith(s, w, id) && LeftBehind(w, s.workers[w], s.now, lateTick) == {}
    case StrayQuits(r) => r.id == id && IsRunning(s.table, id)
    case StrayLands(r, lateTick) => r.id == id && IsRunning(s.table, id) && AfterStray(p.lease, r, s.now, lateTick) == {}
    case _ => false
  }

  lemma LostWorkerOrphans(p: Timing, s: State, a: Action, t: State, w: string, id: int)
    requires Inv(p, s) && TimelyStep(p, s, a, t) && IsBusyWith(s, w, id) && Abandons(p, s, a, id)
    requires a == Crash(w) || (a.ShutDownBeforeDispatch? && a.w == w) || (a.Finish? && a.w == w)
    ensures Orphaned(t, id)
  {
    forall v | v in t.workers && !t.workers[v].Idle? ensures t.workers[v].id != id {
      HoldersDiffer(p, s, v, w);
    }
  }

  lemma LostStrayOrphans(p: Timing, s: State, a: Action, t: State, r: Stray)
    requires Inv(p, s) && TimelyStep(p, s, a, t) && r in s.strays && IsRunning(s.table, r.id)
    requires Abandons(p, s, a, r.id)
    requires a == StrayQuits(r) || (a.StrayLands? && a.stray == r) || a == Crash(r.worker)
    ensures Orphaned(t, r.id)
  {
    forall q | q in t.strays ensures q.id != r.id {
    }
  }

  /** In a timely run whatever abandons a command leaves it orphaned. */
  lemma AbandonedIsOrphaned(p: Timing, s: State, a: Action, t: State, id: int)
    requires Inv(p, s) && TimelyStep(p, s, a, t) && Abandons(p, s, a, id)
    ensures Orphaned(t, id)
  {
    match a
    case ClaimLost(w, _) =>
      assert !IsRunning(s.table, id);
      assert IsActive(s.table, id);
    case Crash(w) =>
      if IsBusyWith(s, w, id) {
        LostWorkerOrphans(p, s, a, t, w, id);
      } else {
        var r :| r in StraysOf(s, w) && r.id == id;
        LostStrayOrphans(p, s, a, t, r);
      }
    case ShutDownBeforeDispatch(w, _) => LostWorkerOrphans(p, s, a, t, w, id);
    case Finish(w, _, _) => LostWorkerOrphans(p, s, a, t, w, id);
    case StrayQuits(r) => LostStrayOrphans(p, s, a, t, r);
    case StrayLands(r, _) => LostStrayOrphans(p, s, a, t, r);
  }

  lemma TimelyRunIsRun(p: Timing, states: seq<State>, actions: seq<Action>)
    requires IsTimelyRun(p, states, actions)
    ensures IsRun(p.lease, states, actions)
  {
  }

  lemma TimelyRunStep(p: Timing, states: seq<State>, actions: seq<Action>, i: nat)
    requires IsTimelyRun(p, states, actions) && 0 < i < |states|
    ensures TimelyStep(p, states[i - 1], actions[i - 1], states[i])
  {
    var a := actions[i - 1];
  }

  /** So a command abandoned by a crash, a cancelled context or a claim that erred after
      marking keeps its row until the first sweep after its lease has expired, and that
      sweep puts it back in the queue. */
  lemma AbandonedIsRequeued(p: Timing, states: seq<State>, actions: seq<Action>, i: nat, j: nat, id: int)
    requires RefreshBeatsExpiry(p) && IsTimelyRun(p, states, actions) && i < j < |actions|
    requires Abandons(p, states[i], actions[i], id)
    requires forall k {:trigger ExpiringSweep(states[k], actions[k], id)} ::
               i < k < j ==> !ExpiringSweep(states[k], actions[k], id)
    ensures id in states[i + 1].table.rows && id in states[j].table.rows
    ensures states[j].table.rows[id] == states[i + 1].table.rows[id]
    ensures ExpiringSweep(states[j], actions[j], id) ==>
              id in states[j + 1].table.rows && states[j + 1].table.rows[id] == Requeue(states[i + 1].table.rows[id])
  {
    RunKeepsInv(p, states, actions, i);
    TimelyRunStep(p, states, actions, i + 1);
    AbandonedIsOrphaned(p, states[i], actions[i], states[i + 1], id);
    TimelyRunIsRun(p, states, actions);
    OrphanIsRequeued(p.lease, states, actions, i + 1, j, id);
  }

  // ----- who ends a command -----

  /** Action `a` is by worker `w`, who is recorded as the holder of the running row. */
  ghost predicate IsByHolder(s: State, a: Action, id: int) {
    && (a.Finish? || a.ShutDownBeforeDispatch?)
    && id in s.table.rows && s.table.rows[id].status.Running? && s.table.rows[id].worker == a.w
  }

  ghost predicate EndsCommand(s: State, t: State, id: int) {
    IsActive(s.table, id) && IsEnded(t.table, id)
  }

  /** Although Complete and Fail match the id alone, it is the recorded holder who ends a
      command. */
  lemma EndIsByHolder(p: Timing, s: State, a: Action, t: State, id: int)
    requires RefreshBeatsExpiry(p) && Reachable(p, s) && TimelyStep(p, s, a, t) && EndsCommand(s, t, id)
    ensures IsByHolder(s, a, id)
  {
    var states, actions :| IsTimelyRun(p, states, actions) && states[|states| - 1] == s;
    RunKeepsInv(p, states, actions, |states| - 1);
  }

  // ----- and only then -----

  /** The moment of the claim in the run below: its lease ends one nanosecond before a
      whole second, so the second after it, already `lease + 1` later, is past it. */
  function WorstClaimTime(lease: nat): nat {
    SECOND - 1 - lease % SECOND
  }

  lemma WorstClaimExpiresFirst(lease: nat)
    ensures var c := WorstClaimTime(lease); SecondOf(c + lease) < SecondOf(c + lease + 1)
  {
    var c := WorstClaimTime(lease);
    assert c + lease + 1 == (lease / SECOND + 1) * SECOND;
  }

  /** The row the run works on, queued and claimed at second `n`. */
  function QueuedRow(): Row {
    Row("c", 1, Queued, 0, None, None, "", None, "")
  }

  function RunningRow(w: string, now: int, lease: nat): Row {
    Row("c", 1, Running, 0, Some(SecondOf(now)), None, w, Some(SecondOf(now + lease)), "")
  }

  function WithRow(now: int, r: Row, workers: map<string, Phase>): State {
    State(now, Table(map[1 := r], 2), workers, {})
  }

  lemma ReachableStep(p: Timing, s: State, a: Action, t: State)
    requires Reachable(p, s) && TimelyStep(p, s, a, t)
    ensures Reachable(p, t)
  {
    var states, actions :| IsTimelyRun(p, states, actions) && states[|states| - 1] == s;
    assert IsTimelyRun(p, states + [t], actions + [a]) && (states + [t])[|states|] == t;
  }

  const BOTH_IDLE := map["a" := Idle, "b" := Idle]

  lemma QueuedIsReachable(p: Timing, c: nat)
    ensures Reachable(p, WithRow(c, QueuedRow(), BOTH_IDLE))
  {
    var s0 := State(0, EMPTY_TABLE, map[], {});
    assert IsTimelyRun(p, [s0], []) && [s0][0] == s0;
    var s1 := s0.(workers := map["a" := Idle]);
    ReachableStep(p, s0, Start("a"), s1);
    var s2 := s0.(workers := BOTH_IDLE);
    ReachableStep(p, s1, Start("b"), s2);
    var s3 := WithRow(0, QueuedRow(), BOTH_IDLE);
    ReachableStep(p, s2, Enqueue("c", 1, ""), s3);
    ReachableStep(p, s3, Advance(c), WithRow(c, QueuedRow(), BOTH_IDLE));
  }

  /** Worker `w` claims the queued row; `other` is what the other worker is doing. */
  lemma ClaimStep(p: Timing, now: nat, w: string, other: map<string, Phase>)
    requires w !in other && forall v :: v in other ==> PhaseOnTime(p, now, other[v])
    ensures TimelyStep(p, WithRow(now, QueuedRow(), other[w := Idle]), Claim(w, 1),
                       WithRow(now, RunningRow(w, now, p.lease), other[w := Claimed(1, now)]))
  {
    var s := WithRow(now, QueuedRow(), other[w := Idle]);
    assert IsNextQueued(s.table, 1);
    assert Marked(s, p.lease, w, 1).rows == map[1 := RunningRow(w, now, p.lease)];
    assert s.workers[w := Claimed(1, now)] == other[w := Claimed(1, now)];
  }

  lemma DispatchStep(p: Timing, now: nat, r: Row, w: string, stamp: int, other: map<string, Phase>)
    requires w !in other && forall v :: v in other ==> PhaseOnTime(p, now, other[v])
    ensures TimelyStep(p, WithRow(now, r, other[w := Claimed(1, stamp)]), Dispatch(w),
                       WithRow(now, r, other[w := Executing(1, Ticking(now + p.lease / 2))]))
  {
    assert other[w := Claimed(1, stamp)][w := Executing(1, Ticking(now + p.lease / 2))]
        == other[w := Executing(1, Ticking(now + p.lease / 2))];
  }

  lemma AdvanceStep(p: Timing, now: nat, later: nat, r: Row, workers: map<string, Phase>)
    requires now <= later && forall v :: v in workers ==> PhaseOnTime(p, later, workers[v])
    ensures TimelyStep(p, WithRow(now, r, workers), Advance(later - now), WithRow(later, r, workers))
  {
  }

  lemma SweepStep(p: Timing, claim: nat, now: nat, w: string, workers: map<string, Phase>)
    requires SecondOf(claim + p.lease) < SecondOf(now)
    requires forall v :: v in workers ==> PhaseOnTime(p, now, workers[v])
    ensures TimelyStep(p, WithRow(now, RunningRow(w, claim, p.lease), workers), Sweep,
                       WithRow(now, QueuedRow(), workers))
  {
    var t := WithRow(now, RunningRow(w, claim, p.lease), workers).table;
    assert SweepExpiredLeases(t, SecondOf(now)).rows == map[1 := QueuedRow()];
  }

  lemma ClaimedIsReachable(p: Timing, c: nat, d: nat)
    requires d <= p.dispatchDelay
    ensures Reachable(p, WithRow(c + d, RunningRow("a", c, p.lease), map["b" := Idle]["a" := Claimed(1, c)]))
  {
    QueuedIsReachable(p, c);
    var r := RunningRow("a", c, p.lease);
    var b := map["b" := Idle];
    var claimed := b["a" := Claimed(1, c)];
    ClaimStep(p, c, "a", b);
    assert b["a" := Idle] == BOTH_IDLE;
    ReachableStep(p, WithRow(c, QueuedRow(), BOTH_IDLE), Claim("a", 1), WithRow(c, r, claimed));
    AdvanceStep(p, c, c + d, r, claimed);
    ReachableStep(p, WithRow(c, r, claimed), Advance(c + d - c), WithRow(c + d, r, claimed));
  }

  /** A worker that claims at `c`, starts its ticker `d` later and is not yet due to
      have refreshed at `late`. */
  lemma SlowWorkerIsReachable(p: Timing, c: nat, d: nat, late: nat)
    requires d <= p.dispatchDelay && c + d <= late <= c + d + p.lease / 2 + p.refreshDelay
    ensures Reachable(p, WithRow(late, RunningRow("a", c, p.lease),
                                 map["b" := Idle]["a" := Executing(1, Ticking(c + d + p.lease / 2))]))
  {
    ClaimedIsReachable(p, c, d);
    var r := RunningRow("a", c, p.lease);
    var b := map["b" := Idle];
    var slow := b["a" := Executing(1, Ticking(c + d + p.lease / 2))];
    DispatchStep(p, c + d, r, "a", c, b);
    ReachableStep(p, WithRow(c + d, r, b["a" := Claimed(1, c)]), Dispatch("a"), WithRow(c + d, r, slow));
    AdvanceStep(p, c + d, late, r, slow);
    ReachableStep(p, WithRow(c + d, r, slow), Advance(late - (c + d)), WithRow(late, r, slow));
  }

  /** If the first refresh may come too late, two workers do execute one command: the
      slowest permitted worker is still executing when its lease is swept and the
      command claimed again. */
  lemma OverlapIsReachable(p: Timing) returns (s: State)
    requires !RefreshBeatsExpiry(p)
    ensures Reachable(p, s) && !NeverTogether(s)
  {
    var late: nat;
    var tick: int;
    late, tick := SlowWorkerOverlaps(p);
    s := Overlapping(p, late, tick);
    assert s.workers["a"].id == s.workers["b"].id;
  }

  /** Worker "b" holds the row and executes the command; so, still, does "a". */
  function Overlapping(p: Timing, late: nat, tick: int): State {
    WithRow(late, RunningRow("b", late, p.lease),
            map["a" := Executing(1, Ticking(tick))]["b" := Executing(1, Ticking(late + p.lease / 2))])
  }

  lemma SlowWorkerOverlaps(p: Timing) returns (late: nat, tick: int)
    requires !RefreshBeatsExpiry(p)
    ensures Reachable(p, Overlapping(p, late, tick)) && late <= tick + p.refreshDelay
  {
    var c := WorstClaimTime(p.lease);
    late := c + p.lease + 1;
    var d := if p.dispatchDelay < p.lease + 1 then p.dispatchDelay else p.lease + 1;
    var a := map["a" := Executing(1, Ticking(c + d + p.lease / 2))];
    var r := RunningRow("b", late, p.lease);
    SlowWorkerIsReachable(p, c, d, late);
    WorstClaimExpiresFirst(p.lease);
    assert map["b" := Idle]["a" := a["a"]] == a["b" := Idle];
    SweepStep(p, c, late, "a", a["b" := Idle]);
    ReachableStep(p, WithRow(late, RunningRow("a", c, p.lease), a["b" := Idle]), Sweep,
                  WithRow(late, QueuedRow(), a["b" := Idle]));
    ClaimStep(p, late, "b", a);
    ReachableStep(p, WithRow(late, QueuedRow(), a["b" := Idle]), Claim("b", 1),
                  WithRow(late, r, a["b" := Claimed(1, late)]));
    DispatchStep(p, late, r, "b", late, a);
    tick := c + d + p.lease / 2;
    ReachableStep(p, WithRow(late, r, a["b" := Claimed(1, late)]), Dispatch("b"), Overlapping(p, late, tick));
  }

  /** And then the worker that lost its lease ends the command that the other executes. */
  lemma StaleEndIsReachable(p: Timing) returns (s: State, a: Action, t: State)
    requires !RefreshBeatsExpiry(p)
    ensures Reachable(p, s) && TimelyStep(p, s, a, t) && EndsCommand(s, t, 1) && !IsByHolder(s, a, 1)
    ensures "b" in t.workers && t.workers["b"].Executing? && t.workers["b"].id == 1
  {
    var late, tick := SlowWorkerOverlaps(p);
    var before := Overlapping(p, late, tick);
    s := before.(workers := before.workers["a" := Finishing(1, Ticking(tick), Completed)]);
    ReachableStep(p, before, HandlerReturns("a", Completed), s);
    a := Finish("a", true, false);
    t := s.(table := Ended(s, 1, Completed, true), workers := s.workers["a" := Idle]);
  }

  /** Every end of a command is written by its recorded holder, in any timely run, under
      the same exact condition. */
  lemma HoldersEndIffRefreshBeatsExpiry(p: Timing)
    ensures RefreshBeatsExpiry(p) <==> forall s, a, t, id ::
      Reachable(p, s) && TimelyStep(p, s, a, t) && EndsCommand(s, t, id) ==> IsByHolder(s, a, id)
  {
    if RefreshBeatsExpiry(p) {
      forall s, a, t, id | Reachable(p, s) && TimelyStep(p, s, a, t) && EndsCommand(s, t, id)
        ensures IsByHolder(s, a, id)
      {
        EndIsByHolder(p, s, a, t, id);
      }
    } else {
      var s, a, t := StaleEndIsReachable(p);
    }
  }

  /** The exact condition: no command is ever executed by two workers, in any reachable
      state, if and only if the longest wait for a ticker, half a lease and the longest
      refresh fit in one lease. */
  lemma ExclusiveIffRefreshBeatsExpiry(p: Timing)
    ensures (forall s :: Reachable(p, s) ==> NeverTogether(s)) <==> RefreshBeatsExpiry(p)
  {
    if RefreshBeatsExpiry(p) {
      forall s | Reachable(p, s) ensures NeverTogether(s) {
        ExecutionIsExclusive(p, s);
      }
    } else {
      var s := OverlapIsReachable(p);
    }
  }
}
