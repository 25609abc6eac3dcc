/** The life of a command, read off the run: who enqueued it and how, in which order it is
    claimed, who holds it and until when, who ended it and with what. */
module CommandLife {
  import opened CommandTable
  import opened Options
  import opened WorkerPool
  import opened WorkerTiming

  // ----- enqueued -----

  lemma StepKeepsOrigin(lease: nat, s: State, a: Action, t: State, id: int)
    requires ValidTable(s.table) && Step(lease, s, a, t) && id in t.table.rows
    ensures if id in s.table.rows then SameOrigin(s.table.rows[id], t.table.rows[id])
            else a.Enqueue? && id == s.table.nextId && IsNew(t.table.rows[id], a.name, a.priority, a.dedupKey, SecondOf(s.now))
  {
  }

  /** Action `k` enqueued command `id`, and the row still says what it was given. */
  ghost predicate IsOrigin(states: seq<State>, actions: seq<Action>, k: nat, r: Row, id: int) {
    && k < |actions| && k < |states| && actions[k].Enqueue? && states[k].table.nextId == id
    && r.name == actions[k].name && r.priority == actions[k].priority && r.dedupKey == actions[k].dedupKey
    && r.queuedAt == SecondOf(states[k].now)
  }

  /** Every row was enqueued by some action of the run, and carries that action's name,
      priority and key and its second, whatever has happened since. */
  lemma {:induction false} WasEnqueued(
    lease: nat, states: seq<State>, actions: seq<Action>, n: nat, id: int) returns (k: nat)
    requires IsRun(lease, states, actions) && n < |states| && id in states[n].table.rows
    ensures k < n && IsOrigin(states, actions, k, states[n].table.rows[id], id)
  {
    WorkerPool.RunStep(lease, states, actions, n);
    RunIsValid(lease, states, actions, n - 1);
    StepKeepsOrigin(lease, states[n - 1], actions[n - 1], states[n], id);
    if id in states[n - 1].table.rows {
      k := WasEnqueued(lease, states, actions, n - 1, id);
    } else {
      k := n - 1;
    }
  }

  /** What is claimed was enqueued with the lowest priority number of all that is queued,
      and among those in the earliest second. */
  lemma ClaimsInOrder(lease: nat, states: seq<State>, actions: seq<Action>, n: nat, other: int) returns (i: nat, j: nat)
    requires IsRun(lease, states, actions) && n < |actions|
    requires (actions[n].Claim? || actions[n].ClaimLost?) && IsQueued(states[n].table, other)
    ensures IsQueued(states[n].table, actions[n].id)
    ensures IsOrigin(states, actions, i, states[n].table.rows[actions[n].id], actions[n].id)
    ensures IsOrigin(states, actions, j, states[n].table.rows[other], other)
    ensures || actions[i].priority < actions[j].priority
            || (actions[i].priority == actions[j].priority && SecondOf(states[i].now) <= SecondOf(states[j].now))
  {
    WorkerPool.RunStep(lease, states, actions, n + 1);
    i := WasEnqueued(lease, states, actions, n, actions[n].id);
    j := WasEnqueued(lease, states, actions, n, other);
  }

  // ----- held -----

  /** A queued row is blank, a running one has a start and a lease, an ended one an end. */
  ghost predicate IsShaped(r: Row) {
    match r.status
    case Queued => r.worker == "" && r.startedAt == None && r.leaseUntil == None && r.endedAt == None
    case Running => r.startedAt != None && r.leaseUntil != None && r.endedAt == None
    case _ => r.endedAt != None
  }

  lemma StepKeepsShape(lease: nat, s: State, a: Action, t: State, id: int)
    requires Step(lease, s, a, t) && OutcomesEnd(s) && id in t.table.rows
    requires id in s.table.rows ==> IsShaped(s.table.rows[id])
    ensures IsShaped(t.table.rows[id])
  {
  }

  lemma {:induction false} RowsAreShaped(lease: nat, states: seq<State>, actions: seq<Action>, n: nat, id: int)
    requires IsRun(lease, states, actions) && n < |states| && id in states[n].table.rows
    ensures IsShaped(states[n].table.rows[id])
  {
    WorkerPool.RunStep(lease, states, actions, n);
    RunIsValid(lease, states, actions, n - 1);
    if id in states[n - 1].table.rows {
      RowsAreShaped(lease, states, actions, n - 1, id);
    }
    StepKeepsShape(lease, states[n - 1], actions[n - 1], states[n], id);
  }

  ghost predicate IsClaimBy(a: Action, w: string, id: int) {
    (a.Claim? || a.ClaimLost?) && a.w == w && a.id == id
  }

  lemma StepKeepsClaimant(lease: nat, s: State, a: Action, t: State, id: int)
    requires Step(lease, s, a, t) && OutcomesEnd(s) && IsRunning(t.table, id)
    ensures || (IsRunning(s.table, id) && t.table.rows[id].worker == s.table.rows[id].worker
                && t.table.rows[id].startedAt == s.table.rows[id].startedAt)
            || (IsClaimBy(a, t.table.rows[id].worker, id) && t.table.rows[id].startedAt == Some(SecondOf(s.now)))
  {
  }

  /** A running command names the worker that claimed it, and the second of the claim. */
  lemma {:induction false} WasClaimed(
    lease: nat, states: seq<State>, actions: seq<Action>, n: nat, id: int) returns (k: nat)
    requires IsRun(lease, states, actions) && n < |states| && IsRunning(states[n].table, id)
    ensures k < n && IsClaimBy(actions[k], states[n].table.rows[id].worker, id)
    ensures states[n].table.rows[id].startedAt == Some(SecondOf(states[k].now))
  {
    WorkerPool.RunStep(lease, states, actions, n);
    RunIsValid(lease, states, actions, n - 1);
    StepKeepsClaimant(lease, states[n - 1], actions[n - 1], states[n], id);
    if IsClaimBy(actions[n - 1], states[n].table.rows[id].worker, id)
       && states[n].table.rows[id].startedAt == Some(SecondOf(states[n - 1].now)) {
      k := n - 1;
    } else {
      k := WasClaimed(lease, states, actions, n - 1, id);
    }
  }

  lemma {:induction false} SomeIsNext(t: Table, ids: set<int>, some: int) returns (id: int)
    requires some in ids && ids <= t.rows.Keys
    ensures id in ids && forall o :: o in ids ==> ClaimsBefore(t.rows[id], t.rows[o])
    decreases |ids|
  {
    id := some;
    if other :| other in ids && other != some {
      var first := SomeIsNext(t, ids - {some}, other);
      if !ClaimsBefore(t.rows[some], t.rows[first]) {
        id := first;
      }
      assert forall o :: o in ids ==> o == some || o in ids - {some};
    }
  }

  lemma SomethingIsNext(t: Table) returns (id: int)
    requires !NothingQueued(t)
    ensures IsNextQueued(t, id)
  {
    var ids := set o | o in t.rows && t.rows[o].status.Queued?;
    var o :| o in t.rows && t.rows[o].status.Queued?;
    assert o in ids;
    id := SomeIsNext(t, ids, o);
    assert id in ids;
  }

  /** Claimed, dispatched, its handler returned, its end written: the way of a worker. */
  ghost predicate IsNextPhase(p: Phase, q: Phase, outcome: Status) {
    match p
    case Idle => q.Claimed?
    case Claimed(id, _) => q.Executing? && q.id == id
    case Executing(id, _) => q.Finishing? && q.id == id && q.outcome == outcome
    case _ => q.Idle?
  }

  /** No worker is stuck: an idle one can claim whenever something is queued, and any other
      can take its next step, whatever its handler returns. */
  lemma WorkersGoOn(lease: nat, s: State, w: string, outcome: Status) returns (a: Action, t: State)
    requires w in s.workers && (s.workers[w].Idle? ==> !NothingQueued(s.table)) && !Active(outcome)
    ensures Step(lease, s, a, t) && w in t.workers && IsNextPhase(s.workers[w], t.workers[w], outcome)
  {
    match s.workers[w]
    case Idle =>
      var id := SomethingIsNext(s.table);
      a, t := Claim(w, id), s.(table := Marked(s, lease, w, id), workers := s.workers[w := Claimed(id, s.now)]);
    case Claimed(id, _) =>
      a, t := Dispatch(w), s.(workers := s.workers[w := Executing(id, Ticking(s.now + lease / 2))]);
    case Executing(id, refresher) =>
      a, t := HandlerReturns(w, outcome), s.(workers := s.workers[w := Finishing(id, refresher, outcome)]);
    case Finishing(id, _, result) =>
      a := Finish(w, true, false);
      t := s.(table := Ended(s, id, result, true), workers := s.workers[w := Idle],
              strays := s.strays + LeftBehind(w, s.workers[w], s.now, false));
    case Rejecting(id, _) =>
      a, t := Finish(w, true, false), s.(table := Ended(s, id, Failed, true), workers := s.workers[w := Idle]);
  }

  // ----- refreshes -----

  /** How many refreshes of worker `w` ended, written or failed, from action `d` on. */
  function RefreshesSince(actions: seq<Action>, w: string, d: nat, n: nat): nat
    requires n <= |actions|
  {
    if n <= d then 0
    else RefreshesSince(actions, w, d, n - 1)
         + if EndsRefresh(actions[n - 1], w) then 1 else 0
  }

  predicate EndsRefresh(a: Action, w: string) {
    a == RefreshLands(w) || a == RefreshFails(w)
  }

  lemma StepMovesTick(lease: nat, s: State, a: Action, t: State, w: string)
    requires Step(lease, s, a, t) && w in t.workers && InDispatch(t.workers[w])
    ensures if a == Dispatch(w) then t.workers[w].refresher.tick == s.now + lease / 2
            else w in s.workers && InDispatch(s.workers[w])
                 && t.workers[w].refresher.tick == s.workers[w].refresher.tick + if EndsRefresh(a, w) then lease / 2 else 0
  {
  }

  lemma OneHalfMore(start: int, half: nat, k: nat)
    ensures start + half + (k + 1) * half == (start + half + k * half) + half
  {
  }

  /** The next tick of a dispatch is half a lease after the one before, the first half a
      lease after the dispatch: none is skipped and none is added. */
  lemma {:induction false} TicksEveryHalfLease(lease: nat, states: seq<State>, actions: seq<Action>, n: nat, w: string)
    returns (d: nat)
    requires IsRun(lease, states, actions) && n < |states| && w in states[n].workers && InDispatch(states[n].workers[w])
    ensures d < n && actions[d] == Dispatch(w)
    ensures states[n].workers[w].refresher.tick
         == states[d].now + lease / 2 + RefreshesSince(actions, w, d + 1, n) * (lease / 2)
  {
    WorkerPool.RunStep(lease, states, actions, n);
    StepMovesTick(lease, states[n - 1], actions[n - 1], states[n], w);
    if actions[n - 1] == Dispatch(w) {
      d := n - 1;
    } else {
      d := TicksEveryHalfLease(lease, states, actions, n - 1, w);
      OneHalfMore(states[d].now, lease / 2, RefreshesSince(actions, w, d + 1, n - 1));
    }
  }

  /** A refresh that is being written when its dispatch returns is still written, or fails,
      afterwards; nothing else of the dispatch remains unless its next tick was due. */
  lemma RefreshOutlivesDispatch(lease: nat, s: State, a: Action, t: State)
    requires Step(lease, s, a, t) && a.Finish? && s.workers[a.w].Finishing?
    ensures var ph := s.workers[a.w]; var stray := Stray(a.w, ph.id, ph.refresher);
      && (ph.refresher.Writing? ==> stray in t.strays)
      && (ph.refresher.Ticking? && s.now < ph.refresher.tick ==> t.strays == s.strays)
      && s.strays <= t.strays <= s.strays + {stray} && t.workers == s.workers[a.w := Idle]
  {
  }

  /** A refresh left behind that goes on once it is written has the next tick due already,
      half a lease after the one it wrote for. */
  lemma StrayGoesOnIfDue(lease: nat, s: State, a: Action, t: State, r: Stray)
    requires Step(lease, s, a, t) && a.StrayLands? && r in t.strays && r !in s.strays
    ensures r.worker == a.stray.worker && r.id == a.stray.id
    ensures r.refresher == Ticking(a.stray.refresher.tick + lease / 2) && r.refresher.tick <= s.now
  {
  }

  /** `tick` is a whole number of half leases, at least one, after the dispatch at `d`. */
  ghost predicate InRhythm(lease: nat, states: seq<State>, actions: seq<Action>, d: nat, k: nat, w: string, tick: int) {
    d < |actions| && d < |states| && actions[d] == Dispatch(w) && tick == states[d].now + lease / 2 + k * (lease / 2)
  }

  /** A step moves a stray's tick by half a lease or not at all, or takes it over from the
      dispatch that leaves it behind. */
  lemma StepMovesStray(lease: nat, s: State, a: Action, t: State, r: Stray)
    requires Step(lease, s, a, t) && r in t.strays
    ensures || (exists q :: q in s.strays && q.worker == r.worker
                            && (r.refresher.tick == q.refresher.tick || r.refresher.tick == q.refresher.tick + lease / 2))
            || (r.worker in s.workers && InDispatch(s.workers[r.worker])
                && r.refresher.tick == s.workers[r.worker].refresher.tick)
  {
    if r !in s.strays && (a.StrayTick? || a.StrayLands?) {
      assert a.stray in s.strays;
    }
  }

  /** So refreshes keep the rhythm of their dispatch even after it has returned. */
  lemma {:induction false} StraysKeepRhythm(lease: nat, states: seq<State>, actions: seq<Action>, n: nat, r: Stray)
    returns (d: nat, k: nat)
    requires IsRun(lease, states, actions) && n < |states| && r in states[n].strays
    ensures d < n && InRhythm(lease, states, actions, d, k, r.worker, r.refresher.tick)
  {
    WorkerPool.RunStep(lease, states, actions, n);
    var s := states[n - 1];
    StepMovesStray(lease, s, actions[n - 1], states[n], r);
    if q :| q in s.strays && q.worker == r.worker
            && (r.refresher.tick == q.refresher.tick || r.refresher.tick == q.refresher.tick + lease / 2) {
      d, k := StraysKeepRhythm(lease, states, actions, n - 1, q);
      if r.refresher.tick != q.refresher.tick {
        OneHalfMore(states[d].now, lease / 2, k);
        k := k + 1;
      }
    } else {
      d := TicksEveryHalfLease(lease, states, actions, n - 1, r.worker);
      k := RefreshesSince(actions, r.worker, d + 1, n - 1);
    }
  }

  // ----- leases -----

  ghost predicate StampIsPast(now: int, r: Refresher) {
    r.Writing? ==> r.stamp <= now
  }

  ghost predicate StampsArePast(s: State) {
    && (forall w :: w in s.workers && InDispatch(s.workers[w]) ==> StampIsPast(s.now, s.workers[w].refresher))
    && (forall r :: r in s.strays ==> StampIsPast(s.now, r.refresher))
  }

  ghost predicate LeaseIsBounded(lease: nat, s: State, id: int) {
    IsRunning(s.table, id) && s.table.rows[id].leaseUntil.Some? ==>
      s.table.rows[id].leaseUntil.value <= SecondOf(s.now + lease)
  }

  /** No lease reaches further than one lease duration from now. */
  ghost predicate LeasesAreBounded(lease: nat, s: State) {
    StampsArePast(s) && forall id :: LeaseIsBounded(lease, s, id)
  }

  lemma StepKeepsStampsPast(lease: nat, s: State, a: Action, t: State)
    requires Step(lease, s, a, t) && StampsArePast(s)
    ensures StampsArePast(t)
  {
  }

  lemma StepKeepsLeaseBounded(lease: nat, s: State, a: Action, t: State, id: int)
    requires Step(lease, s, a, t) && OutcomesEnd(s) && StampsArePast(s) && LeaseIsBounded(lease, s, id)
    ensures LeaseIsBounded(lease, t, id)
  {
    SecondOfIsMonotone(s.now + lease, t.now + lease);
    if a.RefreshLands? {
      SecondOfIsMonotone(s.workers[a.w].refresher.stamp + lease, s.now + lease);
    } else if a.StrayLands? {
      SecondOfIsMonotone(a.stray.refresher.stamp + lease, s.now + lease);
    }
  }

  lemma {:induction false} RunKeepsLeasesBounded(lease: nat, states: seq<State>, actions: seq<Action>, n: nat)
    requires IsRun(lease, states, actions) && n < |states|
    ensures LeasesAreBounded(lease, states[n])
  {
    if n > 0 {
      WorkerPool.RunStep(lease, states, actions, n);
      RunIsValid(lease, states, actions, n - 1);
      RunKeepsLeasesBounded(lease, states, actions, n - 1);
      StepKeepsStampsPast(lease, states[n - 1], actions[n - 1], states[n]);
      forall id ensures LeaseIsBounded(lease, states[n], id) {
        assert LeaseIsBounded(lease, states[n - 1], id);
        StepKeepsLeaseBounded(lease, states[n - 1], actions[n - 1], states[n], id);
      }
    }
  }

  ghost predicate IsRequeuedBy(states: seq<State>, actions: seq<Action>, k: nat, id: int) {
    && k < |actions| && k + 1 < |states| && actions[k].Sweep?
    && IsRunning(states[k].table, id) && IsQueued(states[k + 1].table, id)
    && SameOrigin(states[k].table.rows[id], states[k + 1].table.rows[id])
  }

  ghost predicate NoneExpiring(states: seq<State>, actions: seq<Action>, i: nat, j: nat, id: int)
    requires j <= |actions| < |states|
  {
    forall m {:trigger ExpiringSweep(states[m], actions[m], id)} ::
      i < m < j ==> !ExpiringSweep(states[m], actions[m], id)
  }

  ghost predicate FirstExpiring(states: seq<State>, actions: seq<Action>, i: nat, k: nat, id: int)
    requires |actions| < |states|
  {
    i < k < |actions| && ExpiringSweep(states[k], actions[k], id) && NoneExpiring(states, actions, i, k, id)
  }

  /** The first expiring sweep before `j`, or `j` if there is none. */
  lemma {:induction false} FirstOrLast(
    states: seq<State>, actions: seq<Action>, i: nat, j: nat, id: int) returns (k: nat)
    requires i < j < |actions| < |states|
    ensures i < k <= j && (FirstExpiring(states, actions, i, k, id) || k == j) && NoneExpiring(states, actions, i, k, id)
  {
    k := i + 1;
    while k < j && !ExpiringSweep(states[k], actions[k], id)
      invariant i < k <= j && NoneExpiring(states, actions, i, k, id)
    {
      k := k + 1;
    }
  }

  lemma OrphanUntil(lease: nat, states: seq<State>, actions: seq<Action>, i: nat, j: nat, id: int)
    requires IsRun(lease, states, actions) && i < j < |actions| && Orphaned(states[i + 1], id)
    requires NoneExpiring(states, actions, i, j, id)
    ensures Orphaned(states[j], id) && states[j].table.rows[id] == states[i + 1].table.rows[id]
  {
    OrphanStays(lease, states, actions, i + 1, j, id);
  }

  /** An orphan's lease has expired once its bound has passed. */
  lemma OrphanExpires(lease: nat, states: seq<State>, actions: seq<Action>, i: nat, j: nat, id: int)
    requires IsRun(lease, states, actions) && i < j < |actions| && Orphaned(states[i + 1], id) && Orphaned(states[j], id)
    requires states[j].table.rows[id] == states[i + 1].table.rows[id]
    requires actions[j].Sweep? && SecondOf(states[i + 1].now + lease) < SecondOf(states[j].now)
    ensures ExpiringSweep(states[j], actions[j], id)
  {
    RunKeepsLeasesBounded(lease, states, actions, i + 1);
    assert LeaseIsBounded(lease, states[i + 1], id);
  }

  lemma OrphanReturns(lease: nat, states: seq<State>, actions: seq<Action>, i: nat, k: nat, id: int)
    requires IsRun(lease, states, actions) && FirstExpiring(states, actions, i, k, id) && Orphaned(states[i + 1], id)
    ensures IsRequeuedBy(states, actions, k, id)
  {
    OrphanIsRequeued(lease, states, actions, i + 1, k, id);
  }

  /** An abandoned command is back in the queue after the first sweep that comes more than
      a lease, in whole seconds, after it was abandoned, if not before. */
  lemma AbandonedReturnsWithinLease(p: Timing, states: seq<State>, actions: seq<Action>, i: nat, j: nat, id: int)
    returns (k: nat)
    requires RefreshBeatsExpiry(p) && IsTimelyRun(p, states, actions) && i < j < |actions|
    requires Abandons(p, states[i], actions[i], id)
    requires actions[j].Sweep? && SecondOf(states[i + 1].now + p.lease) < SecondOf(states[j].now)
    ensures i < k <= j && IsRequeuedBy(states, actions, k, id)
  {
    TimelyRunIsRun(p, states, actions);
    AbandonedInRun(p, states, actions, i, id);
    k := FirstOrLast(states, actions, i, j, id);
    if k == j {
      OrphanUntil(p.lease, states, actions, i, j, id);
      OrphanExpires(p.lease, states, actions, i, j, id);
    }
    OrphanReturns(p.lease, states, actions, i, k, id);
  }

  /** An orphaned command is back in the queue, as enqueued, at the latest with the first
      sweep after its lease. */
  lemma OrphanReturnsBySweep(
    lease: nat, states: seq<State>, actions: seq<Action>, i: nat, j: nat, id: int) returns (k: nat)
    requires IsRun(lease, states, actions) && i < j < |actions| && Orphaned(states[i + 1], id)
    requires actions[j].Sweep? && states[i + 1].table.rows[id].leaseUntil.value < SecondOf(states[j].now)
    ensures i < k <= j && IsRequeuedBy(states, actions, k, id)
  {
    k := FirstOrLast(states, actions, i, j, id);
    if k == j {
      OrphanUntil(lease, states, actions, i, j, id);
    }
    OrphanReturns(lease, states, actions, i, k, id);
  }

  lemma AbandonedInRun(p: Timing, states: seq<State>, actions: seq<Action>, i: nat, id: int)
    requires RefreshBeatsExpiry(p) && IsTimelyRun(p, states, actions) && i < |actions|
    requires Abandons(p, states[i], actions[i], id)
    ensures Orphaned(states[i + 1], id)
  {
    RunKeepsInv(p, states, actions, i);
    TimelyRunStep(p, states, actions, i + 1);
    AbandonedIsOrphaned(p, states[i], actions[i], states[i + 1], id);
  }

  // ----- ended -----

  /** Action `a` writes the end of command `id` with the given status: the outcome of its
      handler, or failure if there is none or the pool is shutting down. */
  ghost predicate IsEnding(s: State, a: Action, id: int, status: Status) {
    && (a.Finish? || a.ShutDownBeforeDispatch?) && a.written && a.w in s.workers
    && match s.workers[a.w]
       case Finishing(cmd, _, outcome) => a.Finish? && cmd == id && outcome == status
       case Rejecting(cmd, _) => a.Finish? && cmd == id && status == Failed
       case Claimed(cmd, _) => a.ShutDownBeforeDispatch? && cmd == id && status == Failed
       case _ => false
  }

  /** An ending that is written sets the status and the end of its row, and no other row
      or column. */
  lemma EndingWrites(lease: nat, s: State, a: Action, t: State, id: int, status: Status)
    requires Step(lease, s, a, t) && IsEnding(s, a, id, status)
    ensures OnlyRow(s.table, t.table, id)
    ensures id in s.table.rows ==> IsEndOf(s.table.rows[id], t.table.rows[id], status, SecondOf(s.now))
  {
    EndWrites(s.table, id, status, SecondOf(s.now));
  }

  /** An end that is not written changes no row. */
  lemma UnwrittenEndChangesNothing(lease: nat, s: State, a: Action, t: State)
    requires Step(lease, s, a, t) && (a.Finish? || a.ShutDownBeforeDispatch?) && !a.written
    ensures t.table == s.table
  {
  }

  lemma StepKeepsEnd(lease: nat, s: State, a: Action, t: State, id: int)
    requires ValidTable(s.table) && OutcomesEnd(s) && Step(lease, s, a, t) && IsEnded(t.table, id)
    ensures || (IsEnded(s.table, id) && t.table.rows[id] == s.table.rows[id])
            || (IsEnding(s, a, id, t.table.rows[id].status) && t.table.rows[id].endedAt == Some(SecondOf(s.now)))
  {
    if a.Finish? && a.written {
      EndWrites(s.table, s.workers[a.w].id, if s.workers[a.w].Finishing? then s.workers[a.w].outcome else Failed,
                SecondOf(s.now));
    }
  }

  /** An ended command has the status that the action ending it wrote, at that second; the
      row has not been touched since. */
  lemma {:induction false} EndWasWritten(
    lease: nat, states: seq<State>, actions: seq<Action>, n: nat, id: int) returns (k: nat)
    requires IsRun(lease, states, actions) && n < |states| && IsEnded(states[n].table, id)
    ensures k < n && IsEnding(states[k], actions[k], id, states[n].table.rows[id].status)
    ensures states[n].table.rows[id].endedAt == Some(SecondOf(states[k].now))
    ensures id in states[k + 1].table.rows && states[k + 1].table.rows[id] == states[n].table.rows[id]
  {
    WorkerPool.RunStep(lease, states, actions, n);
    RunIsValid(lease, states, actions, n - 1);
    StepKeepsEnd(lease, states[n - 1], actions[n - 1], states[n], id);
    if IsEnded(states[n - 1].table, id) && states[n].table.rows[id] == states[n - 1].table.rows[id] {
      k := EndWasWritten(lease, states, actions, n - 1, id);
    } else {
      k := n - 1;
    }
  }

  /** Only an ended row goes, and only by a deletion of rows that ended before a second
      after its own end. */
  lemma GoneWasOld(lease: nat, s: State, a: Action, t: State, id: int)
    requires Step(lease, s, a, t) && id in s.table.rows
    ensures id !in t.table.rows <==> a.DeleteOld? && EndedBefore(s.table.rows[id], a.olderThan)
  {
    if a.DeleteOld? {
      DeleteRemovesExactly(s.table, a.olderThan, id);
    }
  }

  // ----- the whole story -----

  ghost predicate IsHandling(s: State, w: string, id: int) {
    w in s.workers && s.workers[w].Executing? && s.workers[w].id == id
  }

  lemma {:induction false} WasReturned(
    lease: nat, states: seq<State>, actions: seq<Action>, n: nat, w: string) returns (k: nat)
    requires IsRun(lease, states, actions) && n < |states| && w in states[n].workers && states[n].workers[w].Finishing?
    ensures k < n && actions[k] == HandlerReturns(w, states[n].workers[w].outcome)
    ensures IsHandling(states[k], w, states[n].workers[w].id)
  {
    WorkerPool.RunStep(lease, states, actions, n);
    if actions[n - 1].HandlerReturns? && actions[n - 1].w == w {
      k := n - 1;
    } else {
      k := WasReturned(lease, states, actions, n - 1, w);
    }
  }

  lemma {:induction false} WasDispatched(
    lease: nat, states: seq<State>, actions: seq<Action>, n: nat, w: string, id: int)
    returns (k: nat)
    requires IsRun(lease, states, actions) && n < |states| && IsHandling(states[n], w, id)
    ensures k < n && actions[k] == Dispatch(w) && w in states[k].workers
    ensures states[k].workers[w].Claimed? && states[k].workers[w].id == id
  {
    WorkerPool.RunStep(lease, states, actions, n);
    if actions[n - 1] == Dispatch(w) {
      k := n - 1;
    } else {
      k := WasDispatched(lease, states, actions, n - 1, w, id);
    }
  }

  lemma {:induction false} WasTaken(lease: nat, states: seq<State>, actions: seq<Action>, n: nat, w: string, id: int)
    returns (k: nat)
    requires IsRun(lease, states, actions) && n < |states| && w in states[n].workers
    requires states[n].workers[w].Claimed? && states[n].workers[w].id == id
    ensures k < n && actions[k] == Claim(w, id)
  {
    WorkerPool.RunStep(lease, states, actions, n);
    if actions[n - 1] == Claim(w, id) {
      k := n - 1;
    } else {
      k := WasTaken(lease, states, actions, n - 1, w, id);
    }
  }

  /** A completed command was enqueued; then one worker claimed it, dispatched it, saw its
      handler return without an error, and wrote the end, in this order. */
  lemma CompletedMeansHandled(lease: nat, states: seq<State>, actions: seq<Action>, n: nat, id: int)
    returns (enqueue: nat, claim: nat, dispatch: nat, ret: nat, end: nat, w: string)
    requires IsRun(lease, states, actions) && n < |states| && id in states[n].table.rows
    requires states[n].table.rows[id].status == Completed
    ensures claim < dispatch < ret < end < n && enqueue < claim
    ensures IsOrigin(states, actions, enqueue, states[n].table.rows[id], id)
    ensures actions[claim] == Claim(w, id) && actions[dispatch] == Dispatch(w)
    ensures actions[ret] == HandlerReturns(w, Completed) && IsHandling(states[ret], w, id)
    ensures actions[end].Finish? && actions[end].w == w
    ensures states[n].table.rows[id].endedAt == Some(SecondOf(states[end].now))
  {
    end := EndWasWritten(lease, states, actions, n, id);
    w := actions[end].w;
    ret := WasReturned(lease, states, actions, end, w);
    dispatch := WasDispatched(lease, states, actions, ret, w, id);
    claim := WasTaken(lease, states, actions, dispatch, w, id);
    WorkerPool.RunStep(lease, states, actions, claim + 1);
    enqueue := WasEnqueued(lease, states, actions, claim, id);
    OriginStays(lease, states, actions, claim, n, id);
  }

  lemma {:induction false} OriginStays(lease: nat, states: seq<State>, actions: seq<Action>, i: nat, n: nat, id: int)
    requires IsRun(lease, states, actions) && i <= n < |states|
    requires id in states[i].table.rows && id in states[n].table.rows
    ensures SameOrigin(states[i].table.rows[id], states[n].table.rows[id])
    decreases n - i
  {
    if i < n {
      WorkerPool.RunStep(lease, states, actions, n);
      RunIsValid(lease, states, actions, i);
      RunIsValid(lease, states, actions, n - 1);
      RowIsThere(lease, states, actions, i, n - 1, id);
      StepKeepsOrigin(lease, states[n - 1], actions[n - 1], states[n], id);
      if id in states[n - 1].table.rows {
        OriginStays(lease, states, actions, i, n - 1, id);
      }
    }
  }

  /** Ids are not reused. */
  lemma {:induction false} RowIsThere(lease: nat, states: seq<State>, actions: seq<Action>, i: nat, n: nat, id: int)
    requires IsRun(lease, states, actions) && i <= n < |states| && id in states[i].table.rows
    ensures id < states[n].table.nextId
    decreases n - i
  {
    RunIsValid(lease, states, actions, i);
    if i < n {
      RowIsThere(lease, states, actions, i, n - 1, id);
      WorkerPool.RunStep(lease, states, actions, n);
      RunIsValid(lease, states, actions, n - 1);
      StepKeepsCommands(lease, states[n - 1], actions[n - 1], states[n]);
    }
  }
}
