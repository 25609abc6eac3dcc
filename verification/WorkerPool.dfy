/** Workers, lease refreshes, sweeps and crashes around the commands table, as a timed
    transition system.  Queue operations are atomic here; QueueHistory proves that the
    writer makes them so. */
module WorkerPool {
  import opened CommandTable
  import opened Options

  /** The refresh goroutine of a dispatch: waiting for its next tick, or with a refresh
      on the way whose lease was computed from the clock reading `stamp`. */
  datatype Refresher = Ticking(tick: int) | Writing(tick: int, stamp: int)

  datatype Phase =
    | Idle
    | Claimed(id: int, stamp: int)
    | Rejecting(id: int, stamp: int)
    | Executing(id: int, refresher: Refresher)
    | Finishing(id: int, refresher: Refresher, outcome: Status)

  /** The refresh goroutine of a dispatch that has returned, if it has not stopped: its
      refresh is still on the way, or it may yet answer a tick that was already due. */
  datatype Stray = Stray(worker: string, id: int, refresher: Refresher)

  datatype State = State(now: int, table: Table, workers: map<string, Phase>, strays: set<Stray>)

  datatype Action =
    | Start(w: string)
    | Crash(w: string)
    | Enqueue(name: string, priority: int, dedupKey: string)
    | Claim(w: string, id: int)
    | ClaimLost(w: string, id: int)
    | Dispatch(w: string)
    | NoHandler(w: string)
    | ShutDownBeforeDispatch(w: string, written: bool)
    | HandlerReturns(w: string, outcome: Status)
    | Finish(w: string, written: bool, lateTick: bool)
    | Tick(w: string)
    | RefreshLands(w: string)
    | RefreshFails(w: string)
    | StrayTick(stray: Stray)
    | StrayQuits(stray: Stray)
    | StrayLands(stray: Stray, lateTick: bool)
    | StrayFails(stray: Stray)
    | Sweep
    | DeleteOld(olderThan: int)
    | Advance(delta: nat)

  ghost predicate Init(s: State) {
    s == State(0, EMPTY_TABLE, map[], {})
  }

  predicate InDispatch(p: Phase) {
    p.Executing? || p.Finishing?
  }

  /** The table once a claim by `w` has marked command `id`. */
  function Marked(s: State, lease: nat, w: string, id: int): Table {
    MarkCommandRunning(s.table, id, w, SecondOf(s.now), SecondOf(s.now + lease))
  }

  function Ended(s: State, id: int, outcome: Status, written: bool): Table {
    if written then EndCommand(s.table, id, outcome, SecondOf(s.now)) else s.table
  }

  /** The refresh goroutine a returning dispatch leaves behind: one that is writing
      always, one with a tick due if its select prefers the tick to the closed channel. */
  function LeftBehind(w: string, p: Phase, now: int, lateTick: bool): set<Stray> {
    if InDispatch(p) && (p.refresher.Writing? || (lateTick && p.refresher.tick <= now))
    then {Stray(w, p.id, p.refresher)} else {}
  }

  /** What is left of a stray goroutine once its refresh is written: it may find that the
      next tick was due as well. */
  function AfterStray(lease: nat, r: Stray, now: int, lateTick: bool): set<Stray> {
    var next := r.refresher.tick + lease / 2;
    if lateTick && next <= now then {r.(refresher := Ticking(next))} else {}
  }

  function StraysOf(s: State, w: string): set<Stray> {
    set r | r in s.strays && r.worker == w
  }

  ghost predicate Step(lease: nat, s: State, a: Action, t: State) {
    match a
    case Start(w) => w !in s.workers && t == s.(workers := s.workers[w := Idle])
    case Crash(w) =>
      w in s.workers && t == s.(workers := s.workers - {w}, strays := s.strays - StraysOf(s, w))
    case Enqueue(name, priority, key) =>
      t == s.(table := EnqueueCommand(s.table, SecondOf(s.now), name, priority, key))
    case Claim(w, id) =>
      && w in s.workers && s.workers[w].Idle? && IsNextQueued(s.table, id)
      && t == s.(table := Marked(s, lease, w, id), workers := s.workers[w := Claimed(id, s.now)])
    case ClaimLost(w, id) =>
      && w in s.workers && s.workers[w].Idle? && IsNextQueued(s.table, id)
      && t == s.(table := Marked(s, lease, w, id))
    case Dispatch(w) =>
      && w in s.workers && s.workers[w].Claimed?
      && t == s.(workers := s.workers[w := Executing(s.workers[w].id, Ticking(s.now + lease / 2))])
    case NoHandler(w) =>
      && w in s.workers && s.workers[w].Claimed?
      && t == s.(workers := s.workers[w := Rejecting(s.workers[w].id, s.workers[w].stamp)])
    case ShutDownBeforeDispatch(w, written) =>
      && w in s.workers && s.workers[w].Claimed?
      && t == s.(table := Ended(s, s.workers[w].id, Failed, written), workers := s.workers - {w})
    case HandlerReturns(w, outcome) =>
      && w in s.workers && s.workers[w].Executing? && !Active(outcome)
      && t == s.(workers := s.workers[w := Finishing(s.workers[w].id, s.workers[w].refresher, outcome)])
    case Finish(w, written, lateTick) =>
      && w in s.workers && (s.workers[w].Finishing? || s.workers[w].Rejecting?)
      && var outcome := if s.workers[w].Finishing? then s.workers[w].outcome else Failed;
         t == s.(table := Ended(s, s.workers[w].id, outcome, written),
                 workers := s.workers[w := Idle],
                 strays := s.strays + LeftBehind(w, s.workers[w], s.now, lateTick))
    case Tick(w) =>
      && w in s.workers && InDispatch(s.workers[w]) && s.workers[w].refresher.Ticking?
      && s.workers[w].refresher.tick <= s.now
      && t == s.(workers := s.workers[w := s.workers[w].(refresher := Writing(s.workers[w].refresher.tick, s.now))])
    case RefreshLands(w) =>
      && w in s.workers && InDispatch(s.workers[w]) && s.workers[w].refresher.Writing?
      && var Writing(tick, stamp) := s.workers[w].refresher;
         t == s.(table := RefreshLease(s.table, s.workers[w].id, SecondOf(stamp + lease)),
                 workers := s.workers[w := s.workers[w].(refresher := Ticking(tick + lease / 2))])
    case RefreshFails(w) =>
      && w in s.workers && InDispatch(s.workers[w]) && s.workers[w].refresher.Writing?
      && t == s.(workers := s.workers[w := s.workers[w].(refresher := Ticking(s.workers[w].refresher.tick + lease / 2))])
    case StrayTick(r) =>
      && r in s.strays && r.refresher.Ticking? && r.refresher.tick <= s.now
      && t == s.(strays := s.strays - {r} + {r.(refresher := Writing(r.refresher.tick, s.now))})
    case StrayQuits(r) => r in s.strays && r.refresher.Ticking? && t == s.(strays := s.strays - {r})
    case StrayLands(r, lateTick) =>
      && r in s.strays && r.refresher.Writing?
      && t == s.(table := RefreshLease(s.table, r.id, SecondOf(r.refresher.stamp + lease)),
                 strays := s.strays - {r} + AfterStray(lease, r, s.now, lateTick))
    case StrayFails(r) => r in s.strays && r.refresher.Writing? && t == s.(strays := s.strays - {r})
    case Sweep => t == s.(table := SweepExpiredLeases(s.table, SecondOf(s.now)))
    case DeleteOld(olderThan) => t == s.(table := DeleteOldCompleted(s.table, olderThan))
    case Advance(delta) => t == s.(now := s.now + delta)
  }

  ghost predicate IsRun(lease: nat, states: seq<State>, actions: seq<Action>) {
    && |states| == |actions| + 1
    && Init(states[0])
    && forall i {:trigger actions[i]} :: 0 <= i < |actions| ==> Step(lease, states[i], actions[i], states[i + 1])
  }

  lemma RunStep(lease: nat, states: seq<State>, actions: seq<Action>, i: nat)
    requires IsRun(lease, states, actions) && 0 < i < |states|
    ensures Step(lease, states[i - 1], actions[i - 1], states[i])
  {
    var a := actions[i - 1];
  }

  // ----- no command is lost, whatever fails -----

  /** Every step keeps the commands, late or failing refreshes, lost replies, crashes
      and shutdowns included. */
  lemma StepKeepsCommands(lease: nat, s: State, a: Action, t: State)
    requires ValidTable(s.table) && OutcomesEnd(s) && Step(lease, s, a, t)
    ensures ValidTable(t.table) && KeepsCommands(s.table, t.table)
  {
    if a.Claim? || a.ClaimLost? {
      ClaimStepKeepsCommands(lease, s, a, t);
    } else if a.Enqueue? || a.Sweep? || a.DeleteOld? {
      QueueStepKeepsCommands(lease, s, a, t);
    } else if a.ShutDownBeforeDispatch? || a.Finish? {
      EndStepKeepsCommands(lease, s, a, t);
    } else if a.RefreshLands? || a.StrayLands? {
      RefreshStepKeepsCommands(lease, s, a, t);
    } else {
      UnchangedKeepsCommands(s.table, t.table);
    }
  }

  lemma ClaimStepKeepsCommands(lease: nat, s: State, a: Action, t: State)
    requires ValidTable(s.table) && Step(lease, s, a, t) && (a.Claim? || a.ClaimLost?)
    ensures ValidTable(t.table) && KeepsCommands(s.table, t.table)
  {
    MarkKeepsCommands(s.table, a.id, a.w, SecondOf(s.now), SecondOf(s.now + lease));
  }

  lemma QueueStepKeepsCommands(lease: nat, s: State, a: Action, t: State)
    requires ValidTable(s.table) && Step(lease, s, a, t) && (a.Enqueue? || a.Sweep? || a.DeleteOld?)
    ensures ValidTable(t.table) && KeepsCommands(s.table, t.table)
  {
    match a
    case Enqueue(name, priority, key) => EnqueueKeepsCommands(s.table, SecondOf(s.now), name, priority, key);
    case Sweep => SweepKeepsCommands(s.table, SecondOf(s.now));
    case DeleteOld(olderThan) => DeleteKeepsCommands(s.table, olderThan);
  }

  lemma EndStepKeepsCommands(lease: nat, s: State, a: Action, t: State)
    requires ValidTable(s.table) && OutcomesEnd(s) && Step(lease, s, a, t) && (a.ShutDownBeforeDispatch? || a.Finish?)
    ensures ValidTable(t.table) && KeepsCommands(s.table, t.table)
  {
    var ph := s.workers[a.w];
    EndedKeepsCommands(s, ph.id, if ph.Finishing? then ph.outcome else Failed, a.written);
  }

  lemma RefreshStepKeepsCommands(lease: nat, s: State, a: Action, t: State)
    requires ValidTable(s.table) && Step(lease, s, a, t) && (a.RefreshLands? || a.StrayLands?)
    ensures ValidTable(t.table) && KeepsCommands(s.table, t.table)
  {
    if a.RefreshLands? {
      RefreshKeepsCommands(s.table, s.workers[a.w].id, SecondOf(s.workers[a.w].refresher.stamp + lease));
    } else {
      RefreshKeepsCommands(s.table, a.stray.id, SecondOf(a.stray.refresher.stamp + lease));
    }
  }

  lemma UnchangedKeepsCommands(t: Table, u: Table)
    requires ValidTable(t) && u == t
    ensures ValidTable(u) && KeepsCommands(t, u)
  {
  }

  lemma EndedKeepsCommands(s: State, id: int, outcome: Status, written: bool)
    requires ValidTable(s.table) && !Active(outcome)
    ensures ValidTable(Ended(s, id, outcome, written)) && KeepsCommands(s.table, Ended(s, id, outcome, written))
  {
    EndKeepsCommands(s.table, id, outcome, SecondOf(s.now));
  }

  lemma StepKeepsOutcomes(lease: nat, s: State, a: Action, t: State)
    requires OutcomesEnd(s) && Step(lease, s, a, t)
    ensures OutcomesEnd(t)
  {
  }

  ghost function Tables(states: seq<State>): seq<Table> {
    seq(|states|, i requires 0 <= i < |states| => states[i].table)
  }

  ghost predicate OutcomesEnd(s: State) {
    forall w :: w in s.workers && s.workers[w].Finishing? ==> !Active(s.workers[w].outcome)
  }

  lemma {:induction false} RunIsValid(lease: nat, states: seq<State>, actions: seq<Action>, i: nat)
    requires IsRun(lease, states, actions) && i < |states|
    ensures ValidTable(states[i].table) && OutcomesEnd(states[i])
  {
    if i > 0 {
      RunIsValid(lease, states, actions, i - 1);
      RunStep(lease, states, actions, i);
      StepKeepsCommands(lease, states[i - 1], actions[i - 1], states[i]);
      StepKeepsOutcomes(lease, states[i - 1], actions[i - 1], states[i]);
    }
  }

  /** No command is lost over any run, whatever is late, lost, crashed or shut down. */
  lemma RunKeepsCommands(lease: nat, states: seq<State>, actions: seq<Action>, i: nat, j: nat, id: int)
    requires IsRun(lease, states, actions) && i <= j < |states| && id in states[i].table.rows
    ensures IsActive(states[i].table, id) ==>
              IsActive(states[j].table, id) || exists k :: i < k <= j && IsEnded(states[k].table, id)
    ensures IsEnded(states[i].table, id) ==>
              IsEnded(states[j].table, id) || id !in states[j].table.rows
  {
    var ts := Tables(states);
    forall k: nat | k + 1 < |ts| ensures Linked(ts, k) {
      RunIsValid(lease, states, actions, k);
      StepKeepsCommands(lease, states[k], actions[k], states[k + 1]);
    }
    RunIsValid(lease, states, actions, i);
    CommandsAreKept(ts, i, j, id);
    if IsActive(states[i].table, id) && !IsActive(states[j].table, id) {
      var k :| i < k <= j && IsEnded(ts[k], id);
      assert IsEnded(states[k].table, id);
    }
  }

  // ----- orphaned commands come back -----

  /** No worker and no refresh under way knows of this running command. */
  ghost predicate Orphaned(s: State, id: int) {
    && id in s.table.rows && s.table.rows[id].status.Running? && s.table.rows[id].leaseUntil.Some?
    && (forall w :: w in s.workers && !s.workers[w].Idle? ==> s.workers[w].id != id)
    && (forall r :: r in s.strays ==> r.id != id)
  }

  /** An orphaned command is left alone until the first sweep after its lease expires,
      and that sweep puts it back in the queue with worker and lease cleared. */
  lemma OrphanStepsToQueue(lease: nat, s: State, a: Action, t: State, id: int)
    requires Orphaned(s, id) && id < s.table.nextId && Step(lease, s, a, t)
    ensures if a.Sweep? && s.table.rows[id].leaseUntil.value < SecondOf(s.now)
            then id in t.table.rows && t.table.rows[id] == Requeue(s.table.rows[id])
            else Orphaned(t, id) && t.table.rows[id] == s.table.rows[id]
  {
  }

  ghost predicate ExpiringSweep(s: State, a: Action, id: int) {
    a.Sweep? && id in s.table.rows && Expired(s.table.rows[id], SecondOf(s.now))
  }

  lemma {:induction false} OrphanStays(
    lease: nat, states: seq<State>, actions: seq<Action>, i: nat, j: nat, id: int)
    requires IsRun(lease, states, actions) && i <= j < |states| && Orphaned(states[i], id)
    requires forall k {:trigger ExpiringSweep(states[k], actions[k], id)} ::
               i <= k < j ==> !ExpiringSweep(states[k], actions[k], id)
    ensures Orphaned(states[j], id) && states[j].table.rows[id] == states[i].table.rows[id]
    decreases j - i
  {
    if i < j {
      OrphanStays(lease, states, actions, i, j - 1, id);
      RunIsValid(lease, states, actions, j - 1);
      RunStep(lease, states, actions, j);
      assert !ExpiringSweep(states[j - 1], actions[j - 1], id);
      OrphanStepsToQueue(lease, states[j - 1], actions[j - 1], states[j], id);
    }
  }

  /** Over any run: an orphaned command keeps its row until the first sweep after its
      lease has expired, and that sweep requeues it. */
  lemma OrphanIsRequeued(lease: nat, states: seq<State>, actions: seq<Action>, i: nat, j: nat, id: int)
    requires IsRun(lease, states, actions) && i <= j < |actions| && Orphaned(states[i], id)
    requires forall k {:trigger ExpiringSweep(states[k], actions[k], id)} ::
               i <= k < j ==> !ExpiringSweep(states[k], actions[k], id)
    ensures Orphaned(states[j], id) && states[j].table.rows[id] == states[i].table.rows[id]
    ensures ExpiringSweep(states[j], actions[j], id) ==>
              id in states[j + 1].table.rows && states[j + 1].table.rows[id] == Requeue(states[i].table.rows[id])
  {
    OrphanStays(lease, states, actions, i, j, id);
    RunIsValid(lease, states, actions, j);
    RunStep(lease, states, actions, j + 1);
    OrphanStepsToQueue(lease, states[j], actions[j], states[j + 1], id);
  }
}
