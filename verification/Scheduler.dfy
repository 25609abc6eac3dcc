/** The scheduler loop beside the worker pool: it reads the due tasks, and for each one
    checks for an active duplicate, enqueues, reads the clock and writes the next
    execution, all as separate steps that workers, sweeps and time interleave with. */
module Scheduler {
  import opened CommandTable
  import Pool = WorkerPool

  /** A row of scheduled_tasks; `next` has one-second precision. */
  datatype Task = Task(intervalSecs: int, next: int)

  /** A task as GetDueTasks returned it. */
  datatype Due = Due(typeName: string, intervalSecs: int)

  datatype Phase =
    | Sleeping
    | Processing(todo: seq<Due>)
    | NoDuplicate(task: Due, todo: seq<Due>)
    | Enqueued(task: Due, todo: seq<Due>)
    | NextKnown(task: Due, todo: seq<Due>, next: int)

  /** One scheduled enqueue; `updated` once its UpdateExecution has succeeded. */
  datatype Entry = Entry(typeName: string, at: int, intervalSecs: int, updated: bool)

  datatype State = State(pool: Pool.State, tasks: map<string, Task>, phase: Phase, log: seq<Entry>)

  datatype Action =
    | PoolStep(a: Pool.Action)
    | Upsert(typeName: string, intervalSecs: int, next: int)
    | BeginTick(due: seq<Due>)
    | CheckDuplicate
    | Enqueue
    | EnqueueUnseen
    | ReadClock
    | UpdateExecution
    | SkipTask
    | EndTick(swept: bool)
    | Restart

  const PRIORITY_NORMAL := 2

  ghost predicate DistinctTypes(ds: seq<Due>) {
    forall i, j :: 0 <= i < j < |ds| ==> ds[i].typeName != ds[j].typeName
  }

  predicate IsDue(task: Task, now: int) {
    task.next <= SecondOf(now)
  }

  /** SELECT ... WHERE next_execution <= now: the due tasks, each once. */
  ghost predicate IsDueList(tasks: map<string, Task>, now: int, ds: seq<Due>) {
    && DistinctTypes(ds)
    && (forall d :: d in ds ==>
          && d.typeName in tasks && IsDue(tasks[d.typeName], now)
          && tasks[d.typeName].intervalSecs == d.intervalSecs)
    && (forall k :: k in tasks && IsDue(tasks[k], now) ==> Due(k, tasks[k].intervalSecs) in ds)
  }

  ghost predicate EnqueueStep(lease: nat, s: State, t: Pool.State)
    requires s.phase.NoDuplicate?
  {
    var k := s.phase.task.typeName;
    Pool.Step(lease, s.pool, Pool.Enqueue(k, PRIORITY_NORMAL, k), t)
  }

  function NewEntry(s: State): Entry
    requires s.phase.NoDuplicate?
  {
    Entry(s.phase.task.typeName, s.pool.now, s.phase.task.intervalSecs, false)
  }

  /** The task row after UpdateExecution. */
  function Rescheduled(tasks: map<string, Task>, typeName: string, next: int): map<string, Task> {
    if typeName in tasks then tasks[typeName := tasks[typeName].(next := next)] else tasks
  }

  /** The log with its last entry, the one being processed, marked as updated. */
  function MarkUpdated(log: seq<Entry>): seq<Entry> {
    if log == [] then log else log[|log| - 1 := log[|log| - 1].(updated := true)]
  }

  /** `keys` are the task types; nobody but the scheduler enqueues under them. */
  ghost predicate Step(lease: nat, keys: set<string>, s: State, a: Action, t: State) {
    match a
    case PoolStep(b) =>
      && (b.Enqueue? ==> b.dedupKey !in keys)
      && Pool.Step(lease, s.pool, b, t.pool)
      && t == s.(pool := t.pool)
    case Upsert(k, interval, next) =>
      && k in keys
      && t == s.(tasks := s.tasks[k := Task(interval, if k in s.tasks then s.tasks[k].next else next)])
    case BeginTick(due) =>
      s.phase.Sleeping? && IsDueList(s.tasks, s.pool.now, due) && t == s.(phase := Processing(due))
    case CheckDuplicate =>
      && s.phase.Processing? && s.phase.todo != []
      && var d, rest := s.phase.todo[0], s.phase.todo[1..];
         t == s.(phase := if HasActive(s.pool.table, d.typeName) then Processing(rest) else NoDuplicate(d, rest))
    case Enqueue =>
      && s.phase.NoDuplicate? && EnqueueStep(lease, s, t.pool)
      && t == s.(pool := t.pool, log := s.log + [NewEntry(s)], phase := Enqueued(s.phase.task, s.phase.todo))
    case EnqueueUnseen =>
      && s.phase.NoDuplicate? && EnqueueStep(lease, s, t.pool)
      && t == s.(pool := t.pool, log := s.log + [NewEntry(s)], phase := Processing(s.phase.todo))
    case ReadClock =>
      && s.phase.Enqueued?
      && t == s.(phase := NextKnown(s.phase.task, s.phase.todo,
                                    SecondOf(s.pool.now + s.phase.task.intervalSecs * SECOND)))
    case UpdateExecution =>
      && s.phase.NextKnown?
      && t == s.(tasks := Rescheduled(s.tasks, s.phase.task.typeName, s.phase.next),
                 log := MarkUpdated(s.log), phase := Processing(s.phase.todo))
    case SkipTask =>
      && !s.phase.Sleeping?
      && (s.phase.Processing? ==> s.phase.todo != [])
      && t == s.(phase := Processing(if s.phase.Processing? then s.phase.todo[1..] else s.phase.todo))
    case EndTick(swept) =>
      && s.phase.Processing? && s.phase.todo == []
      && (if swept then Pool.Step(lease, s.pool, Pool.Sweep, t.pool) else t.pool == s.pool)
      && t == s.(pool := t.pool, phase := Sleeping)
    case Restart => t == s.(phase := Sleeping)
  }

  ghost predicate Init(s: State) {
    Pool.Init(s.pool) && s.tasks == map[] && s.phase == Sleeping && s.log == []
  }

  ghost predicate IsRun(lease: nat, keys: set<string>, states: seq<State>, actions: seq<Action>) {
    && |states| == |actions| + 1
    && Init(states[0])
    && forall i {:trigger actions[i]} :: 0 <= i < |actions| ==> Step(lease, keys, states[i], actions[i], states[i + 1])
  }

  // ----- at most one active command per task type -----

  ghost predicate ActiveUnder(t: Table, id: int, k: string) {
    IsActive(t, id) && t.rows[id].dedupKey == k
  }

  ghost predicate AtMostOneActive(t: Table, k: string) {
    forall i, j :: ActiveUnder(t, i, k) && ActiveUnder(t, j, k) ==> i == j
  }

  predicate CurrentIn(p: Phase, keys: set<string>) {
    (p.NoDuplicate? || p.Enqueued? || p.NextKnown?) ==> p.task.typeName in keys
  }

  ghost predicate TodoIn(p: Phase, keys: set<string>) {
    !p.Sleeping? ==> forall d :: d in p.todo ==> d.typeName in keys
  }

  ghost predicate Dedup(keys: set<string>, s: State) {
    && ValidTable(s.pool.table) && Pool.OutcomesEnd(s.pool)
    && s.tasks.Keys <= keys && CurrentIn(s.phase, keys) && TodoIn(s.phase, keys)
    && (forall k :: k in keys ==> AtMostOneActive(s.pool.table, k))
    && (s.phase.NoDuplicate? ==> !HasActive(s.pool.table, s.phase.task.typeName))
  }

  /** A step of the pool that enqueues nothing under `k` makes nothing active under it. */
  lemma PoolAddsNoActive(lease: nat, s: Pool.State, a: Pool.Action, t: Pool.State, k: string)
    requires ValidTable(s.table) && Pool.OutcomesEnd(s) && Pool.Step(lease, s, a, t)
    requires a.Enqueue? ==> a.dedupKey != k
    ensures forall id :: ActiveUnder(t.table, id, k) ==> ActiveUnder(s.table, id, k)
  {
    Pool.StepKeepsCommands(lease, s, a, t);
  }

  lemma PoolStepKeepsDedup(lease: nat, keys: set<string>, s: State, b: Pool.Action, t: State)
    requires Dedup(keys, s) && Pool.Step(lease, s.pool, b, t.pool) && t == s.(pool := t.pool, phase := t.phase)
    requires b.Enqueue? ==> b.dedupKey !in keys
    requires t.phase == s.phase || t.phase.Sleeping?
    ensures Dedup(keys, t)
  {
    Pool.StepKeepsCommands(lease, s.pool, b, t.pool);
    Pool.StepKeepsOutcomes(lease, s.pool, b, t.pool);
    forall k | k in keys
      ensures AtMostOneActive(t.pool.table, k) && (HasActive(t.pool.table, k) ==> HasActive(s.pool.table, k))
    {
      PoolAddsNoActive(lease, s.pool, b, t.pool, k);
      if HasActive(t.pool.table, k) {
        var id :| id in t.pool.table.rows && t.pool.table.rows[id].dedupKey == k && Active(t.pool.table.rows[id].status);
        assert ActiveUnder(t.pool.table, id, k);
      }
    }
  }

  lemma EnqueueKeepsDedup(lease: nat, keys: set<string>, s: State, t: State)
    requires Dedup(keys, s) && s.phase.NoDuplicate? && EnqueueStep(lease, s, t.pool)
    requires t.tasks == s.tasks && !t.phase.NoDuplicate? && CurrentIn(t.phase, keys) && TodoIn(t.phase, keys)
    ensures Dedup(keys, t)
  {
    var k := s.phase.task.typeName;
    var a := Pool.Enqueue(k, PRIORITY_NORMAL, k);
    Pool.StepKeepsCommands(lease, s.pool, a, t.pool);
    Pool.StepKeepsOutcomes(lease, s.pool, a, t.pool);
    forall m | m in keys ensures AtMostOneActive(t.pool.table, m) {
      if m != k {
        PoolAddsNoActive(lease, s.pool, a, t.pool, m);
      }
    }
  }

  lemma StepKeepsDedup(lease: nat, keys: set<string>, s: State, a: Action, t: State)
    requires Dedup(keys, s) && Step(lease, keys, s, a, t)
    ensures Dedup(keys, t)
  {
    match a
    case PoolStep(b) => PoolStepKeepsDedup(lease, keys, s, b, t);
    case EndTick(swept) =>
      if swept {
        PoolStepKeepsDedup(lease, keys, s, Pool.Sweep, t);
      }
    case Enqueue => EnqueueKeepsDedup(lease, keys, s, t);
    case EnqueueUnseen => EnqueueKeepsDedup(lease, keys, s, t);
    case _ =>
  }

  lemma {:induction false} RunKeepsDedup(
    lease: nat, keys: set<string>, states: seq<State>, actions: seq<Action>, i: nat)
    requires IsRun(lease, keys, states, actions) && i < |states|
    ensures Dedup(keys, states[i])
  {
    if i > 0 {
      RunKeepsDedup(lease, keys, states, actions, i - 1);
      StepKeepsDedup(lease, keys, states[i - 1], actions[i - 1], states[i]);
    }
  }

  /** Scheduled dedup: in every reachable state at most one command per task type is
      queued or running, although the duplicate check and the enqueue are separate. */
  lemma OneActivePerTask(
    lease: nat, keys: set<string>, states: seq<State>, actions: seq<Action>, i: nat, k: string, x: int, y: int)
    requires IsRun(lease, keys, states, actions) && i < |states| && k in keys
    requires ActiveUnder(states[i].pool.table, x, k) && ActiveUnder(states[i].pool.table, y, k)
    ensures x == y
  {
    RunKeepsDedup(lease, keys, states, actions, i);
  }

  // ----- spacing of scheduled enqueues -----

  /** Nothing of the entry's type may be enqueued until after this instant. */
  function Earliest(e: Entry): int {
    e.at + (e.intervalSecs - 1) * SECOND
  }

  /** Two enqueues of one type, the earlier with its next execution written, are more
      than that interval less one second apart. */
  ghost predicate Spaced(log: seq<Entry>) {
    forall i, j :: 0 <= i < j < |log| && log[i].typeName == log[j].typeName && log[i].updated ==>
      Earliest(log[i]) < log[j].at
  }

  ghost predicate LogInOrder(s: State) {
    && (forall i, j :: 0 <= i < j < |s.log| ==> s.log[i].at <= s.log[j].at)
    && (forall i :: 0 <= i < |s.log| ==> s.log[i].at <= s.pool.now)
  }

  /** The written next execution of a type's latest enqueue keeps the type undue. */
  ghost predicate NextIsLate(s: State) {
    forall i :: 0 <= i < |s.log| && s.log[i].updated ==>
      || (exists j :: i < j < |s.log| && s.log[j].typeName == s.log[i].typeName)
      || (s.log[i].typeName in s.tasks && Earliest(s.log[i]) < s.tasks[s.log[i].typeName].next * SECOND)
  }

  /** The tasks still to process are due, and differ from the one in hand. */
  ghost predicate TodoIsDue(s: State) {
    && (!s.phase.Sleeping? ==>
          DistinctTypes(s.phase.todo)
          && forall d :: d in s.phase.todo ==> d.typeName in s.tasks && IsDue(s.tasks[d.typeName], s.pool.now))
    && (s.phase.NoDuplicate? || s.phase.Enqueued? || s.phase.NextKnown? ==>
          s.phase.task.typeName in s.tasks
          && forall d :: d in s.phase.todo ==> d.typeName != s.phase.task.typeName)
    && (s.phase.NoDuplicate? ==> IsDue(s.tasks[s.phase.task.typeName], s.pool.now))
  }

  /** While a task is being finished, its entry is the log's last. */
  ghost predicate LastIsCurrent(s: State) {
    s.phase.Enqueued? || s.phase.NextKnown? ==>
      && s.log != []
      && var e := s.log[|s.log| - 1];
      && e.typeName == s.phase.task.typeName && e.intervalSecs == s.phase.task.intervalSecs
      && (s.phase.NextKnown? ==> Earliest(e) < s.phase.next * SECOND)
  }

  ghost predicate Spacing(s: State) {
    Spaced(s.log) && LogInOrder(s) && NextIsLate(s) && TodoIsDue(s) && LastIsCurrent(s)
  }

  lemma PoolTimeAdvances(lease: nat, s: Pool.State, a: Pool.Action, t: Pool.State)
    requires Pool.Step(lease, s, a, t)
    ensures s.now <= t.now
  {
  }

  lemma TimeKeepsSpacing(s: State, t: State)
    requires Spacing(s) && s.pool.now <= t.pool.now
    requires t.tasks == s.tasks && t.log == s.log && (t.phase == s.phase || t.phase.Sleeping?)
    ensures Spacing(t)
  {
    SecondOfIsMonotone(s.pool.now, t.pool.now);
  }

  lemma NewEntryIsSpaced(s: State, i: int)
    requires Spacing(s) && s.phase.NoDuplicate? && 0 <= i < |s.log|
    requires s.log[i].typeName == s.phase.task.typeName && s.log[i].updated
    ensures Earliest(s.log[i]) < s.pool.now
  {
    if j :| i < j < |s.log| && s.log[j].typeName == s.log[i].typeName {
    } else {
      assert IsDue(s.tasks[s.phase.task.typeName], s.pool.now);
    }
  }

  lemma EnqueueKeepsSpacing(s: State, t: State)
    requires Spacing(s) && s.phase.NoDuplicate?
    requires t.tasks == s.tasks && t.pool.now == s.pool.now && t.log == s.log + [NewEntry(s)]
    requires t.phase == Enqueued(s.phase.task, s.phase.todo) || t.phase == Processing(s.phase.todo)
    ensures Spacing(t)
  {
    forall i, j | 0 <= i < j < |t.log| && t.log[i].typeName == t.log[j].typeName && t.log[i].updated
      ensures Earliest(t.log[i]) < t.log[j].at
    {
      if j == |s.log| {
        NewEntryIsSpaced(s, i);
      }
    }
    forall i | 0 <= i < |t.log| && t.log[i].updated
      ensures || (exists j :: i < j < |t.log| && t.log[j].typeName == t.log[i].typeName)
              || (t.log[i].typeName in t.tasks && Earliest(t.log[i]) < t.tasks[t.log[i].typeName].next * SECOND)
    {
      if j :| i < j < |s.log| && s.log[j].typeName == s.log[i].typeName {
        assert t.log[j].typeName == t.log[i].typeName;
      }
    }
  }

  lemma ReadClockKeepsSpacing(lease: nat, keys: set<string>, s: State, t: State)
    requires Spacing(s) && Step(lease, keys, s, ReadClock, t)
    ensures Spacing(t)
  {
  }

  lemma UpdateKeepsSpacing(lease: nat, keys: set<string>, s: State, t: State)
    requires Spacing(s) && Step(lease, keys, s, UpdateExecution, t)
    ensures Spacing(t)
  {
    var last := |s.log| - 1;
    forall i | 0 <= i < |t.log| && t.log[i].updated
      ensures || (exists j :: i < j < |t.log| && t.log[j].typeName == t.log[i].typeName)
              || (t.log[i].typeName in t.tasks && Earliest(t.log[i]) < t.tasks[t.log[i].typeName].next * SECOND)
    {
      if i < last && s.log[i].typeName == s.log[last].typeName {
        assert t.log[last].typeName == t.log[i].typeName;
      } else if i < last {
        if j :| i < j < |s.log| && s.log[j].typeName == s.log[i].typeName {
          assert t.log[j].typeName == t.log[i].typeName;
        }
      }
    }
  }

  lemma UpsertKeepsSpacing(lease: nat, keys: set<string>, s: State, a: Action, t: State)
    requires Spacing(s) && Step(lease, keys, s, a, t) && a.Upsert?
    ensures Spacing(t)
  {
    assert t.log == s.log && t.pool == s.pool && t.phase == s.phase;
    assert forall k :: k in s.tasks ==> k in t.tasks && t.tasks[k].next == s.tasks[k].next;
  }

  lemma PhaseStepKeepsSpacing(lease: nat, keys: set<string>, s: State, a: Action, t: State)
    requires Spacing(s) && Step(lease, keys, s, a, t) && (a.BeginTick? || a.CheckDuplicate? || a.SkipTask?)
    ensures Spacing(t)
  {
    assert t.log == s.log && t.pool == s.pool && t.tasks == s.tasks;
  }

  lemma StepKeepsSpacing(lease: nat, keys: set<string>, s: State, a: Action, t: State)
    requires Spacing(s) && Step(lease, keys, s, a, t)
    ensures Spacing(t)
  {
    match a
    case PoolStep(b) =>
      PoolTimeAdvances(lease, s.pool, b, t.pool);
      TimeKeepsSpacing(s, t);
    case EndTick(swept) => TimeKeepsSpacing(s, t);
    case Enqueue => EnqueueKeepsSpacing(s, t);
    case EnqueueUnseen => EnqueueKeepsSpacing(s, t);
    case ReadClock => ReadClockKeepsSpacing(lease, keys, s, t);
    case UpdateExecution => UpdateKeepsSpacing(lease, keys, s, t);
    case Upsert(_, _, _) => UpsertKeepsSpacing(lease, keys, s, a, t);
    case Restart => TimeKeepsSpacing(s, t);
    case BeginTick(_) => PhaseStepKeepsSpacing(lease, keys, s, a, t);
    case CheckDuplicate => PhaseStepKeepsSpacing(lease, keys, s, a, t);
    case SkipTask => PhaseStepKeepsSpacing(lease, keys, s, a, t);
  }

  lemma {:induction false} RunKeepsSpacing(
    lease: nat, keys: set<string>, states: seq<State>, actions: seq<Action>, i: nat)
    requires IsRun(lease, keys, states, actions) && i < |states|
    ensures Spacing(states[i])
  {
    if i > 0 {
      RunKeepsSpacing(lease, keys, states, actions, i - 1);
      StepKeepsSpacing(lease, keys, states[i - 1], actions[i - 1], states[i]);
    }
  }

  /** The spacing bound: in every run, whatever is overdue or rescheduled, an enqueue
      whose UpdateExecution succeeded is followed by the next one of its type more than
      its interval less one second later. */
  lemma EnqueuesAreSpaced(
    lease: nat, keys: set<string>, states: seq<State>, actions: seq<Action>, n: nat, i: nat, j: nat)
    requires IsRun(lease, keys, states, actions) && n < |states|
    requires i < j < |states[n].log|
    requires states[n].log[i].typeName == states[n].log[j].typeName && states[n].log[i].updated
    ensures states[n].log[i].at + (states[n].log[i].intervalSecs - 1) * SECOND < states[n].log[j].at
  {
    RunKeepsSpacing(lease, keys, states, actions, n);
  }
}
