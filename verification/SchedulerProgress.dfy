/** The other side of the spacing bound: what is due is listed, checked and enqueued, and
    the next execution is one interval on, to the second. */
module SchedulerProgress {
  import CommandLife
  import opened CommandTable
  import opened Options
  import Pool = WorkerPool
  import opened Scheduler

  lemma RunStep(lease: nat, keys: set<string>, states: seq<State>, actions: seq<Action>, i: nat)
    requires IsRun(lease, keys, states, actions) && 0 < i < |states|
    ensures Step(lease, keys, states[i - 1], actions[i - 1], states[i])
  {
    var a := actions[i - 1];
  }

  lemma StepAdvances(lease: nat, keys: set<string>, s: State, a: Action, t: State)
    requires Step(lease, keys, s, a, t)
    ensures s.pool.now <= t.pool.now
  {
  }

  lemma {:induction false} TimeAdvances(
    lease: nat, keys: set<string>, states: seq<State>, actions: seq<Action>, i: nat, j: nat)
    requires IsRun(lease, keys, states, actions) && i <= j < |states|
    ensures states[i].pool.now <= states[j].pool.now
  {
    if i < j {
      TimeAdvances(lease, keys, states, actions, i, j - 1);
      RunStep(lease, keys, states, actions, j);
      StepAdvances(lease, keys, states[j - 1], actions[j - 1], states[j]);
    }
  }

  // ----- the scheduler's runs are runs of the pool -----

  /** What a step of the scheduler is to the pool: an enqueue, the sweep at the end of a
      tick, or nothing. */
  function PoolAction(s: State, a: Action): Pool.Action {
    match a
    case PoolStep(b) => b
    case EndTick(swept) => if swept then Pool.Sweep else Pool.Advance(0)
    case _ =>
      if (a.Enqueue? || a.EnqueueUnseen?) && s.phase.NoDuplicate?
      then Pool.Enqueue(s.phase.task.typeName, 2, s.phase.task.typeName) else Pool.Advance(0)
  }

  function PoolStates(states: seq<State>): seq<Pool.State> {
    seq(|states|, i requires 0 <= i < |states| => states[i].pool)
  }

  function PoolActions(states: seq<State>, actions: seq<Action>): seq<Pool.Action>
    requires |actions| <= |states|
  {
    seq(|actions|, i requires 0 <= i < |actions| => PoolAction(states[i], actions[i]))
  }

  lemma StepOfPool(lease: nat, keys: set<string>, s: State, a: Action, t: State)
    requires Step(lease, keys, s, a, t)
    ensures Pool.Step(lease, s.pool, PoolAction(s, a), t.pool)
  {
  }

  /** So what holds over every run of the pool holds beside the scheduler. */
  lemma RunOfPool(lease: nat, keys: set<string>, states: seq<State>, actions: seq<Action>)
    requires IsRun(lease, keys, states, actions)
    ensures Pool.IsRun(lease, PoolStates(states), PoolActions(states, actions))
  {
    var ps, acts := PoolStates(states), PoolActions(states, actions);
    forall i {:trigger acts[i]} | 0 <= i < |acts| ensures Pool.Step(lease, ps[i], acts[i], ps[i + 1]) {
      var a := actions[i];
      StepOfPool(lease, keys, states[i], a, states[i + 1]);
    }
  }

  /** Tick `j` ends with a sweep, after the lease of an orphan that was one before. */
  ghost predicate SweepsOrphan(states: seq<State>, actions: seq<Action>, i: nat, j: nat, id: int)
    requires i < j < |actions| < |states|
  {
    && Pool.Orphaned(states[i + 1].pool, id) && actions[j] == EndTick(true)
    && states[i + 1].pool.table.rows[id].leaseUntil.value < SecondOf(states[j].pool.now)
  }

  lemma SweepsOrphanOfPool(states: seq<State>, actions: seq<Action>, i: nat, j: nat, id: int)
    requires i < j < |actions| < |states| && SweepsOrphan(states, actions, i, j, id)
    ensures var ps, acts := PoolStates(states), PoolActions(states, actions);
      && Pool.Orphaned(ps[i + 1], id) && acts[j].Sweep?
      && ps[i + 1].table.rows[id].leaseUntil.value < SecondOf(ps[j].now)
  {
    assert PoolAction(states[j], actions[j]) == Pool.Sweep;
  }

  /** An orphaned command is back in the queue, as enqueued, at the latest with the first
      tick that ends with a sweep after its lease. */
  lemma OrphanReturnsByTick(
    lease: nat, keys: set<string>, states: seq<State>, actions: seq<Action>, i: nat, j: nat, id: int)
    returns (k: nat)
    requires IsRun(lease, keys, states, actions) && i < j < |actions| && SweepsOrphan(states, actions, i, j, id)
    ensures i < k <= j && CommandLife.IsRequeuedBy(PoolStates(states), PoolActions(states, actions), k, id)
  {
    RunOfPool(lease, keys, states, actions);
    SweepsOrphanOfPool(states, actions, i, j, id);
    k := CommandLife.OrphanReturnsBySweep(lease, PoolStates(states), PoolActions(states, actions), i, j, id);
  }

  // ----- the loop goes on -----

  ghost predicate IsDueOf(tasks: map<string, Task>, now: int, ks: set<string>, ds: seq<Due>) {
    && DistinctTypes(ds)
    && (forall d :: d in ds ==> d.typeName in ks && d.typeName in tasks && IsDue(tasks[d.typeName], now)
                                && d.intervalSecs == tasks[d.typeName].intervalSecs)
    && (forall k :: k in ks && k in tasks && IsDue(tasks[k], now) ==> Due(k, tasks[k].intervalSecs) in ds)
  }

  lemma {:induction false} SomeDueList(tasks: map<string, Task>, now: int, ks: set<string>) returns (ds: seq<Due>)
    requires ks <= tasks.Keys
    ensures IsDueOf(tasks, now, ks, ds)
    decreases |ks|
  {
    ds := [];
    if ks != {} {
      var k :| k in ks;
      ds := SomeDueList(tasks, now, ks - {k});
      if IsDue(tasks[k], now) {
        ds := ds + [Due(k, tasks[k].intervalSecs)];
      }
    }
  }

  /** In every phase the loop has a next step that no failure is needed for: list, check,
      enqueue, read the clock, reschedule, and at the end of the list sweep. */
  lemma LoopGoesOn(lease: nat, keys: set<string>, s: State) returns (a: Action, t: State)
    ensures Step(lease, keys, s, a, t) && !a.SkipTask? && !a.Restart? && !a.PoolStep? && !a.Upsert?
    ensures a.EndTick? ==> a.swept
  {
    match s.phase
    case Sleeping =>
      var ds := SomeDueList(s.tasks, s.pool.now, s.tasks.Keys);
      a, t := BeginTick(ds), s.(phase := Processing(ds));
    case Processing(todo) =>
      if todo == [] {
        var table := SweepExpiredLeases(s.pool.table, SecondOf(s.pool.now));
        a, t := EndTick(true), s.(pool := s.pool.(table := table), phase := Sleeping);
      } else {
        var d, rest := todo[0], todo[1..];
        a := CheckDuplicate;
        t := s.(phase := if HasActive(s.pool.table, d.typeName) then Processing(rest) else NoDuplicate(d, rest));
      }
    case NoDuplicate(_, _) =>
      a := Enqueue;
      t := EnqueueIsEnabled(lease, keys, s);
    case Enqueued(task, todo) =>
      a, t := ReadClock, s.(phase := NextKnown(task, todo, SecondOf(s.pool.now + task.intervalSecs * SECOND)));
    case NextKnown(task, todo, next) =>
      a := UpdateExecution;
      t := s.(tasks := Rescheduled(s.tasks, task.typeName, next), log := MarkUpdated(s.log), phase := Processing(todo));
  }

  // ----- where a next execution comes from -----

  /** Action `q` enqueued the task, and it is the one whose clock is read at `m`. */
  ghost predicate IsEnqueueOf(states: seq<State>, actions: seq<Action>, q: nat, task: Due) {
    q < |actions| && q < |states| && actions[q] == Enqueue && states[q].phase.NoDuplicate? && states[q].phase.task == task
  }

  ghost predicate IsReadOf(states: seq<State>, actions: seq<Action>, m: nat, task: Due) {
    m < |actions| && m < |states| && actions[m] == ReadClock && states[m].phase.Enqueued? && states[m].phase.task == task
  }

  ghost predicate IsUpdateOf(states: seq<State>, actions: seq<Action>, u: nat, k: string) {
    && u < |actions| && u < |states| && actions[u] == UpdateExecution
    && states[u].phase.NextKnown? && states[u].phase.task.typeName == k
  }

  lemma {:induction false} WasEnqueued(lease: nat, keys: set<string>, states: seq<State>, actions: seq<Action>, n: nat)
    returns (q: nat)
    requires IsRun(lease, keys, states, actions) && n < |states| && states[n].phase.Enqueued?
    ensures q < n && IsEnqueueOf(states, actions, q, states[n].phase.task)
  {
    RunStep(lease, keys, states, actions, n);
    if actions[n - 1] == Enqueue {
      q := n - 1;
    } else {
      q := WasEnqueued(lease, keys, states, actions, n - 1);
    }
  }

  lemma {:induction false} WasRead(lease: nat, keys: set<string>, states: seq<State>, actions: seq<Action>, n: nat)
    returns (m: nat)
    requires IsRun(lease, keys, states, actions) && n < |states| && states[n].phase.NextKnown?
    ensures m < n && IsReadOf(states, actions, m, states[n].phase.task)
    ensures states[n].phase.next == SecondOf(states[m].pool.now + states[n].phase.task.intervalSecs * SECOND)
  {
    RunStep(lease, keys, states, actions, n);
    if actions[n - 1] == ReadClock {
      m := n - 1;
    } else {
      m := WasRead(lease, keys, states, actions, n - 1);
    }
  }

  /** The task row of type `k` was last rescheduled by action `u`, or not since state `u`. */
  ghost predicate NotUpdatedSince(states: seq<State>, actions: seq<Action>, u: nat, n: nat, k: string)
    requires n <= |actions| < |states|
  {
    forall j {:trigger IsUpdateOf(states, actions, j, k)} :: u < j < n ==> !IsUpdateOf(states, actions, j, k)
  }

  /** A next execution stays what it is until it is rescheduled. */
  lemma {:induction false} NextStays(
    lease: nat, keys: set<string>, states: seq<State>, actions: seq<Action>, u: nat, n: nat, k: string)
    requires IsRun(lease, keys, states, actions) && u < n < |states|
    requires k in states[u + 1].tasks && NotUpdatedSince(states, actions, u, n, k)
    ensures k in states[n].tasks && states[n].tasks[k].next == states[u + 1].tasks[k].next
    decreases n
  {
    if u + 1 < n {
      NextStays(lease, keys, states, actions, u, n - 1, k);
      RunStep(lease, keys, states, actions, n);
      assert !IsUpdateOf(states, actions, n - 1, k);
    }
  }

  /** A written next execution is one interval after the clock was read, which was after
      the enqueue: exactly that instant's second, in every later state until the task is
      rescheduled. */
  lemma NextIsOneIntervalOn(
    lease: nat, keys: set<string>, states: seq<State>, actions: seq<Action>, u: nat, n: nat, k: string)
    returns (q: nat, m: nat)
    requires IsRun(lease, keys, states, actions) && u < n < |states| && IsUpdateOf(states, actions, u, k)
    requires NotUpdatedSince(states, actions, u, n, k)
    ensures q < m < u && IsEnqueueOf(states, actions, q, states[u].phase.task) && IsReadOf(states, actions, m, states[u].phase.task)
    ensures states[q].pool.now <= states[m].pool.now <= states[u].pool.now
    ensures k in states[n].tasks
    ensures states[n].tasks[k].next == SecondOf(states[m].pool.now + states[u].phase.task.intervalSecs * SECOND)
  {
    m := WasRead(lease, keys, states, actions, u);
    q := WasEnqueued(lease, keys, states, actions, m);
    TimeAdvances(lease, keys, states, actions, q, m);
    TimeAdvances(lease, keys, states, actions, m, u);
    RunKeepsSpacing(lease, keys, states, actions, u);
    RunStep(lease, keys, states, actions, u + 1);
    NextStays(lease, keys, states, actions, u, n, k);
  }

  /** So a tick lists the task if an interval has passed since the clock was read, and does
      not list it before that instant's second. */
  lemma ListedAfterInterval(
    lease: nat, keys: set<string>, states: seq<State>, actions: seq<Action>, u: nat, n: nat, k: string)
    returns (m: nat)
    requires IsRun(lease, keys, states, actions) && u < n < |actions| && IsUpdateOf(states, actions, u, k)
    requires NotUpdatedSince(states, actions, u, n, k) && actions[n].BeginTick?
    ensures m < u && IsReadOf(states, actions, m, states[u].phase.task)
    ensures var due := states[m].pool.now + states[u].phase.task.intervalSecs * SECOND;
      && (due <= states[n].pool.now ==> exists d :: d in actions[n].due && d.typeName == k)
      && ((exists d :: d in actions[n].due && d.typeName == k) ==> due < states[n].pool.now + SECOND)
  {
    var q: nat;
    q, m := NextIsOneIntervalOn(lease, keys, states, actions, u, n, k);
    RunStep(lease, keys, states, actions, n + 1);
    var due := states[m].pool.now + states[u].phase.task.intervalSecs * SECOND;
    if due <= states[n].pool.now {
      SecondOfIsMonotone(due, states[n].pool.now);
      assert Due(k, states[n].tasks[k].intervalSecs) in actions[n].due;
    }
    if d :| d in actions[n].due && d.typeName == k {
      assert IsDue(states[n].tasks[k], states[n].pool.now);
    }
  }

  /** So after a reschedule the task is not enqueued again before that second. */
  lemma NextEnqueueIsIntervalOn(
    lease: nat, keys: set<string>, states: seq<State>, actions: seq<Action>, u: nat, n: nat, k: string)
    returns (q: nat, m: nat)
    requires IsRun(lease, keys, states, actions) && u < n < |actions| && IsUpdateOf(states, actions, u, k)
    requires NotUpdatedSince(states, actions, u, n, k) && (actions[n] == Enqueue || actions[n] == EnqueueUnseen)
    requires states[n].phase.NoDuplicate? && states[n].phase.task.typeName == k
    ensures q < m < u && IsEnqueueOf(states, actions, q, states[u].phase.task) && IsReadOf(states, actions, m, states[u].phase.task)
    ensures states[q].pool.now <= states[m].pool.now
    ensures states[m].pool.now + (states[u].phase.task.intervalSecs - 1) * SECOND < states[n].pool.now
  {
    q, m := NextIsOneIntervalOn(lease, keys, states, actions, u, n, k);
    RunKeepsSpacing(lease, keys, states, actions, n);
    assert IsDue(states[n].tasks[k], states[n].pool.now);
  }

  /** Entry `e` of the log was made by enqueue `q`. */
  ghost predicate IsEntryOf(states: seq<State>, e: Entry, q: nat) {
    && q < |states| && states[q].phase.NoDuplicate?
    && e.typeName == states[q].phase.task.typeName && e.at == states[q].pool.now
    && e.intervalSecs == states[q].phase.task.intervalSecs
  }

  lemma {:induction false} LastWasEntered(
    lease: nat, keys: set<string>, states: seq<State>, actions: seq<Action>, n: nat)
    returns (q: nat)
    requires IsRun(lease, keys, states, actions) && n < |states| && (states[n].phase.Enqueued? || states[n].phase.NextKnown?)
    ensures q < n && IsEnqueueOf(states, actions, q, states[n].phase.task)
    ensures states[n].log != [] && IsEntryOf(states, states[n].log[|states[n].log| - 1], q)
  {
    RunStep(lease, keys, states, actions, n);
    if actions[n - 1] == Enqueue {
      q := n - 1;
    } else {
      q := LastWasEntered(lease, keys, states, actions, n - 1);
    }
  }

  /** A successful UpdateExecution marks the entry of the enqueue it follows. */
  lemma UpdateIsLogged(lease: nat, keys: set<string>, states: seq<State>, actions: seq<Action>, u: nat, k: string)
    returns (q: nat)
    requires IsRun(lease, keys, states, actions) && IsUpdateOf(states, actions, u, k) && u < |actions|
    ensures q < u && IsEnqueueOf(states, actions, q, states[u].phase.task)
    ensures var log := states[u + 1].log; log != [] && IsEntryOf(states, log[|log| - 1], q) && log[|log| - 1].updated
  {
    q := LastWasEntered(lease, keys, states, actions, u);
    RunStep(lease, keys, states, actions, u + 1);
  }

  // ----- what is due is enqueued -----

  ghost predicate SomeActive(t: Table, k: string) {
    exists id :: ActiveUnder(t, id, k)
  }

  /** The check passes over exactly the tasks that have an active command. */
  lemma CheckDecides(lease: nat, keys: set<string>, s: State, t: State)
    requires Step(lease, keys, s, CheckDuplicate, t)
    ensures s.phase.Processing? && s.phase.todo != []
    ensures var d, rest := s.phase.todo[0], s.phase.todo[1..];
      t.phase == if SomeActive(s.pool.table, d.typeName) then Processing(rest) else NoDuplicate(d, rest)
  {
    var k := s.phase.todo[0].typeName;
    if HasActive(s.pool.table, k) {
      var id :| id in s.pool.table.rows && s.pool.table.rows[id].dedupKey == k && Active(s.pool.table.rows[id].status);
      assert ActiveUnder(s.pool.table, id, k);
    }
  }

  /** A scheduled enqueue, which the check never rules out, puts one command in the queue:
      named and keyed by the task's type, at normal priority, now. */
  lemma EnqueueWritesTask(lease: nat, keys: set<string>, s: State, a: Action, t: State)
    requires ValidTable(s.pool.table) && (a.Enqueue? || a.EnqueueUnseen?) && Step(lease, keys, s, a, t)
    ensures var k, id := s.phase.task.typeName, s.pool.table.nextId;
      && t.pool.table.rows.Keys == s.pool.table.rows.Keys + {id}
      && IsNew(t.pool.table.rows[id], k, 2, k, SecondOf(s.pool.now))
      && ActiveUnder(t.pool.table, id, k)
  {
  }

  lemma EnqueueIsEnabled(lease: nat, keys: set<string>, s: State) returns (t: State)
    requires s.phase.NoDuplicate?
    ensures Step(lease, keys, s, Enqueue, t)
  {
    var k := s.phase.task.typeName;
    var pool := s.pool.(table := EnqueueCommand(s.pool.table, SecondOf(s.pool.now), k, PRIORITY_NORMAL, k));
    t := s.(pool := pool, log := s.log + [NewEntry(s)], phase := Enqueued(s.phase.task, s.phase.todo));
  }

  /** Within a tick task `d` is still to do, in hand, or has been seen active. */
  ghost predicate IsCovered(states: seq<State>, i: nat, n: nat, d: Due)
    requires n < |states|
  {
    || (states[n].phase.NoDuplicate? && states[n].phase.task == d)
    || (!states[n].phase.Sleeping? && d in states[n].phase.todo)
    || exists m :: i <= m <= n && SomeActive(states[m].pool.table, d.typeName)
  }

  /** The tick begun at `i` is not over at `n`, and no lookup or enqueue of it has failed. */
  ghost predicate IsSmooth(actions: seq<Action>, i: nat, n: nat)
    requires n <= |actions|
  {
    forall j {:trigger actions[j]} :: i < j < n ==> !actions[j].SkipTask? && !actions[j].Restart? && !actions[j].EndTick?
  }

  lemma CoverageStep(lease: nat, keys: set<string>, s: State, a: Action, t: State, d: Due)
    requires ValidTable(s.pool.table) && Step(lease, keys, s, a, t) && !a.SkipTask? && !a.Restart? && !a.EndTick?
    requires (s.phase.NoDuplicate? && s.phase.task == d) || (!s.phase.Sleeping? && d in s.phase.todo)
    ensures || (t.phase.NoDuplicate? && t.phase.task == d)
            || (!t.phase.Sleeping? && d in t.phase.todo)
            || SomeActive(s.pool.table, d.typeName) || SomeActive(t.pool.table, d.typeName)
  {
    if a.CheckDuplicate? {
      CheckDecides(lease, keys, s, t);
    } else if a.Enqueue? || a.EnqueueUnseen? {
      EnqueueWritesTask(lease, keys, s, a, t);
    }
  }

  lemma {:induction false} TickCovers(
    lease: nat, keys: set<string>, states: seq<State>, actions: seq<Action>, i: nat, n: nat, d: Due)
    requires IsRun(lease, keys, states, actions) && i < n < |states|
    requires actions[i].BeginTick? && d in actions[i].due && IsSmooth(actions, i, n)
    ensures IsCovered(states, i, n, d)
    decreases n
  {
    RunStep(lease, keys, states, actions, n);
    if n > i + 1 {
      TickCovers(lease, keys, states, actions, i, n - 1, d);
      if m :| i <= m <= n - 1 && SomeActive(states[m].pool.table, d.typeName) {
      } else {
        RunKeepsDedup(lease, keys, states, actions, n - 1);
        var a := actions[n - 1];
        CoverageStep(lease, keys, states[n - 1], a, states[n], d);
      }
    }
  }

  /** A tick that runs to its end without a failed lookup or enqueue leaves no due task
      behind: at some moment of it a command of that task was active. */
  lemma DueTasksGetTheirCommand(
    lease: nat, keys: set<string>, states: seq<State>, actions: seq<Action>, i: nat, n: nat, d: Due)
    returns (m: nat)
    requires IsRun(lease, keys, states, actions) && i < n < |actions|
    requires actions[i].BeginTick? && d in actions[i].due && IsSmooth(actions, i, n) && actions[n].EndTick?
    ensures i <= m <= n && SomeActive(states[m].pool.table, d.typeName)
  {
    TickCovers(lease, keys, states, actions, i, n, d);
    RunStep(lease, keys, states, actions, n + 1);
    var k :| i <= k <= n && SomeActive(states[k].pool.table, d.typeName);
    m := k;
  }
}
