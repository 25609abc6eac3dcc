/** The commands table and the SQL statements the queue runs on it.

    Times in the table have one-second precision: a timestamp is written as text in a
    layout whose order is the order of the seconds it names, so a column holds a number
    of seconds here and `<` on the text is `<` on that number. */
module CommandTable {
  import opened Options

  /** Nanoseconds in a second; instants are nanoseconds, columns are seconds. */
  const SECOND: int := 1_000_000_000

  function SecondOf(instant: int): (s: int)
    ensures s * SECOND <= instant < (s + 1) * SECOND
  {
    instant / SECOND
  }

  lemma SecondOfIsMonotone(a: int, b: int)
    requires a <= b
    ensures SecondOf(a) <= SecondOf(b)
  {
  }

  datatype Status = Queued | Running | Completed | Failed

  predicate Active(s: Status) {
    s.Queued? || s.Running?
  }

  /** Body, trigger, messages, results and durations play no part below. */
  datatype Row = Row(
    name: string,
    priority: int,
    status: Status,
    queuedAt: int,
    startedAt: Option<int>,
    endedAt: Option<int>,
    worker: string,
    leaseUntil: Option<int>,
    dedupKey: string)

  /** `nextId` is the AUTOINCREMENT counter: ids are never reused. */
  datatype Table = Table(rows: map<int, Row>, nextId: int)

  const EMPTY_TABLE := Table(map[], 1)

  ghost predicate ValidTable(t: Table) {
    && (forall id :: id in t.rows ==> id < t.nextId)
    && (forall id :: id in t.rows && t.rows[id].status.Running? ==> t.rows[id].leaseUntil.Some?)
  }

  // ----- one function per statement -----

  function EnqueueCommand(t: Table, now: int, name: string, priority: int, dedupKey: string): Table {
    Table(t.rows[t.nextId := Row(name, priority, Queued, now, None, None, "", None, dedupKey)],
          t.nextId + 1)
  }

  /** ORDER BY priority, queued_at: a lower number is a higher priority. */
  predicate ClaimsBefore(a: Row, b: Row) {
    a.priority < b.priority || (a.priority == b.priority && a.queuedAt <= b.queuedAt)
  }

  /** What SelectNextQueuedCommand may return; ties are the database's choice. */
  ghost predicate IsNextQueued(t: Table, id: int) {
    && id in t.rows && t.rows[id].status.Queued?
    && forall o :: o in t.rows && t.rows[o].status.Queued? ==> ClaimsBefore(t.rows[id], t.rows[o])
  }

  ghost predicate NothingQueued(t: Table) {
    forall id :: id in t.rows ==> !t.rows[id].status.Queued?
  }

  function MarkCommandRunning(t: Table, id: int, worker: string, now: int, leaseUntil: int): Table {
    if id !in t.rows then t
    else t.(rows := t.rows[id := t.rows[id].(status := Running, worker := worker,
                                             startedAt := Some(now), leaseUntil := Some(leaseUntil))])
  }

  /** CompleteCommand and FailCommand: whatever the row's status, by id alone. */
  function EndCommand(t: Table, id: int, status: Status, now: int): Table {
    if id !in t.rows then t
    else t.(rows := t.rows[id := t.rows[id].(status := status, endedAt := Some(now))])
  }

  function RefreshLease(t: Table, id: int, leaseUntil: int): Table {
    if id !in t.rows || !t.rows[id].status.Running? then t
    else t.(rows := t.rows[id := t.rows[id].(leaseUntil := Some(leaseUntil))])
  }

  /** `lease_until < now` is not true of a NULL lease. */
  predicate Expired(r: Row, now: int) {
    r.status.Running? && r.leaseUntil.Some? && r.leaseUntil.value < now
  }

  function Requeue(r: Row): Row {
    r.(status := Queued, worker := "", startedAt := None, leaseUntil := None)
  }

  function SweepExpiredLeases(t: Table, now: int): Table {
    t.(rows := map id | id in t.rows :: if Expired(t.rows[id], now) then Requeue(t.rows[id]) else t.rows[id])
  }

  predicate OldAndEnded(r: Row, olderThan: int) {
    !Active(r.status) && r.endedAt.Some? && r.endedAt.value < olderThan
  }

  function DeleteOldCompleted(t: Table, olderThan: int): Table {
    t.(rows := map id | id in t.rows && !OldAndEnded(t.rows[id], olderThan) :: t.rows[id])
  }

  /** FindDuplicate finds a row exactly when this holds. */
  ghost predicate HasActive(t: Table, dedupKey: string) {
    exists id :: id in t.rows && t.rows[id].dedupKey == dedupKey && Active(t.rows[id].status)
  }

  // ----- what each statement does to the rows, column by column -----

  /** At most row `id` differs, and it is in both tables or in neither. */
  ghost predicate OnlyRow(t: Table, u: Table, id: int) {
    && u.nextId == t.nextId && u.rows.Keys == t.rows.Keys
    && forall o :: o in t.rows && o != id ==> u.rows[o] == t.rows[o]
  }

  /** What a row was enqueued with, which no later statement changes. */
  ghost predicate SameOrigin(r: Row, q: Row) {
    q.name == r.name && q.priority == r.priority && q.dedupKey == r.dedupKey && q.queuedAt == r.queuedAt
  }

  /** `r` is a command as it was enqueued, untouched. */
  ghost predicate IsNew(r: Row, name: string, priority: int, key: string, second: int) {
    && r.name == name && r.priority == priority && r.dedupKey == key && r.queuedAt == second
    && r.status == Queued && r.worker == "" && r.leaseUntil == None && r.startedAt == None && r.endedAt == None
  }

  lemma EnqueueWrites(t: Table, now: int, name: string, priority: int, key: string)
    requires t.nextId !in t.rows
    ensures var u := EnqueueCommand(t, now, name, priority, key);
      && u.nextId == t.nextId + 1 && u.rows.Keys == t.rows.Keys + {t.nextId}
      && IsNew(u.rows[t.nextId], name, priority, key, now)
      && forall o :: o in t.rows ==> u.rows[o] == t.rows[o]
  {
  }

  /** `r` is running under this worker since `now`, with a lease until `until`. */
  ghost predicate IsHeld(r: Row, worker: string, now: int, until: int) {
    r.status == Running && r.worker == worker && r.startedAt == Some(now) && r.leaseUntil == Some(until)
  }

  lemma MarkWrites(t: Table, id: int, worker: string, now: int, leaseUntil: int)
    ensures var u := MarkCommandRunning(t, id, worker, now, leaseUntil);
      && OnlyRow(t, u, id)
      && (id in t.rows ==>
            && SameOrigin(t.rows[id], u.rows[id]) && u.rows[id].endedAt == t.rows[id].endedAt
            && IsHeld(u.rows[id], worker, now, leaseUntil))
  {
  }

  /** A written end: the status asked for, the time, and nothing else. */
  ghost predicate IsEndOf(r: Row, q: Row, status: Status, now: int) {
    && SameOrigin(r, q) && q.worker == r.worker && q.startedAt == r.startedAt && q.leaseUntil == r.leaseUntil
    && q.status == status && q.endedAt == Some(now)
  }

  lemma EndWrites(t: Table, id: int, status: Status, now: int)
    ensures var u := EndCommand(t, id, status, now);
      OnlyRow(t, u, id) && (id in t.rows ==> IsEndOf(t.rows[id], u.rows[id], status, now))
  {
  }

  lemma RefreshWrites(t: Table, id: int, leaseUntil: int)
    ensures var u := RefreshLease(t, id, leaseUntil);
      && OnlyRow(t, u, id)
      && (id in t.rows ==>
            && SameOrigin(t.rows[id], u.rows[id]) && u.rows[id].status == t.rows[id].status
            && u.rows[id].worker == t.rows[id].worker && u.rows[id].startedAt == t.rows[id].startedAt
            && u.rows[id].endedAt == t.rows[id].endedAt
            && u.rows[id].leaseUntil == if t.rows[id].status == Running then Some(leaseUntil) else t.rows[id].leaseUntil)
  {
  }

  /** A row that the sweep has put back is as it was enqueued; which rows those are is a
      matter of status and lease alone. */
  lemma SweepWrites(t: Table, now: int, id: int)
    requires id in t.rows
    ensures var u, r := SweepExpiredLeases(t, now), t.rows[id];
      && u.nextId == t.nextId && u.rows.Keys == t.rows.Keys
      && if r.status == Running && r.leaseUntil != None && r.leaseUntil.value < now
         then SameOrigin(r, u.rows[id]) && u.rows[id].status == Queued && u.rows[id].worker == ""
              && u.rows[id].startedAt == None && u.rows[id].leaseUntil == None && u.rows[id].endedAt == r.endedAt
         else u.rows[id] == r
  {
  }

  ghost predicate EndedBefore(r: Row, second: int) {
    (r.status == Completed || r.status == Failed) && r.endedAt != None && r.endedAt.value < second
  }

  /** Exactly the rows that ended before the given second go. */
  lemma DeleteRemovesExactly(t: Table, olderThan: int, id: int)
    requires id in t.rows
    ensures var u := DeleteOldCompleted(t, olderThan);
      && u.nextId == t.nextId && u.rows.Keys <= t.rows.Keys
      && (id in u.rows <==> !EndedBefore(t.rows[id], olderThan))
      && (id in u.rows ==> u.rows[id] == t.rows[id])
  {
  }

  /** Of two commands enqueued into an empty queue the one with the lower priority number
      is next, whichever came first; at equal numbers the one from the earlier second. */
  lemma NextOfTwo(a: string, b: string, p: int, q: int, k: string, l: string, now: int, later: int, id: int)
    requires now <= later
    requires var t := EnqueueCommand(EnqueueCommand(EMPTY_TABLE, now, a, p, k), later, b, q, l);
      IsNextQueued(t, id)
    ensures p < q || (p == q && now < later) ==> id == 1
    ensures q < p ==> id == 2
  {
    var one := EnqueueCommand(EMPTY_TABLE, now, a, p, k);
    EnqueueWrites(EMPTY_TABLE, now, a, p, k);
    EnqueueWrites(one, later, b, q, l);
    var t := EnqueueCommand(one, later, b, q, l);
    assert 1 in t.rows && 2 in t.rows;
  }

  // ----- what any statement may do to a row -----

  /** From one table to the next: no id comes back, no row vanishes unless it had
      ended, and an ended row never becomes active again. */
  ghost predicate KeepsCommands(t: Table, u: Table) {
    && t.nextId <= u.nextId
    && (forall id :: id in t.rows ==> id in u.rows || !Active(t.rows[id].status))
    && (forall id :: id in t.rows && id in u.rows && !Active(t.rows[id].status) ==> !Active(u.rows[id].status))
    && (forall id :: id in u.rows && id < t.nextId ==> id in t.rows)
    && (forall id :: id in u.rows && id in t.rows ==>
          u.rows[id].dedupKey == t.rows[id].dedupKey && u.rows[id].name == t.rows[id].name)
  }

  lemma EnqueueKeepsCommands(t: Table, now: int, name: string, priority: int, key: string)
    requires ValidTable(t)
    ensures var u := EnqueueCommand(t, now, name, priority, key); ValidTable(u) && KeepsCommands(t, u)
  {
  }

  /** Marking is only ever done to a queued row. */
  lemma MarkKeepsCommands(t: Table, id: int, worker: string, now: int, leaseUntil: int)
    requires ValidTable(t) && (id in t.rows ==> t.rows[id].status.Queued?)
    ensures var u := MarkCommandRunning(t, id, worker, now, leaseUntil); ValidTable(u) && KeepsCommands(t, u)
  {
  }

  lemma EndKeepsCommands(t: Table, id: int, status: Status, now: int)
    requires ValidTable(t) && !Active(status)
    ensures var u := EndCommand(t, id, status, now); ValidTable(u) && KeepsCommands(t, u)
  {
  }

  lemma RefreshKeepsCommands(t: Table, id: int, leaseUntil: int)
    requires ValidTable(t)
    ensures var u := RefreshLease(t, id, leaseUntil); ValidTable(u) && KeepsCommands(t, u)
  {
  }

  lemma SweepKeepsCommands(t: Table, now: int)
    requires ValidTable(t)
    ensures var u := SweepExpiredLeases(t, now); ValidTable(u) && KeepsCommands(t, u)
  {
  }

  lemma DeleteKeepsCommands(t: Table, olderThan: int)
    requires ValidTable(t)
    ensures var u := DeleteOldCompleted(t, olderThan); ValidTable(u) && KeepsCommands(t, u)
  {
  }

  ghost predicate Linked(ts: seq<Table>, i: nat)
    requires i + 1 < |ts|
  {
    KeepsCommands(ts[i], ts[i + 1])
  }

  ghost predicate EachKeepsCommands(ts: seq<Table>) {
    forall i: nat :: i + 1 < |ts| ==> Linked(ts, i)
  }

  predicate IsQueued(t: Table, id: int) {
    id in t.rows && t.rows[id].status.Queued?
  }

  predicate IsRunning(t: Table, id: int) {
    id in t.rows && t.rows[id].status.Running?
  }

  predicate IsActive(t: Table, id: int) {
    id in t.rows && Active(t.rows[id].status)
  }

  predicate IsEnded(t: Table, id: int) {
    id in t.rows && !Active(t.rows[id].status)
  }

  /** No command is lost: an active command is still active later, or it ended in
      between; an ended one never becomes active again; one that is gone stays gone. */
  lemma {:induction false} CommandsAreKept(ts: seq<Table>, i: nat, j: nat, id: int)
    requires EachKeepsCommands(ts) && i <= j < |ts| && id < ts[i].nextId
    ensures id < ts[j].nextId
    ensures IsActive(ts[i], id) ==>
              IsActive(ts[j], id) || exists k :: i < k <= j && IsEnded(ts[k], id)
    ensures IsEnded(ts[i], id) ==> IsEnded(ts[j], id) || id !in ts[j].rows
    ensures id !in ts[i].rows ==> id !in ts[j].rows
    decreases j - i
  {
    if i < j {
      CommandsAreKept(ts, i, j - 1, id);
      assert Linked(ts, j - 1);
    }
  }
}

/** The queue object over the table: each operation is one Write callback, so here one
    method that runs the callback's statements in order. */
module CommandQueue {
  import Collections
  import opened CommandTable
  import opened Options

  /** The statement of a claim that returns an error, if any. */
  datatype Fault = NoFault | SelectFails | MarkFails | LoadFails

  datatype ClaimResult = Nothing | Took(id: int, row: Row) | Erred

  /** `u` is `t` with the head of the queue marked as running. */
  ghost predicate Takes(t: Table, u: Table, id: int, worker: string, leaseDuration: nat, now: nat) {
    IsNextQueued(t, id) && u == MarkCommandRunning(t, id, worker, SecondOf(now), SecondOf(now + leaseDuration))
  }

  class SqliteQueue {
    var table: Table

    constructor ()
      ensures table == EMPTY_TABLE
    {
      table := EMPTY_TABLE;
    }

    /** SELECT id ... WHERE status = 'queued' ORDER BY priority, queued_at LIMIT 1. */
    method SelectNextQueued() returns (next: Option<int>)
      ensures next.None? ==> NothingQueued(table)
      ensures next.Some? ==> IsNextQueued(table, next.value)
    {
      next := None;
      var rest: set<int> := table.rows.Keys;
      while rest != {}
        invariant rest <= table.rows.Keys
        invariant next.None? ==>
          forall id :: id in table.rows && id !in rest ==> !table.rows[id].status.Queued?
        invariant next.Some? ==>
          && next.value in table.rows && table.rows[next.value].status.Queued?
          && forall id :: id in table.rows && id !in rest && table.rows[id].status.Queued? ==>
               ClaimsBefore(table.rows[next.value], table.rows[id])
        decreases |rest|
      {
        var id := Collections.AnyOf(rest);
        rest := rest - {id};
        if table.rows[id].status.Queued?
           && (next.None? || !ClaimsBefore(table.rows[next.value], table.rows[id])) {
          next := Some(id);
        }
      }
    }

    /** Takes the highest-priority queued command, or returns nothing and changes nothing
        exactly when none is queued.  A select or a mark that fails changes nothing; a
        load that fails leaves the command marked. */
    method Claim(worker: string, leaseDuration: nat, now: nat, fault: Fault) returns (claimed: ClaimResult)
      modifies this
      ensures claimed.Nothing? <==> NothingQueued(old(table)) && !fault.SelectFails?
      ensures claimed.Erred? <==> fault.SelectFails? || (!NothingQueued(old(table)) && !fault.NoFault?)
      ensures claimed.Nothing? || (claimed.Erred? && !fault.LoadFails?) ==> table == old(table)
      ensures claimed.Took? ==>
        && Takes(old(table), table, claimed.id, worker, leaseDuration, now)
        && claimed.id in table.rows && claimed.row == table.rows[claimed.id]
        && IsHeld(claimed.row, worker, SecondOf(now), SecondOf(now + leaseDuration))
        && OnlyRow(old(table), table, claimed.id) && SameOrigin(old(table).rows[claimed.id], claimed.row)
      ensures claimed.Erred? && fault.LoadFails? ==>
        exists id :: Takes(old(table), table, id, worker, leaseDuration, now)
    {
      if fault.SelectFails? {
        return Erred;
      }
      var next := SelectNextQueued();
      match next {
        case None => claimed := Nothing;
        case Some(id) =>
          if fault.MarkFails? {
            return Erred;
          }
          ghost var before := table;
          table := MarkCommandRunning(table, id, worker, SecondOf(now), SecondOf(now + leaseDuration));
          assert Takes(before, table, id, worker, leaseDuration, now);
          if fault.LoadFails? {
            return Erred;
          }
          claimed := Took(id, table.rows[id]);
      }
    }

    method Enqueue(name: string, priority: int, dedupKey: string, now: nat) returns (id: int)
      requires ValidTable(table)
      modifies this
      ensures ValidTable(table)
      ensures id !in old(table).rows && table.rows.Keys == old(table).rows.Keys + {id}
      ensures IsNew(table.rows[id], name, priority, dedupKey, SecondOf(now))
      ensures forall o :: o in old(table).rows ==> table.rows[o] == old(table).rows[o]
      ensures table == EnqueueCommand(old(table), SecondOf(now), name, priority, dedupKey)
      ensures KeepsCommands(old(table), table)
    {
      id := table.nextId;
      table := EnqueueCommand(table, SecondOf(now), name, priority, dedupKey);
    }
  }
}
