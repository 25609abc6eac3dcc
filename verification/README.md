# A verified model of sonarr2's stateful core

sonarr2 is a Go rewrite of Sonarr. This Dafny 4.11 project models the parts of it where
state, time and interleaving make the behaviour hard to see from the code, and proves what
those parts promise.

| file | models |
|---|---|
| `SingleWriter.dfy` | the SQLite pool's one writer goroutine, its callers and `Close`, interleaved statement by statement |
| `CommandTable.dfy` | the commands table, its SQL statements, and the queue object over it |
| `QueueHistory.dfy` | the queue's operations as callbacks of the writer, and every history of them |
| `WorkerPool.dfy`, `WorkerTiming.dfy` | workers, leases, refreshes, sweeps, crashes and the clock |
| `CommandLife.dfy` | what a command's row says about the run that led to it |
| `Scheduler.dfy`, `SchedulerProgress.dfy` | the scheduler loop beside the pool: what it never does, and what it does in time |
| `Catalog.dfy`, `CatalogCounts.dfy`, `LibraryStore.dfy` | the library's stores, the statistics cache fed by events and what it says, monitor modes, housekeeping |
| `EventBus.dfy`, `StableSort.dfy` | the event bus and the stable sort it and the ranking use |
| `DecisionEngine.dfy`, `RssSync.dfy` | scoring, evaluation, ranking and the RSS run |
| `Migrate.dfy` | the migration from an existing Sonarr database |
| `Debouncer.dfy` | the file watcher's debouncer with its timer race |
| `RateLimiter.dfy` | the per-address limiter table |
| `Strings.dfy`, `ICalendar.dfy`, `Organizer.dfy`, `Titles.dfy` | Go's string primitives, calendar text, file names, title canonicalisation |

Concurrent parts are transition systems: a state, the actions that may happen in any order,
and theorems about every state of every run. Sequential code that works by updating
something is a class or a method with a loop, proved against a specification function or
relation about which the theorems are then proved.

How the environment enters the model:

- Clock readings are parameters or part of the state, and the clock never goes back. Instants
  are nanoseconds; the command
  and task tables hold seconds, because both write times with a one-second text layout
  (`internal/commands/queue_sqlite.go:254-255`). The order of that text is the order of the
  seconds, and is modelled as such.
- The SQL statements are those in `internal/db/queries/sqlite`. `CompleteCommand` and
  `FailCommand` match on the id alone, whatever the row's status.
- Whatever may fail is either an action of its own (a lost reply, a failed refresh, a crash)
  or a parameter (the rows whose create fails in the migration).
- Regular expressions (title parsing, custom format matching) and the decision specs are
  arbitrary deterministic functions.
- Where Go ranges over a map, the model takes the keys in any order.

Where a property turned out to hold only sometimes, the exact condition is proved:

- No command runs on two workers **if and only if** the delay before dispatch, half the
  lease and the delay of a refresh together do not exceed the lease
  (`WorkerTiming.ExclusiveIffRefreshBeatsExpiry`). Truncating timestamps to seconds costs
  nothing, because the sweep truncates its own clock too. Under the same condition, and only
  then, every end of a command is written by its recorded holder, although the statements
  match on the id alone (`WorkerTiming.HoldersEndIffRefreshBeatsExpiry`).
- Updating an episode keeps the cache in agreement **if and only if** the caller passes the
  stored series or leaves the monitored flag alone (`Catalog.UpdateAgreesIff`).
- A cached count is the number of rows **if and only if** that number fits 32 bits
  (`CatalogCounts.CountsAreExactIff`).
- The winner that is looked up again by title and score is Rank's choice **if and only if**
  the first candidate of the top-ranked title is a largest one of that title
  (`RssSync.WinnerIsTopIff`; a group where it is not: `RssSync.SizeTiebreakIsLost`).
- The engine accepts exactly what every spec accepts **if and only if**, when some spec
  rejects, one of them gives a reason (`DecisionEngine.AcceptsIffAllAccept`).
- A fire of the debouncer is premature **if and only if** a trigger came between a timer's
  expiry and its callback's fire (`Debouncer.PrematureIffRace`).
- A folded calendar line exceeds 75 octets **if and only if** the line has 150 or more, and
  a feed survives unfolding **if and only if** no line is empty (`ICalendar.TooLongIff`,
  `ICalendar.FoldRoundTripIff`).
- The limiter table holds exactly the most recently seen addresses in every state of a run
  **if and only if** no request has to evict the empty address
  (`RateLimiter.LruIffNoEmptyEviction`), one that `internal/api/middleware.go:109-128` may
  return. Requests that have to exist for every limit (`RateLimiter.EmptyEvictionIsReachable`).
- The seven token passes are one simultaneous substitution in every format, the other values
  being brace-free, **if and only if** no later token starts in the value
  (`Organizer.SimultaneousIff`).
- `lastSeason` selects the highest season exactly when some season is not negative
  (`LibraryStore.LastSeasonIff`).

Where comments and code disagree, the model follows the code:

- `internal/library/monitor_mode.go:18-28` documents `lastSeason` as the highest season
  number; the search for it starts at zero.
- `internal/commands/worker.go:108` says that a command failed at shutdown can be requeued
  by the sweep; a failed row never is. If that write does not succeed, the row stays running
  and a sweep does requeue it.
- `internal/api/v3/calendar_feed.go:179-180` promises folding at 75 octets; the space that
  leads a continuation is not counted.
- `internal/decisionengine/engine.go:22-25` promises rejection if any spec rejects; a spec that
  rejects without a reason is not counted.
- `internal/fswatcher/debouncer.go:8-11` promises one fire after the last trigger of a
  burst; a trigger that meets a running callback breaks that.

## Model

| member | source | states |
|---|---|---|
| `SingleWriter.WritesAreSerial` | internal/db/sqlite.go:88-103 | in every state between callbacks the database is what the accepted callbacks give when each runs whole, exactly once, in the order of acceptance |
| `SingleWriter.RepliesComeFromSerialOrder` | internal/db/sqlite.go:254-265 | a caller's reply is what its own callback computes when run alone at its place in that order |
| `SingleWriter.UnacceptedHasNoEffect` | internal/db/sqlite.go:88-103 | a Write refused or withdrawn before acceptance never runs, in any state of the run |
| `SingleWriter.CloseStrandsNothing` | internal/db/sqlite.go:70-83 | when Close has returned every accepted request has finished with its reply in its channel, and nothing is accepted or executed later |
| `SingleWriter.NoCallIsStuck` | internal/db/sqlite.go:88-103 | while a call has not returned, the writer or its caller can move, before, during and after Close |
| `SingleWriter.CallerCanLeave` | internal/db/sqlite.go:88-103 | a caller whose context is done, or that finds the pool closed before acceptance, can return at once, the database and the log untouched |
| `SingleWriter.AbandonedWriteMayTakeEffect` | internal/db/sqlite.go:88-103 | a run in which Write returns the context's error although its callback changed the database |
| `SingleWriter.RunKeepsInv` | internal/db/sqlite.go:254-265 | the invariant behind the above: serial database, each request accepted once, replies serial, orderly shutdown |
| `SingleWriter.PhasesOnlyAdvance` | internal/db/sqlite.go:88-103 | accepted requests and the log only grow, and a call that has returned, with a reply or any error, stays returned as it was |
| `CommandTable.EnqueueKeepsCommands` | internal/db/queries/sqlite/commands.sql:1-4 | enqueueing uses a new id and leaves every command in place |
| `CommandTable.EnqueueWrites` | internal/db/queries/sqlite/commands.sql:1-4 | the new row is queued and blank with the name, priority, key and second it was given; every other row is as it was |
| `CommandTable.MarkKeepsCommands` | internal/db/queries/sqlite/commands.sql:12-18 | marking a queued command loses none and revives none |
| `CommandTable.MarkWrites` | internal/db/queries/sqlite/commands.sql:12-18 | the row gets the worker, the start and the lease it was given and keeps what it was enqueued with; no other row changes |
| `CommandTable.EndKeepsCommands` | internal/db/queries/sqlite/commands.sql:20-36 | completing or failing by id alone, whatever the row's status, loses no command and revives no ended one |
| `CommandTable.EndWrites` | internal/db/queries/sqlite/commands.sql:20-36 | the row gets the given status and the second as its end and keeps every other column; no other row changes |
| `CommandTable.RefreshKeepsCommands` | internal/db/queries/sqlite/commands.sql:41-42 | refreshing a lease loses and revives no command |
| `CommandTable.RefreshWrites` | internal/db/queries/sqlite/commands.sql:41-42 | only the lease changes, and only of a running row |
| `CommandTable.SweepKeepsCommands` | internal/db/queries/sqlite/commands.sql:44-47 | sweeping loses no command and revives no ended one |
| `CommandTable.SweepWrites` | internal/db/queries/sqlite/commands.sql:44-47 | exactly the running rows whose lease lies before now go back to the queue, blank and as enqueued |
| `CommandTable.DeleteKeepsCommands` | internal/db/queries/sqlite/commands.sql:54-56 | only ended commands are deleted and their ids do not come back |
| `CommandTable.DeleteRemovesExactly` | internal/db/queries/sqlite/commands.sql:54-56 | exactly the rows that ended before the given second go, the others are as they were |
| `CommandTable.CommandsAreKept` | internal/commands/queue.go:9-28 | over any such sequence an active command stays active or ends, an ended one never becomes active, a deleted one stays away |
| `CommandQueue.SqliteQueue.SelectNextQueued` | internal/db/queries/sqlite/commands.sql:6-10 | the first queued row by priority, then queue time; nothing exactly when none is queued |
| `CommandTable.NextOfTwo` | internal/commands/command.go:13-18 | of two commands enqueued into an empty queue the one with the lower priority number is next, whichever came first; at equal numbers the one from the earlier second |
| `CommandQueue.SqliteQueue.Claim` | internal/commands/queue_sqlite.go:48-89 | takes a highest-priority queued command and returns its row, held by the worker from now to the end of the lease and otherwise as enqueued, no other row changing; nothing exactly when none is queued; a failing select or mark changes nothing, a failing load leaves the command marked |
| `CommandQueue.SqliteQueue.Enqueue` | internal/commands/queue_sqlite.go:25-46 | a new queued row with the name, priority, key and second given, under an id never used before; the other rows as they were |
| `QueueHistory.ClaimIsAtomic` | internal/commands/queue_sqlite.go:48-89 | select, mark and load, with failures anywhere, amount to one indivisible claim of a head of the queue |
| `QueueHistory.ClaimHasWritten` | internal/commands/queue_sqlite.go:48-89 | a claim that returns a command has put it in the claimant's hands for the lease asked for, from one clock reading, and has touched no other row |
| `QueueHistory.DoneHasWritten` | internal/commands/queue_sqlite.go:25-177 | a queue operation whose Write returned without an error has written what it was asked to write, column by column, at the second of one of its clock readings, and nothing else |
| `QueueHistory.OpEffect` | internal/commands/queue_sqlite.go:25-177 | every operation keeps the commands, and only a sweep puts a running one back |
| `QueueHistory.EndedByOp` | internal/commands/queue_sqlite.go:91-121 | in every history a completed command was completed by a Complete of its id, and a failed one failed by a Fail of it |
| `QueueHistory.RequeuedBySweep` | internal/commands/queue_sqlite.go:138-150 | a command running at one time and queued at a later one was requeued by a sweep in between |
| `QueueHistory.ClaimsAreExclusive` | internal/commands/queue_sqlite.go:48-89 | two claims of a history that return the same command have a sweep between them that requeued it |
| `QueueHistory.RunIsHistory` | internal/db/sqlite.go:254-265 | the writer's log in every run is such a history |
| `QueueHistory.ConcurrentClaimsAreExclusive` | internal/commands/queue_sqlite.go:48-89 | so with any number of concurrent claimers no two Claims return the same queued occurrence |
| `WorkerPool.StepKeepsCommands` | internal/commands/worker.go:71-211 | each claim, dispatch, outcome, late or failed refresh, crash and shutdown keeps the commands |
| `WorkerPool.RunKeepsCommands` | internal/commands/worker.go:71-116 | no command is lost over any run, and none comes back once ended |
| `WorkerPool.OrphanStepsToQueue` | internal/commands/queue_sqlite.go:138-150 | a step leaves an orphaned running row alone unless it is a sweep after its lease, which requeues it with worker and lease cleared |
| `WorkerPool.OrphanIsRequeued` | internal/commands/worker.go:71-116 | over any run the first sweep after an orphan's lease has expired requeues it |
| `WorkerTiming.AbandonedIsOrphaned` | internal/commands/worker.go:71-116 | a crash, a shutdown or an end that could not be written, a claim that erred after marking, or the last refresh goroutine's end leaves a still running command orphaned |
| `WorkerTiming.AbandonedIsRequeued` | internal/scheduler/scheduler.go:80-94 | so over any timely run the first sweep after the lease of a command so abandoned puts it back in the queue, and nothing touches it before |
| `WorkerTiming.SweepKeepsHolders` | internal/commands/queue_sqlite.go:138-150 | a sweep takes no row from a worker that is on time |
| `WorkerTiming.RefreshCoversNextTick` | internal/commands/worker.go:140-161 | a refresh leaves a lease that outlasts the next tick and its delay, despite truncation |
| `WorkerTiming.RunKeepsInv` | internal/commands/worker.go:119-211 | in a timely run every busy worker holds its row with a lease reaching past its next deadline, and refreshes that outlive their dispatch, written or started late, reach no one else's row |
| `WorkerTiming.ExecutionIsExclusive` | internal/commands/worker.go:119-178 | mutual exclusion: an executing worker is the recorded holder of a running row with an unexpired lease, and no command runs on two workers |
| `WorkerTiming.OverlapIsReachable` | internal/commands/worker.go:140-161 | when the delays exceed the lease, a timely run with two workers executing one command |
| `WorkerTiming.ExclusiveIffRefreshBeatsExpiry` | internal/commands/worker.go:119-178 | the two together: exclusion in every reachable state exactly when delay before dispatch, half the lease and refresh delay fit in the lease |
| `WorkerTiming.EndIsByHolder` | internal/commands/worker.go:178-211 | then every end of an active command is written by its recorded holder, although Complete and Fail match the id alone |
| `WorkerTiming.StaleEndIsReachable` | internal/commands/worker.go:178-211 | otherwise a run where a worker that lost its lease ends the command another one executes |
| `WorkerTiming.HoldersEndIffRefreshBeatsExpiry` | internal/commands/worker.go:119-211 | the two together, under the same exact condition |
| `CommandLife.WasEnqueued` | internal/commands/queue_sqlite.go:25-46 | in every state of every run a row carries the name, priority, key and second of the one action that enqueued it |
| `CommandLife.ClaimsInOrder` | internal/commands/queue_sqlite.go:48-89 | what is claimed was enqueued with the lowest priority number of all that is queued, and among those in the earliest second |
| `CommandLife.RowsAreShaped` | internal/db/queries/sqlite/commands.sql:1-47 | a queued row is blank, a running one has a start and a lease, an ended one an end |
| `CommandLife.WasClaimed` | internal/commands/worker.go:71-116 | a running row names the worker that claimed it and the second of that claim |
| `CommandLife.WorkersGoOn` | internal/commands/worker.go:71-211 | no worker is stuck: an idle one can claim whenever something is queued, any other can take its next step, whatever its handler returns |
| `CommandLife.TicksEveryHalfLease` | internal/commands/worker.go:140-161 | the next refresh of a dispatch is due half a lease after the one before, the first half a lease after the dispatch; none is skipped or added |
| `CommandLife.RefreshOutlivesDispatch` | internal/commands/worker.go:140-181 | a refresh being written when its dispatch returns is still written or fails afterwards, and nothing else of the dispatch remains unless its next tick was due |
| `CommandLife.StrayGoesOnIfDue` | internal/commands/worker.go:140-161 | a refresh goroutine that outlived its dispatch goes on only for the next tick, already due, half a lease later |
| `CommandLife.StraysKeepRhythm` | internal/commands/worker.go:140-161 | so refreshes keep the rhythm of their dispatch even after it has returned |
| `CommandLife.RunKeepsLeasesBounded` | internal/commands/worker.go:140-161 | no lease ever reaches further than one lease duration from now |
| `CommandLife.AbandonedReturnsWithinLease` | internal/scheduler/scheduler.go:80-94 | so an abandoned command is queued again, as enqueued, at the latest by the first sweep more than a lease after it was abandoned |
| `CommandLife.OrphanReturnsBySweep` | internal/commands/queue_sqlite.go:138-150 | over any run, timely or not, an orphan is queued again at the latest by the first sweep after its lease |
| `CommandLife.EndingWrites` | internal/commands/worker.go:178-211 | an end that is written sets its row to the handler's outcome, or to failed without a handler or at shutdown, at that second, and changes no other row or column |
| `CommandLife.UnwrittenEndChangesNothing` | internal/commands/worker.go:178-211 | an end that is not written changes no row |
| `CommandLife.EndWasWritten` | internal/commands/worker.go:183-209 | over every run an ended row has the status and the second of the action that ended it, untouched since |
| `CommandLife.CompletedMeansHandled` | internal/commands/worker.go:71-211 | a completed command was enqueued, claimed and dispatched by one worker, whose handler returned without an error, and ended by that worker, in this order |
| `CommandLife.GoneWasOld` | internal/db/queries/sqlite/commands.sql:54-56 | a row goes in a step exactly when it ended before the second a deletion was given |
| `Scheduler.OneActivePerTask` | internal/scheduler/scheduler.go:98-122 | at most one command per task type is queued or running in any state, although check and enqueue are separate steps |
| `Scheduler.RunKeepsDedup` | internal/scheduler/scheduler.go:80-94 | the invariant behind it, kept by every step of the scheduler, the workers and the sweeps |
| `Scheduler.EnqueuesAreSpaced` | internal/scheduler/task_sqlite.go:37-50 | after a successful UpdateExecution the next enqueue of the type comes more than its interval less one second later, so missed intervals are not made up |
| `Scheduler.RunKeepsSpacing` | internal/scheduler/scheduler.go:98-122 | the invariant behind it, over truncated timestamps, restarts and rescheduling |
| `SchedulerProgress.LoopGoesOn` | internal/scheduler/scheduler.go:80-122 | the loop is never stuck: in every phase it can list, check, enqueue, read the clock, reschedule or end the tick with a sweep |
| `SchedulerProgress.RunOfPool` | internal/scheduler/scheduler.go:80-122 | every run of the scheduler is a run of the pool, so what holds of every command there holds here |
| `SchedulerProgress.OrphanReturnsByTick` | internal/scheduler/scheduler.go:80-94 | an orphaned command is queued again at the latest with the first tick that ends with a sweep after its lease |
| `SchedulerProgress.NextIsOneIntervalOn` | internal/scheduler/scheduler.go:98-122 | over every run a written next execution is exactly the second one interval after the clock reading that followed the enqueue, until it is rescheduled |
| `SchedulerProgress.ListedAfterInterval` | internal/scheduler/task_sqlite.go:24-35 | so every tick from that instant on lists it, and none a second or more before it does |
| `SchedulerProgress.NextEnqueueIsIntervalOn` | internal/scheduler/scheduler.go:98-122 | and it is not enqueued again until less than a second before that instant, more than its interval less a second after the enqueue before |
| `SchedulerProgress.UpdateIsLogged` | internal/scheduler/task_sqlite.go:37-50 | each successful UpdateExecution is the one of the enqueue it follows, as the spacing bound takes it |
| `SchedulerProgress.CheckDecides` | internal/scheduler/scheduler.go:98-110 | the duplicate check passes over exactly the tasks with a queued or running command of their key |
| `SchedulerProgress.EnqueueIsEnabled` | internal/scheduler/scheduler.go:112-116 | after it the enqueue is always possible |
| `SchedulerProgress.EnqueueWritesTask` | internal/scheduler/scheduler.go:112-116 | a scheduled enqueue adds one command named and keyed by the task's type, at normal priority, queued now |
| `SchedulerProgress.DueTasksGetTheirCommand` | internal/scheduler/scheduler.go:80-94 | a tick that ends without a failed lookup or enqueue leaves no due task without an active command at some moment of it |
| `Catalog.OthersUntouched` | internal/library/episodes_sqlite.go:24-177 | an operation on one series leaves other series' rows and cached rows unchanged |
| `Catalog.SubjectAgrees` | internal/app/app.go:209-229 | after a write the subscribers bring the event's series back into agreement |
| `Catalog.ApplyKeepsAgreement` | internal/library/stats_sqlite.go:44-63 | every operation whose caller passes the stored series keeps the whole cache in agreement |
| `Catalog.CacheAgrees` | internal/library/stats.go:38-54 | after any sequence of series, episode and file operations each cached row is the derived one and a missing row means no episodes and no files |
| `CatalogCounts.RowSaysWhatIsThere` | internal/library/stats.go:38-54 | in agreement the row a reader gets has the numbers of episodes, of monitored ones and of files and the sum of the sizes, each in its place |
| `CatalogCounts.CountsAreExactIff` | internal/library/stats.go:47-53 | exactly when such a count is right: it fits 32 bits |
| `CatalogCounts.EmptySeriesDerivesZeros` | internal/library/stats.go:38-54 | a series without episodes and files derives zeros |
| `CatalogCounts.CreateEpisodeCounts` | internal/library/episodes_sqlite.go:24-52 | a created episode raises the cached episodes by one and the monitored ones by its flag; files and size stay |
| `CatalogCounts.DeleteEpisodeCounts` | internal/library/episodes_sqlite.go:156-177 | deleting it is the reverse |
| `CatalogCounts.SetMonitoredCounts` | internal/library/episodes_sqlite.go:130-154 | setting a flag moves the cached monitored count alone, by the difference |
| `CatalogCounts.UpdateEpisodeCounts` | internal/library/episodes_sqlite.go:108-128 | so does an update that passes the stored series |
| `CatalogCounts.CreateFileCounts` | internal/library/episodefiles_sqlite.go:23-50 | a created file raises the cached files by one and the size by its own; episodes and monitored stay |
| `CatalogCounts.DeleteFileCounts` | internal/library/episodefiles_sqlite.go:77-97 | deleting it is the reverse |
| `CatalogCounts.CreatedSeriesIsEmpty` | internal/library/series_sqlite.go:42-79 | a created series is there as given, under a new id, with no episodes, files or counts |
| `CatalogCounts.DeletedSeriesIsGone` | internal/library/series_sqlite.go:160-172 | a deleted one has no episode, file or cached row left |
| `CatalogCounts.ReadBackSeries` | internal/library/series_sqlite.go:42-172 | created, updated and deleted series read back so, all others as before |
| `CatalogCounts.ReadBackNewEpisode` | internal/library/episodes_sqlite.go:24-52 | a created episode reads back as given, under a new id, all others as before |
| `CatalogCounts.ReadBackEpisode` | internal/library/episodes_sqlite.go:108-177 | an updated episode has the new date, flag and link under its old series, season and number; all others are as before |
| `CatalogCounts.ReadBackNewFile` | internal/library/episodefiles_sqlite.go:23-50 | so does a created file |
| `CatalogCounts.ReadBackDeletedFile` | internal/library/episodefiles_sqlite.go:77-97 | and exactly a deleted one is gone |
| `CatalogCounts.RefusedIff` | internal/library/episodes_sqlite.go:24-177 | a call is refused exactly for a missing row or a broken uniqueness or reference, and with the error that says which |
| `Catalog.UpdateAgreesIff` | internal/library/episodes_sqlite.go:108-128 | exactly when an Update keeps the cache in agreement |
| `Catalog.UpdateElsewhereDisagrees` | internal/library/episodes_sqlite.go:108-128 | four calls after which the cache disagrees |
| `Catalog.CreateFileAdds` | internal/library/episodefiles_sqlite.go:23-50 | a new file adds one file and its size to the derived row |
| `Catalog.DeleteFileSubtracts` | internal/library/episodefiles_sqlite.go:77-97 | deleting a file takes exactly that file and its size away |
| `Catalog.TotalSizeWithout` | internal/library/episodefiles_sqlite.go:99-124 | the size sum does not depend on the order of rows: any file can be taken out of it |
| `LibraryStore.ModeSelects` | internal/library/monitor_mode.go:29-79 | after a mode is applied to a non-empty series exactly the selected episodes are monitored and the cached count is their number |
| `LibraryStore.LastSeasonIff` | internal/library/monitor_mode.go:38-43 | when lastSeason means the highest season |
| `LibraryStore.ModesMean` | internal/library/monitor_mode.go:29-79 | what each mode leaves monitored, in the episode's own columns |
| `LibraryStore.ModeNames` | internal/library/monitor_mode.go:46-67 | exactly which texts name which mode; the empty one means all |
| `LibraryStore.Library.Call` | internal/library/episodes_sqlite.go:24-177 | a store call as write and publication: valid tables, agreement kept, other series untouched |
| `LibraryStore.Library.TopSeason` | internal/library/monitor_mode.go:38-43 | the loop finds the highest season, counted from zero |
| `LibraryStore.Library.ApplyMonitorMode` | internal/library/monitor_mode.go:29-79 | one SetMonitored at a time ends in the mode applied to all, or at the first failing one in the mode applied to those before; an unknown mode changes nothing and errs unless the series is empty |
| `LibraryStore.Library.CleanOrphanEpisodeFiles` | internal/housekeeping/housekeeping.go:95-124 | exactly the file rows without a file on disk are deleted |
| `LibraryStore.Library.RecalculateStatistics` | internal/housekeeping/housekeeping.go:126-138 | every listed series' row, and no other, is recomputed |
| `LibraryStore.RecomputeAllAgrees` | internal/housekeeping/housekeeping.go:126-138 | which restores agreement from any valid database, however stale its cache |
| `LibraryStore.Library.Housekeep` | internal/housekeeping/housekeeping.go:76-81 | so a housekeeping run keeps exactly the file rows whose file is on disk and ends with every cached row derived |
| `StableSort.SortIsStable` | internal/events/events.go:108-116 | the specification sort is an ordered permutation that keeps equal elements in their order |
| `StableSort.StableSortIsUnique` | internal/decisionengine/engine.go:48-61 | a stable sort is unique, so the specification is the only possible result |
| `StableSort.SortAfterAppend` | internal/events/events.go:108-116 | sorting a sorted list with one more element is sorting all the elements |
| `StableSort.SliceStable` | internal/decisionengine/engine.go:48-61 | sorting the array in place gives that result |
| `EventBus.FirstErrorIsEarliest` | internal/events/events.go:58-103 | the error Publish returns is that of the earliest failing handler, none exactly when all succeed |
| `EventBus.OnlyIsPicked` | internal/events/events.go:58-103 | the synchronous, or asynchronous, handlers are picked from the list each once, all of them and in their order |
| `EventBus.Bus.constructor` | internal/events/events.go:47-55 | an empty bus with the given pool size, 16 if it is not positive |
| `EventBus.Bus.Register` | internal/events/events.go:108-116 | a type's handler list is always its registrations stably sorted by order; other types are untouched |
| `EventBus.Bus.HandlersAreStable` | internal/events/events.go:108-116 | in every valid bus, for every type: ordered, a permutation of the registrations, equal orders as registered |
| `EventBus.Bus.HandlersInOrder` | internal/events/events.go:108-116 | that is, each registration as often as it was made, lower orders first, those of one order as registered |
| `EventBus.Bus.Publish` | internal/events/events.go:58-103 | every synchronous handler once in order, failing or not; every asynchronous one once exactly when there was no error; the pool within its bound |
| `EventBus.Bus.Dispatch` | internal/events/events.go:58-103 | an asynchronous handler runs on the pool, or inline only when the pool is full |
| `DecisionEngine.Score` | internal/customformats/scorer.go:12-26 | the weight map and the loop give the sum of the matching formats' weights, the last weight of a format counting |
| `DecisionEngine.WeightIsLast` | internal/customformats/scorer.go:12-17 | a format's weight is the score of the last profile entry for it, zero without one |
| `DecisionEngine.FormatAddsItsWeight` | internal/customformats/scorer.go:19-26 | no formats score zero, and one more, wherever it is listed, adds its weight exactly if it matches |
| `DecisionEngine.Evaluate` | internal/decisionengine/engine.go:26-38 | the rejections are those of all rejecting specs, in order, and decide the verdict |
| `DecisionEngine.ReasonsInOrder` | internal/decisionengine/engine.go:26-38 | one spec gives its rejections if it rejects, and a list of specs those of its parts, in order |
| `DecisionEngine.AcceptsIffNoReasons` | internal/decisionengine/engine.go:26-38 | accepted exactly when every spec that rejects gives no reason |
| `DecisionEngine.AcceptsIffAllAccept` | internal/decisionengine/engine.go:22-38 | exactly when that is the documented rule, accepting what every spec accepts |
| `DecisionEngine.QualityIndex` | internal/decisionengine/engine.go:66-73 | the first position of the quality in the profile, or one past the end |
| `DecisionEngine.BetterIsStrictWeak` | internal/decisionengine/engine.go:48-61 | the three-key comparison is a strict weak order |
| `DecisionEngine.Rank` | internal/decisionengine/engine.go:48-61 | ranking in place is the stable sort by score, quality and size |
| `DecisionEngine.RankedInOrder` | internal/decisionengine/engine.go:48-61 | each release stands before those of lower score, then later quality, then smaller size |
| `RssSync.OffersAreJustified` | internal/rsssync/rsssync.go:160-262 | every candidate is an accepted release of the run for a monitored episode its title names |
| `RssSync.GroupIsExactly` | internal/rsssync/rsssync.go:160-262 | and exactly those: a release is a candidate for an episode if and only if its title names the episode, the first listed one of that season and number is monitored, and every spec lets it pass |
| `RssSync.MatchEpisode` | internal/rsssync/rsssync.go:199-211 | the first listed episode of the season and number, none exactly when there is none |
| `RssSync.ResolveQuality` | internal/rsssync/rsssync.go:308-315 | the first definition with the parsed source and resolution, zero without one |
| `RssSync.QualityIsNamed` | internal/rsssync/rsssync.go:319-326 | the name of the first definition with the id, nothing without one |
| `RssSync.Collect` | internal/rsssync/rsssync.go:160-262 | the grouping loops give each episode its candidates in the order they were met |
| `RssSync.WinnerIsMaximal` | internal/rsssync/rsssync.go:266-301 | the looked-up winner is maximal on score, then quality, and is Rank's first when titles are distinct |
| `RssSync.WinnerIsTopIff` | internal/rsssync/rsssync.go:278-286 | it is Rank's choice exactly when the first candidate of the top-ranked title is a largest of that title |
| `RssSync.SizeTiebreakIsLost` | internal/rsssync/rsssync.go:278-286 | a group of two where it is not |
| `RssSync.GroupTitlesDecide` | internal/rsssync/rsssync.go:160-262 | in a group score and quality depend on the title alone |
| `RssSync.PickWinner` | internal/rsssync/rsssync.go:266-301 | the lookup by title and score always finds a candidate |
| `RssSync.GrabIsBest` | internal/rsssync/rsssync.go:266-301 | a grab is for a justified candidate that none of its group beats on score, then quality |
| `RssSync.Handle` | internal/rsssync/rsssync.go:160-304 | exactly one grab for each episode that some release justifies, none for others, each its group's winner |
| `Migrate.RemapIsFirstMatch` | internal/migrate/migrate.go:181-188 | only the prefix of the earliest applicable remap is replaced |
| `Migrate.RemapLeavesOthers` | internal/migrate/migrate.go:181-188 | a path no remap applies to is unchanged |
| `Migrate.RemapIsRemapped` | internal/migrate/migrate.go:181-188 | the two together, as a relation of path and result |
| `Migrate.AddRowsEmbeds` | internal/migrate/migrate.go:342-525 | migrating a table row by row maps source ids injectively to new rows, each the image of its source row; a row is missing exactly when its create failed or a parent is missing; old rows stay |
| `Migrate.Migrator.MigrateSeries` | internal/migrate/migrate.go:342-378 | the series loop does that, counts the map's size, and changes nothing on a dry run |
| `Migrate.Migrator.MigrateSeasons` | internal/migrate/migrate.go:381-419 | each season row holds the flag last written to it, all others are as before |
| `Migrate.Migrator.MigrateFiles` | internal/migrate/migrate.go:422-464 | the file loop, each file under its series' image |
| `Migrate.Migrator.MigrateEpisodes` | internal/migrate/migrate.go:467-525 | the episode loop, with the file link mapped or dropped |
| `Migrate.Migrator.MigrateHistory` | internal/migrate/migrate.go:638-695 | the history loop; one warning for each entry with a missing parent |
| `Migrate.Migrator.Run` | internal/migrate/migrate.go:103-177 | the whole run is a partial embedding of the source database, counted exactly; a dry run changes nothing and reports the source's sizes |
| `Migrate.SeriesKeepsColumns` | internal/migrate/migrate.go:342-378 | a migrated series keeps id in the television database, title and slug and has its path remapped |
| `Migrate.FileKeepsColumns` | internal/migrate/migrate.go:422-464 | a migrated file keeps season, path and size under its series' image |
| `Migrate.EpisodeKeepsColumns` | internal/migrate/migrate.go:467-525 | a migrated episode keeps season, number and title under its series' image |
| `Migrate.SeasonHoldsLastFlag` | internal/migrate/migrate.go:381-419 | a season row holds the flag of the last source row written to it |
| `Migrate.WarningsAreCounted` | internal/migrate/migrate.go:638-695 | there are as many warnings as entries whose series or episode has no image |
| `Migrate.SharedSeriesIff` | internal/migrate/migrate.go:422-525 | a migrated file and episode share a series exactly when their source rows did |
| `Migrate.LinksAreImages` | internal/migrate/migrate.go:467-525 | an episode links to a migrated file exactly when its source row did, and to nothing else |
| `Migrate.HistoryPointsToImages` | internal/migrate/migrate.go:638-695 | a migrated entry names the images of its series and episode |
| `Debouncer.NoTriggerIsLost` | internal/fswatcher/debouncer.go:31-46 | a path whose last trigger has had no fire a full delay later has an armed timer for then or a callback from then; when all is quiet every path has had it |
| `Debouncer.FiresNeverOutnumberTriggers` | internal/fswatcher/debouncer.go:31-46 | fires, running callbacks and armed timers of a path together never exceed its triggers |
| `Debouncer.RaceFreeIsOrderly` | internal/fswatcher/debouncer.go:31-46 | without a racing trigger a path has one timer for a full delay after its last trigger, or one callback, or neither |
| `Debouncer.PrematureIffRace` | internal/fswatcher/debouncer.go:31-46 | some fire comes early or twice exactly when some trigger found a callback in flight |
| `Debouncer.RaceIsReachable` | internal/fswatcher/debouncer.go:31-46 | a run where that happens |
| `Debouncer.AtomicFiresExactly` | internal/fswatcher/debouncer.go:31-46 | with expiry atomic, each fire comes exactly the delay after the last trigger and once per burst |
| `Debouncer.Debouncer.Trigger` | internal/fswatcher/debouncer.go:31-46 | Trigger arms a timer a full delay ahead, new or reset, and keeps the invariant |
| `RateLimiter.Limiter.EvictOldest` | internal/api/middleware.go:94-106 | in any map order the least recently seen address goes, exactly unless it is the empty one; then one other goes or none |
| `RateLimiter.Limiter.GetLimiter` | internal/api/middleware.go:71-92 | a known address keeps its limiter; a new one gets a new limiter after an eviction if the table is full |
| `RateLimiter.ServesAsSpecifiedIff` | internal/api/middleware.go:71-106 | which is the least-recently-used specification exactly unless the empty address would have to go |
| `RateLimiter.EmptyAddressStays` | internal/api/middleware.go:94-106 | otherwise it stays, and the table outgrows its size or another address loses its limiter; a table of the empty address alone grows |
| `RateLimiter.Limiter.ServeAll` | internal/api/middleware.go:58-92 | any requests to a new table are a run, so the table ends exact if no empty eviction is due, for one if no address is empty |
| `RateLimiter.TableIsLru` | internal/api/middleware.go:71-106 | in every run without one the table holds exactly the most recently seen distinct addresses, up to its limit |
| `RateLimiter.LruIffNoEmptyEviction` | internal/api/middleware.go:71-106 | exact in every state of a run exactly when no request has to evict the empty address, a condition on the requests alone |
| `RateLimiter.EmptyEvictionIsReachable` | internal/api/middleware.go:94-106 | for every limit, requests that must, and the inexact or outgrown table they end in |
| `RateLimiter.LimiterIsKept` | internal/api/middleware.go:71-92 | an address that stays among them keeps its limiter |
| `RateLimiter.LimitersAreNeverReused` | internal/api/middleware.go:71-92 | a limiter found in two states of any run belongs to one address, in the table all the time between |
| `Strings.TrimIsExact` | internal/organizer/filenamebuilder.go:43-49 | trimming removes all surrounding white space and nothing else |
| `Strings.TrimDropsBlank` | internal/organizer/filenamebuilder.go:43-49 | a space, tab or line break at either end makes no difference |
| `ICalendar.EscapeIsOnePass` | internal/api/v3/calendar_feed.go:170-177 | the five replacement passes equal one pass over the text |
| `ICalendar.EscapeRoundTrip` | internal/api/v3/calendar_feed.go:170-177 | section 3.3.11 of RFC 5545 decodes the result to the text with CRLF as LF; so no LF and no unescaped comma or semicolon is left |
| `ICalendar.EscapeAgreesIff` | internal/api/v3/calendar_feed.go:170-177 | two texts escape alike exactly when they differ only in CRLF against LF |
| `ICalendar.Feed.WriteLine` | internal/api/v3/calendar_feed.go:181-196 | the loop appends the line's 75-octet pieces, continuations led by a space, each ended by CRLF |
| `ICalendar.UnfoldAll` | internal/api/v3/calendar_feed.go:181-196 | unfolding by section 3.1 of RFC 5545 undoes the folding of any feed |
| `ICalendar.FoldRoundTripIff` | internal/api/v3/calendar_feed.go:181-196 | unfold and split gives back the lines written exactly when none is empty |
| `ICalendar.Feed.WriteLines` | internal/api/v3/calendar_feed.go:181-196 | content lines written one after the other read back as those lines |
| `ICalendar.LinesOfFold` | internal/api/v3/calendar_feed.go:181-196 | the physical lines of the output are the folded pieces |
| `ICalendar.TooLongIff` | internal/api/v3/calendar_feed.go:181-196 | none is longer than 76 octets, and one is longer than 75 exactly when the line has 150 or more |
| `Organizer.Pad2Parses` | internal/organizer/filenamebuilder.go:24-36 | a padded number reads back as the number |
| `Organizer.Pad2IsShort` | internal/organizer/filenamebuilder.go:24-36 | padding is one zero, and only where one digit would stand alone |
| `Organizer.PassesAreSimultaneous` | internal/organizer/filenamebuilder.go:24-36 | if no later token starts in a value, the passes are one simultaneous substitution in every format |
| `Organizer.TokensMean` | internal/organizer/tokens.go:5-13 | each token becomes the column it names, numbers in two digits |
| `Organizer.DefaultFormatMeans` | internal/organizer/filenamebuilder.go:19-36 | the default format has series title, season, episode, episode title and quality in the places of their tokens |
| `Organizer.SimultaneousIff` | internal/organizer/filenamebuilder.go:24-36 | for one value, the others brace-free, in every format exactly then |
| `Organizer.UnsafeValueFails` | internal/organizer/filenamebuilder.go:24-36 | otherwise a format in which the value is substituted again |
| `Organizer.PlainValuesAreSafe` | internal/organizer/filenamebuilder.go:24-36 | values without an opening brace are safe |
| `Organizer.TitleIsSubstitutedAgain` | internal/organizer/filenamebuilder.go:24-36 | for one, a series named like a later token loses its name to that token's value |
| `Organizer.CleanFilename` | internal/organizer/filenamebuilder.go:43-49 | the loop removes exactly the nine characters, then trims |
| `Organizer.CleanedIsClean` | internal/organizer/filenamebuilder.go:43-49 | the result has none of the nine, listed, and no surrounding white space, and only unclean names change |
| `Organizer.BuildFilename` | internal/organizer/filenamebuilder.go:24-36 | the built name is clean, is the cleaned result of the passes, and that of the simultaneous substitution |
| `Titles.HalveKeepsCollapse` | internal/parser/title.go:173-182 | a round of the loop shortens a text with a double space and keeps what it collapses to |
| `Titles.CleanTitle` | internal/parser/title.go:173-182 | the loop ends in the text with every run of spaces as one |
| `Titles.SpacedPointwise` | internal/parser/title.go:173-182 | dots and underscores become spaces, one for one, and nothing else changes |
| `Titles.CleanIsCanonical` | internal/parser/title.go:173-182 | no dot, underscore, double space or surrounding white space is left; exactly such titles are left alone; cleaning is idempotent |
| `Titles.CleanAgreesIff` | internal/parser/title.go:173-182 | two titles clean alike exactly when their words, between spaces, dots and underscores, are the same sequence |
| `Titles.Normalize` | internal/scenemapping/scenemapping.go:77-98 | the loop computes the lower-cased ASCII alphanumeric runs joined by single spaces |
| `Titles.NormalOfWord` | internal/scenemapping/scenemapping.go:77-98 | ASCII letters and digits are kept one for one, capitals as their small letters |
| `Titles.NormalAtSeparator` | internal/scenemapping/scenemapping.go:77-98 | any other character separates: its two sides are normalised on their own, one space between if both have something |
| `Titles.NormalAgreesIff` | internal/scenemapping/scenemapping.go:77-98 | two texts agree exactly when their runs are the same sequence; normalising is idempotent |
| `Titles.LookupTvdbIDByTitle` | internal/scenemapping/scenemapping.go:63-73 | the first mapping with a term whose runs are the title's, none exactly when there is none |

## Left out

- Columns that steer nothing: command bodies, triggers, messages, results and durations, overviews and other descriptive fields.
- The other queue methods (Complete, Fail, RefreshLease, SweepExpiredLeases, FindDuplicate, DeleteOldCompleted, Get, ListRecent) as methods of the queue object: they are statements of `CommandTable` and actions of the transition systems.
- `LibraryStore.Library.ApplyMonitorMode`: the order in which ListForSeries returns rows, and a SetMonitored that errs after its write.
- `EventBus.Bus.Publish`: handlers that publish or register themselves, and publications at the same time; a handler is its outcome.
- `LibraryStore.Library.Housekeep`: trimming history and vacuuming the database.
- `Catalog.CacheAgrees`: overlapping Recomputes of one series, whose derive and upsert are separate steps in the program, and overflow of the 64-bit size sum.
- `Scheduler.OneActivePerTask`: a second scheduler process, or another user of a task's key.
- `Migrate.Migrator.Run`: API key, quality profiles (their map is filled but not used for series), indexers, download clients, notifications, and the narrowing of season and episode numbers to 32 bits.
- `RateLimiter.TableIsLru`: clock readings that repeat, and the token buckets inside the limiters.
- `Organizer.SimultaneousIff`: literal text in which a token starts, and several values with braces at once, where a second substitution may give back the first value; `Organizer.PassesAreSimultaneous` covers several safe ones.
- `Debouncer.PrematureIffRace`: for runs whose callbacks have all finished; the fire function itself is not modelled.
- `RssSync.Handle`: errors while listing, evaluating or grabbing, and size ties beyond `RssSync.WinnerIsTopIff`.
- `ICalendar.FoldRoundTripIff`: lines that start with white space or contain a line feed, which the feed never writes.
- PostgreSQL stores, HTTP handlers, authentication, configuration, realtime transport, indexers, download clients, file import, health checks, backups and the frontend: input and output, or only easy members.
