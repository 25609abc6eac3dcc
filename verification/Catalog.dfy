/** The catalog tables, the statistics row derived from them, and the store operations
    with the events they publish, as functions on the whole database. */
module Catalog {
  import Collections
  import opened Options

  /** Row ids: AUTOINCREMENT keys. */
  type Id = nat

  datatype Series = Series(tvdbId: int, slug: string, path: string)

  datatype Episode = Episode(
    seriesId: Id, season: int, number: int, airDate: Option<int>, monitored: bool, fileId: Option<Id>)

  datatype EpisodeFile = EpisodeFile(seriesId: Id, season: int, path: string, size: int)

  /** The cached roll-up; the three counts are 32-bit. */
  datatype Stats = Stats(episodes: int, monitored: int, files: int, size: int)

  datatype Db = Db(
    series: map<Id, Series>,
    episodes: map<Id, Episode>,
    files: map<Id, EpisodeFile>,
    stats: map<Id, Stats>,
    nextSeries: Id,
    nextEpisode: Id,
    nextFile: Id)

  const EMPTY_DB := Db(map[], map[], map[], map[], 1, 1, 1)

  /** Foreign keys and the id counters. */
  ghost predicate Valid(db: Db) {
    && (forall i :: i in db.series ==> i < db.nextSeries)
    && (forall i :: i in db.episodes ==> i < db.nextEpisode && db.episodes[i].seriesId in db.series)
    && (forall i :: i in db.files ==> i < db.nextFile && db.files[i].seriesId in db.series)
    && (forall i :: i in db.stats ==> i in db.series)
  }

  // ----- derive -----

  /** Conversion of a count to int32, wrapping. */
  function Int32(n: int): (r: int)
    ensures -0x8000_0000 <= r < 0x8000_0000
    ensures -0x8000_0000 <= n < 0x8000_0000 ==> r == n
  {
    (n + 0x8000_0000) % 0x1_0000_0000 - 0x8000_0000
  }

  function EpisodesOf(db: Db, s: Id): map<Id, Episode> {
    map i | i in db.episodes && db.episodes[i].seriesId == s :: db.episodes[i]
  }

  function FilesOf(db: Db, s: Id): map<Id, EpisodeFile> {
    map i | i in db.files && db.files[i].seriesId == s :: db.files[i]
  }

  function Monitored(es: map<Id, Episode>): set<Id> {
    set i | i in es && es[i].monitored
  }

  lemma {:induction false} Least(s: set<Id>) returns (least: Id)
    requires s != {}
    ensures least in s && forall y :: y in s ==> least <= y
  {
    least := Collections.Member(s);
    var rest := s - {least};
    assert forall y :: y in s ==> y == least || y in rest;
    if rest != {} {
      var other := Least(rest);
      if other < least {
        least := other;
      }
    }
  }

  lemma LeastExists(s: set<Id>)
    requires s != {}
    ensures exists x :: x in s && forall y :: y in s ==> x <= y
  {
    var x := Least(s);
  }

  lemma RemovingShrinks<K, V>(m: map<K, V>, k: K)
    requires k in m
    ensures |m - {k}| == |m| - 1
  {
    assert (m - {k}).Keys == m.Keys - {k};
  }

  function First(fs: map<Id, EpisodeFile>): (i: Id)
    requires fs != map[]
    ensures i in fs
  {
    LeastExists(fs.Keys);
    var i :| i in fs.Keys && forall j :: j in fs.Keys ==> i <= j;
    i
  }

  /** SUM(size), row by row in id order. */
  function TotalSize(fs: map<Id, EpisodeFile>): int
    decreases |fs|
  {
    if fs == map[] then 0
    else
      RemovingShrinks(fs, First(fs));
      fs[First(fs)].size + TotalSize(fs - {First(fs)})
  }

  function Derive(db: Db, s: Id): Stats {
    Stats(Int32(|EpisodesOf(db, s)|), Int32(|Monitored(EpisodesOf(db, s))|), Int32(|FilesOf(db, s)|),
          TotalSize(FilesOf(db, s)))
  }

  // ----- events and the subscribers that keep the cache -----

  datatype Event =
    | EpisodeAdded(id: Id, seriesId: Id)
    | EpisodeUpdated(id: Id, seriesId: Id)
    | EpisodeDeleted(id: Id, seriesId: Id)
    | EpisodeFileAdded(id: Id, seriesId: Id)
    | EpisodeFileDeleted(id: Id, seriesId: Id)
    | SeriesAdded(id: Id)
    | SeriesUpdated(id: Id)
    | SeriesDeleted(id: Id)

  /** Recompute: the upsert fails on its foreign key when the series is gone. */
  function Recompute(db: Db, s: Id): Db {
    if s in db.series then db.(stats := db.stats[s := Derive(db, s)]) else db
  }

  /** What the synchronous subscribers do with an event. */
  function Publish(db: Db, e: Event): Db {
    match e
    case SeriesAdded(_) => db
    case SeriesUpdated(_) => db
    case SeriesDeleted(s) => db.(stats := db.stats - {s})
    case _ => Recompute(db, e.seriesId)
  }

  // ----- the stores: what each writes, and the event it then publishes -----

  datatype Error = NotFound | Constraint

  datatype Change = Change(db: Db, event: Event) | Refused(error: Error)

  predicate SeriesClash(db: Db, s: Series) {
    exists i :: i in db.series
      && (db.series[i].tvdbId == s.tvdbId || db.series[i].slug == s.slug || db.series[i].path == s.path)
  }

  function CreateSeries(db: Db, s: Series): Change {
    if SeriesClash(db, s) then Refused(Constraint)
    else Change(db.(series := db.series[db.nextSeries := s], nextSeries := db.nextSeries + 1),
                SeriesAdded(db.nextSeries))
  }

  /** The row of the given id, if there is one, with the caller's values. */
  function UpdateSeries(db: Db, id: Id, s: Series): Change {
    if id in db.series && SeriesClash(db.(series := db.series - {id}), s) then Refused(Constraint)
    else Change(if id !in db.series then db else db.(series := db.series[id := s]), SeriesUpdated(id))
  }

  /** ON DELETE CASCADE: episodes, files and statistics go with their series. */
  function DeleteSeries(db: Db, id: Id): Change {
    Change(if id !in db.series then db
           else db.(series := db.series - {id},
                    episodes := map i | i in db.episodes && db.episodes[i].seriesId != id :: db.episodes[i],
                    files := map i | i in db.files && db.files[i].seriesId != id :: db.files[i],
                    stats := db.stats - {id}),
           SeriesDeleted(id))
  }

  predicate EpisodeClash(db: Db, e: Episode) {
    exists i :: i in db.episodes && db.episodes[i].seriesId == e.seriesId
      && db.episodes[i].season == e.season && db.episodes[i].number == e.number
  }

  function CreateEpisode(db: Db, e: Episode): Change {
    if e.seriesId !in db.series || EpisodeClash(db, e) then Refused(Constraint)
    else Change(db.(episodes := db.episodes[db.nextEpisode := e], nextEpisode := db.nextEpisode + 1),
                EpisodeAdded(db.nextEpisode, e.seriesId))
  }

  /** Series, season and number stay; the event names the series the caller passed,
      whether or not the row exists. */
  function UpdateEpisode(db: Db, id: Id, e: Episode): Change {
    Change(if id !in db.episodes then db
           else db.(episodes := db.episodes[id := db.episodes[id].(
                                  airDate := e.airDate, monitored := e.monitored, fileId := e.fileId)]),
           EpisodeUpdated(id, e.seriesId))
  }

  function SetMonitored(db: Db, id: Id, monitored: bool): Change {
    if id !in db.episodes then Refused(NotFound)
    else Change(db.(episodes := db.episodes[id := db.episodes[id].(monitored := monitored)]),
                EpisodeUpdated(id, db.episodes[id].seriesId))
  }

  function DeleteEpisode(db: Db, id: Id): Change {
    if id !in db.episodes then Refused(NotFound)
    else Change(db.(episodes := db.episodes - {id}), EpisodeDeleted(id, db.episodes[id].seriesId))
  }

  function CreateFile(db: Db, f: EpisodeFile): Change {
    if f.seriesId !in db.series then Refused(Constraint)
    else Change(db.(files := db.files[db.nextFile := f], nextFile := db.nextFile + 1),
                EpisodeFileAdded(db.nextFile, f.seriesId))
  }

  function DeleteFile(db: Db, id: Id): Change {
    if id !in db.files then Refused(NotFound)
    else Change(db.(files := db.files - {id}), EpisodeFileDeleted(id, db.files[id].seriesId))
  }

  datatype Op =
    | OpCreateSeries(series: Series)
    | OpUpdateSeries(id: Id, series: Series)
    | OpDeleteSeries(id: Id)
    | OpCreateEpisode(episode: Episode)
    | OpUpdateEpisode(id: Id, episode: Episode)
    | OpSetMonitored(id: Id, monitored: bool)
    | OpDeleteEpisode(id: Id)
    | OpCreateFile(file: EpisodeFile)
    | OpDeleteFile(id: Id)

  function Write(db: Db, op: Op): Change {
    match op
    case OpCreateSeries(s) => CreateSeries(db, s)
    case OpUpdateSeries(id, s) => UpdateSeries(db, id, s)
    case OpDeleteSeries(id) => DeleteSeries(db, id)
    case OpCreateEpisode(e) => CreateEpisode(db, e)
    case OpUpdateEpisode(id, e) => UpdateEpisode(db, id, e)
    case OpSetMonitored(id, m) => SetMonitored(db, id, m)
    case OpDeleteEpisode(id) => DeleteEpisode(db, id)
    case OpCreateFile(f) => CreateFile(db, f)
    case OpDeleteFile(id) => DeleteFile(db, id)
  }

  /** A whole store call: the write, then the event. */
  function Apply(db: Db, op: Op): Db {
    match Write(db, op)
    case Change(written, event) => Publish(written, event)
    case Refused(_) => db
  }

  // ----- agreement of the cache with the tables -----

  /** The cached row is the derived one; no row means no episodes and no files. */
  ghost predicate AgreesOn(db: Db, s: Id) {
    if s in db.stats then db.stats[s] == Derive(db, s)
    else EpisodesOf(db, s) == map[] && FilesOf(db, s) == map[]
  }

  ghost predicate Agrees(db: Db) {
    forall s: Id :: AgreesOn(db, s)
  }

  /** Nothing about series `s` differs. */
  ghost predicate SameFor(a: Db, b: Db, s: Id) {
    && EpisodesOf(a, s) == EpisodesOf(b, s) && FilesOf(a, s) == FilesOf(b, s)
    && (s in a.stats <==> s in b.stats) && (s in a.stats ==> a.stats[s] == b.stats[s])
  }

  /** The series an event is about. */
  function Subject(e: Event): Id {
    if e.SeriesAdded? || e.SeriesUpdated? || e.SeriesDeleted? then e.id else e.seriesId
  }

  /** Callers of Update pass the series the episode is stored under. */
  predicate PassesStoredSeries(db: Db, op: Op) {
    op.OpUpdateEpisode? && op.id in db.episodes ==> op.episode.seriesId == db.episodes[op.id].seriesId
  }

  lemma WriteKeepsValid(db: Db, op: Op)
    requires Valid(db) && Write(db, op).Change?
    ensures Valid(Write(db, op).db)
  {
  }

  lemma PublishKeepsValid(db: Db, e: Event)
    requires Valid(db)
    ensures Valid(Publish(db, e))
  {
  }

  /** The write touches rows of the event's series only. */
  lemma WriteTouchesSubject(db: Db, op: Op, s: Id)
    requires Valid(db) && PassesStoredSeries(db, op)
    requires Write(db, op).Change? && s != Subject(Write(db, op).event)
    ensures SameFor(db, Write(db, op).db, s)
  {
    if op.OpCreateSeries? || op.OpUpdateSeries? || op.OpDeleteSeries? {
      SeriesWriteTouchesSubject(db, op, s);
    } else {
      RowWriteTouchesSubject(db, op, s);
    }
  }

  lemma SeriesWriteTouchesSubject(db: Db, op: Op, s: Id)
    requires Valid(db) && (op.OpCreateSeries? || op.OpUpdateSeries? || op.OpDeleteSeries?)
    requires Write(db, op).Change? && s != Subject(Write(db, op).event)
    ensures SameFor(db, Write(db, op).db, s)
  {
  }

  lemma RowWriteTouchesSubject(db: Db, op: Op, s: Id)
    requires Valid(db) && PassesStoredSeries(db, op)
    requires !op.OpCreateSeries? && !op.OpUpdateSeries? && !op.OpDeleteSeries?
    requires Write(db, op).Change? && s != Subject(Write(db, op).event)
    ensures SameFor(db, Write(db, op).db, s)
  {
  }

  lemma SameTablesSameRows(a: Db, b: Db, s: Id)
    requires a.episodes == b.episodes && a.files == b.files
    ensures EpisodesOf(a, s) == EpisodesOf(b, s) && FilesOf(a, s) == FilesOf(b, s)
  {
  }

  lemma PublishTouchesSubject(db: Db, e: Event, s: Id)
    requires s != Subject(e)
    ensures SameFor(db, Publish(db, e), s)
  {
    SameTablesSameRows(db, Publish(db, e), s);
  }

  /** An operation on one series leaves every other series' rows and cached row alone. */
  lemma OthersUntouched(db: Db, op: Op, s: Id)
    requires Valid(db) && PassesStoredSeries(db, op)
    requires Write(db, op).Change? ==> s != Subject(Write(db, op).event)
    ensures SameFor(db, Apply(db, op), s)
  {
    match Write(db, op)
    case Change(written, event) =>
      WriteTouchesSubject(db, op, s);
      PublishTouchesSubject(written, event, s);
    case Refused(_) =>
  }

  lemma RecomputeAgrees(db: Db, s: Id)
    requires Valid(db)
    ensures s in db.series ==> AgreesOn(Recompute(db, s), s)
  {
    assert EpisodesOf(Recompute(db, s), s) == EpisodesOf(db, s);
    assert FilesOf(Recompute(db, s), s) == FilesOf(db, s);
  }

  /** No series, no rows. */
  lemma AbsentSeriesIsEmpty(db: Db, s: Id)
    requires Valid(db) && s !in db.series
    ensures AgreesOn(db, s)
  {
  }

  /** The subscribers restore agreement for the event's series after the write. */
  lemma SubjectAgrees(db: Db, op: Op)
    requires Valid(db) && Agrees(db) && Write(db, op).Change?
    ensures AgreesOn(Apply(db, op), Subject(Write(db, op).event))
  {
    var Change(written, event) := Write(db, op);
    var s := Subject(event);
    WriteKeepsValid(db, op);
    PublishKeepsValid(written, event);
    if event.SeriesDeleted? || s !in written.series {
      AbsentSeriesIsEmpty(Apply(db, op), s);
    } else if event.SeriesAdded? {
      assert s !in db.series;
      AbsentSeriesIsEmpty(db, s);
      assert EpisodesOf(written, s) == EpisodesOf(db, s) && FilesOf(written, s) == FilesOf(db, s);
    } else if event.SeriesUpdated? {
      SameTablesSameRows(written, db, s);
      assert AgreesOn(db, s);
    } else {
      RecomputeAgrees(written, s);
    }
  }

  lemma ApplyKeepsAgreement(db: Db, op: Op)
    requires Valid(db) && Agrees(db) && PassesStoredSeries(db, op)
    ensures Valid(Apply(db, op)) && Agrees(Apply(db, op))
  {
    if Write(db, op).Change? {
      var Change(written, event) := Write(db, op);
      WriteKeepsValid(db, op);
      PublishKeepsValid(written, event);
      forall s: Id ensures AgreesOn(Apply(db, op), s) {
        if s == Subject(event) {
          SubjectAgrees(db, op);
        } else {
          OthersUntouched(db, op, s);
          assert AgreesOn(db, s);
        }
      }
    }
  }

  // ----- whole runs -----

  function Run(db: Db, ops: seq<Op>): Db
    decreases |ops|
  {
    if ops == [] then db else Run(Apply(db, ops[0]), ops[1..])
  }

  ghost predicate AllPassStoredSeries(db: Db, ops: seq<Op>)
    decreases |ops|
  {
    ops != [] ==> PassesStoredSeries(db, ops[0]) && AllPassStoredSeries(Apply(db, ops[0]), ops[1..])
  }

  lemma {:induction false} RunKeepsAgreement(db: Db, ops: seq<Op>)
    requires Valid(db) && Agrees(db) && AllPassStoredSeries(db, ops)
    ensures Valid(Run(db, ops)) && Agrees(Run(db, ops))
    decreases |ops|
  {
    if ops != [] {
      ApplyKeepsAgreement(db, ops[0]);
      RunKeepsAgreement(Apply(db, ops[0]), ops[1..]);
    }
  }

  /** Cache agreement: after any sequence of store operations on an empty catalog every
      cached row is the derived one and a missing row means nothing to count. */
  lemma CacheAgrees(ops: seq<Op>, s: Id)
    requires AllPassStoredSeries(EMPTY_DB, ops)
    ensures AgreesOn(Run(EMPTY_DB, ops), s)
  {
    forall r: Id ensures AgreesOn(EMPTY_DB, r) {
      AbsentSeriesIsEmpty(EMPTY_DB, r);
    }
    RunKeepsAgreement(EMPTY_DB, ops);
  }

  // ----- what happens when Update is given another series -----

  lemma Int32Differs(n: int)
    ensures Int32(n) != Int32(n + 1)
  {
  }

  /** Two episode maps that differ at most in episode `id`. */
  lemma FlipCounts(before: map<Id, Episode>, after: map<Id, Episode>, id: Id)
    requires id in before && before.Keys == after.Keys
    requires forall i :: i in before && i != id ==> after[i] == before[i]
    ensures |after| == |before|
    ensures before[id].monitored == after[id].monitored ==> |Monitored(after)| == |Monitored(before)|
    ensures !before[id].monitored && after[id].monitored ==> |Monitored(after)| == |Monitored(before)| + 1
    ensures before[id].monitored && !after[id].monitored ==> |Monitored(after)| == |Monitored(before)| - 1
  {
    assert |before| == |before.Keys| && |after| == |after.Keys|;
    if before[id].monitored == after[id].monitored {
      assert Monitored(before) == Monitored(after);
    } else if after[id].monitored {
      assert Monitored(after) == Monitored(before) + {id};
    } else {
      assert Monitored(before) == Monitored(after) + {id};
    }
  }

  /** The update leaves the counts of the stored series alone unless it flips the flag. */
  lemma UpdateCounts(db: Db, id: Id, e: Episode)
    requires id in db.episodes
    ensures var s, written := db.episodes[id].seriesId, UpdateEpisode(db, id, e).db;
      Derive(written, s) == Derive(db, s) <==> e.monitored == db.episodes[id].monitored
  {
    var s, written := db.episodes[id].seriesId, UpdateEpisode(db, id, e).db;
    var before, after := EpisodesOf(db, s), EpisodesOf(written, s);
    FlipCounts(before, after, id);
    assert FilesOf(written, s) == FilesOf(db, s);
    Int32Differs(|Monitored(before)|);
    Int32Differs(|Monitored(after)|);
  }

  /** After an Update that names another series, the stored series keeps its old row. */
  lemma UpdateElsewhere(db: Db, id: Id, e: Episode)
    requires Valid(db) && Agrees(db) && id in db.episodes && e.seriesId != db.episodes[id].seriesId
    ensures var s, after := db.episodes[id].seriesId, Apply(db, OpUpdateEpisode(id, e));
      && AgreesOn(after, s) <==> e.monitored == db.episodes[id].monitored
  {
    var s, written := db.episodes[id].seriesId, UpdateEpisode(db, id, e).db;
    UpdateCounts(db, id, e);
    PublishTouchesSubject(written, EpisodeUpdated(id, e.seriesId), s);
    assert AgreesOn(db, s) && id in EpisodesOf(db, s);
  }

  lemma UpdateLeavesThirdParties(db: Db, id: Id, e: Episode, r: Id)
    requires Valid(db) && Agrees(db) && id in db.episodes
    requires r != e.seriesId && r != db.episodes[id].seriesId
    ensures AgreesOn(Apply(db, OpUpdateEpisode(id, e)), r)
  {
    var written := UpdateEpisode(db, id, e).db;
    PublishTouchesSubject(written, EpisodeUpdated(id, e.seriesId), r);
    assert EpisodesOf(written, r) == EpisodesOf(db, r) && FilesOf(written, r) == FilesOf(db, r);
    assert AgreesOn(db, r);
  }

  /** Update keeps the cache in agreement exactly when the row does not exist, or the
      caller passed its series, or the monitored flag does not change. */
  lemma UpdateAgreesIff(db: Db, id: Id, e: Episode)
    requires Valid(db) && Agrees(db)
    ensures Agrees(Apply(db, OpUpdateEpisode(id, e))) <==>
      (id in db.episodes && e.seriesId != db.episodes[id].seriesId ==> e.monitored == db.episodes[id].monitored)
  {
    var op := OpUpdateEpisode(id, e);
    if id !in db.episodes || e.seriesId == db.episodes[id].seriesId {
      ApplyKeepsAgreement(db, op);
    } else {
      UpdateElsewhere(db, id, e);
      SubjectAgrees(db, op);
      forall r: Id | r != db.episodes[id].seriesId ensures AgreesOn(Apply(db, op), r) {
        if r != e.seriesId {
          UpdateLeavesThirdParties(db, id, e, r);
        }
      }
    }
  }

  /** A run that ends in disagreement: an episode of the first series is updated as if it
      belonged to the second one, and unmonitored. */
  lemma UpdateElsewhereDisagrees()
    ensures var ops := [OpCreateSeries(Series(1, "a", "/a")), OpCreateSeries(Series(2, "b", "/b")),
                        OpCreateEpisode(Episode(1, 1, 1, None, true, None)),
                        OpUpdateEpisode(1, Episode(2, 1, 1, None, false, None))];
      !Agrees(Run(EMPTY_DB, ops))
  {
    var a, b := OpCreateSeries(Series(1, "a", "/a")), OpCreateSeries(Series(2, "b", "/b"));
    var c := OpCreateEpisode(Episode(1, 1, 1, None, true, None));
    var d := OpUpdateEpisode(1, Episode(2, 1, 1, None, false, None));
    var one := Apply(EMPTY_DB, a);
    var two := Apply(one, b);
    var three := Apply(two, c);
    assert one == EMPTY_DB.(series := map[1 := a.series], nextSeries := 2);
    assert two == one.(series := map[1 := a.series, 2 := b.series], nextSeries := 3);
    assert three.episodes == map[1 := c.episode];
    forall r: Id ensures AgreesOn(EMPTY_DB, r) {
      AbsentSeriesIsEmpty(EMPTY_DB, r);
    }
    ApplyKeepsAgreement(EMPTY_DB, a);
    ApplyKeepsAgreement(one, b);
    ApplyKeepsAgreement(two, c);
    UpdateAgreesIff(three, 1, d.episode);
    RunOfFour(EMPTY_DB, a, b, c, d);
  }

  lemma RunOfFour(db: Db, a: Op, b: Op, c: Op, d: Op)
    ensures Run(db, [a, b, c, d]) == Apply(Apply(Apply(Apply(db, a), b), c), d)
  {
    assert [a, b, c, d][1..] == [b, c, d] && [b, c, d][1..] == [c, d] && [c, d][1..] == [d] && [d][1..] == [];
    assert Run(Apply(db, a), [b, c, d]) == Run(Apply(Apply(db, a), b), [c, d]);
    assert Run(Apply(Apply(db, a), b), [c, d]) == Run(Apply(Apply(Apply(db, a), b), c), [d]);
  }

  // ----- what the derived row means -----

  /** The order of the sum is immaterial: taking out any row takes out its size. */
  lemma {:induction false} TotalSizeWithout(fs: map<Id, EpisodeFile>, id: Id)
    requires id in fs
    ensures TotalSize(fs) == fs[id].size + TotalSize(fs - {id})
    decreases |fs|
  {
    var i := First(fs);
    if i != id {
      RemovingShrinks(fs, i);
      TotalSizeWithout(fs - {i}, id);
      assert fs - {i} - {id} == fs - {id} - {i};
      FirstOfRest(fs, id);
    }
  }

  lemma FirstOfRest(fs: map<Id, EpisodeFile>, id: Id)
    requires id in fs && First(fs) != id
    ensures fs - {id} != map[] && First(fs - {id}) == First(fs)
  {
    assert First(fs) in fs - {id};
  }

  lemma FilesAfterCreate(db: Db, f: EpisodeFile)
    requires Valid(db) && f.seriesId in db.series
    ensures var written := CreateFile(db, f).db;
      && db.nextFile in FilesOf(written, f.seriesId) && FilesOf(written, f.seriesId)[db.nextFile] == f
      && FilesOf(written, f.seriesId) - {db.nextFile} == FilesOf(db, f.seriesId)
      && EpisodesOf(written, f.seriesId) == EpisodesOf(db, f.seriesId)
  {
  }

  /** Creating a file adds one file and its size to its series' derived row. */
  lemma CreateFileAdds(db: Db, f: EpisodeFile)
    requires Valid(db) && f.seriesId in db.series
    ensures var s, written := f.seriesId, CreateFile(db, f).db;
      && TotalSize(FilesOf(written, s)) == TotalSize(FilesOf(db, s)) + f.size
      && |FilesOf(written, s)| == |FilesOf(db, s)| + 1
      && EpisodesOf(written, s) == EpisodesOf(db, s)
  {
    var after := FilesOf(CreateFile(db, f).db, f.seriesId);
    FilesAfterCreate(db, f);
    TotalSizeWithout(after, db.nextFile);
    RemovingShrinks(after, db.nextFile);
  }

  /** Deleting a file takes exactly that file and its size away. */
  lemma DeleteFileSubtracts(db: Db, id: Id)
    requires id in db.files
    ensures var s, written := db.files[id].seriesId, DeleteFile(db, id).db;
      && TotalSize(FilesOf(written, s)) == TotalSize(FilesOf(db, s)) - db.files[id].size
      && |FilesOf(written, s)| == |FilesOf(db, s)| - 1
      && EpisodesOf(written, s) == EpisodesOf(db, s)
  {
    var s, written := db.files[id].seriesId, DeleteFile(db, id).db;
    assert FilesOf(written, s) == FilesOf(db, s) - {id};
    TotalSizeWithout(FilesOf(db, s), id);
    RemovingShrinks(FilesOf(db, s), id);
  }
}
