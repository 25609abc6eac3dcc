/** The library's stores as one object over the database, monitor modes, and the
    housekeeping run that repairs the statistics. */
module LibraryStore {
  import Collections
  import opened Catalog
  import opened Options

  // ----- monitor modes -----

  datatype Mode = All | NoEpisodes | Future | Missing | Existing | Pilot | FirstSeason | LastSeason | Unknown

  function ModeOf(text: string): Mode {
    if text == "" || text == "all" then All
    else if text == "none" then NoEpisodes
    else if text == "future" then Future
    else if text == "missing" then Missing
    else if text == "existing" then Existing
    else if text == "pilot" then Pilot
    else if text == "firstSeason" then FirstSeason
    else if text == "lastSeason" then LastSeason
    else Unknown
  }

  /** Whether `mode` wants episode `e` monitored; None for an unknown mode. */
  function Decide(mode: Mode, e: Episode, maxSeason: int, now: int): Option<bool> {
    match mode
    case All => Some(true)
    case NoEpisodes => Some(false)
    case Future => Some(e.airDate.Some? && now < e.airDate.value)
    case Missing => Some(e.fileId.None?)
    case Existing => Some(e.fileId.Some?)
    case Pilot => Some(e.season == 1 && e.number == 1)
    case FirstSeason => Some(e.season == 1)
    case LastSeason => Some(e.season == maxSeason)
    case Unknown => None
  }

  /** What the search for the highest season finds, starting from zero. */
  ghost predicate IsTopSeason(es: map<Id, Episode>, top: int) {
    && 0 <= top
    && (forall i :: i in es ==> es[i].season <= top)
    && (top > 0 ==> exists i :: i in es && es[i].season == top)
  }

  function Wants(mode: Mode, e: Episode, top: int, now: int): bool {
    Decide(mode, e, top, now) == Some(true)
  }

  /** The episodes of series `s` the mode selects. */
  function Selected(db: Db, s: Id, mode: Mode, top: int, now: int): set<Id> {
    set i | i in EpisodesOf(db, s) && Wants(mode, EpisodesOf(db, s)[i], top, now)
  }

  function Flagged(e: Episode, mode: Mode, top: int, now: int): Episode {
    e.(monitored := Wants(mode, e, top, now))
  }

  function FlaggedEpisodes(es: map<Id, Episode>, mode: Mode, top: int, now: int, done: set<Id>): map<Id, Episode> {
    map i | i in es :: if i in done then Flagged(es[i], mode, top, now) else es[i]
  }

  /** The database once the mode has been applied to the episodes of `s` among `done`. */
  function AppliedTo(db: Db, s: Id, mode: Mode, top: int, now: int, done: set<Id>): Db {
    if done == {} then db
    else Recompute(db.(episodes := FlaggedEpisodes(db.episodes, mode, top, now, done)), s)
  }

  /** The database once the mode has been applied to all of series `s`. */
  function AppliedMode(db: Db, s: Id, mode: Mode, top: int, now: int): Db {
    AppliedTo(db, s, mode, top, now, EpisodesOf(db, s).Keys)
  }

  lemma SameTablesDeriveAlike(a: Db, b: Db, s: Id)
    requires a.episodes == b.episodes && a.files == b.files
    ensures Derive(a, s) == Derive(b, s)
  {
    SameTablesSameRows(a, b, s);
  }

  lemma FlagNext(es: map<Id, Episode>, mode: Mode, top: int, now: int, done: set<Id>, id: Id)
    requires id in es && id !in done
    ensures var part := FlaggedEpisodes(es, mode, top, now, done);
      && part[id] == es[id]
      && part[id := part[id].(monitored := Wants(mode, es[id], top, now))]
         == FlaggedEpisodes(es, mode, top, now, done + {id})
    ensures FlaggedEpisodes(es, mode, top, now, {}) == es
  {
  }

  /** Recompute replaces whatever row was cached. */
  lemma RecomputeOverwrites(a: Db, b: Db, s: Id)
    requires s in b.series && a == b.(stats := a.stats)
    requires a.stats == b.stats || (s in a.stats && a.stats == b.stats[s := a.stats[s]])
    ensures Recompute(a, s) == Recompute(b, s)
  {
    SameTablesDeriveAlike(a, b, s);
    assert a.stats[s := Derive(a, s)] == b.stats[s := Derive(b, s)];
  }

  lemma SetMonitoredIsRecompute(db: Db, id: Id, m: bool)
    requires id in db.episodes
    ensures Apply(db, OpSetMonitored(id, m))
         == Recompute(db.(episodes := db.episodes[id := db.episodes[id].(monitored := m)]), db.episodes[id].seriesId)
  {
  }

  lemma AppliedFlags(db: Db, s: Id, mode: Mode, top: int, now: int, done: set<Id>)
    requires s in db.series
    ensures var part, flagged := AppliedTo(db, s, mode, top, now, done), FlaggedEpisodes(db.episodes, mode, top, now, done);
      && part == db.(episodes := flagged, stats := part.stats)
      && (part.stats == db.stats || (s in part.stats && part.stats == db.stats[s := part.stats[s]]))
  {
    assert FlaggedEpisodes(db.episodes, mode, top, now, {}) == db.episodes;
  }

  /** Setting one more episode's flag. */
  lemma SetNext(db: Db, s: Id, mode: Mode, top: int, now: int, done: set<Id>, id: Id)
    requires s in db.series && id in db.episodes && db.episodes[id].seriesId == s && id !in done
    ensures var part := AppliedTo(db, s, mode, top, now, done);
      && part.episodes == FlaggedEpisodes(db.episodes, mode, top, now, done)
      && Apply(part, OpSetMonitored(id, Wants(mode, db.episodes[id], top, now)))
         == AppliedTo(db, s, mode, top, now, done + {id})
  {
    var part := AppliedTo(db, s, mode, top, now, done);
    var next := FlaggedEpisodes(db.episodes, mode, top, now, done + {id});
    AppliedFlags(db, s, mode, top, now, done);
    FlagNext(db.episodes, mode, top, now, done, id);
    SetMonitoredIsRecompute(part, id, Wants(mode, db.episodes[id], top, now));
    RecomputeOverwrites(part.(episodes := next), db.(episodes := next), s);
    assert AppliedTo(db, s, mode, top, now, done + {id}) == Recompute(db.(episodes := next), s);
  }

  /** After a mode is applied to a non-empty series, exactly the selected episodes are
      monitored, and the cached count is their number. */
  lemma ModeSelects(db: Db, s: Id, mode: Mode, top: int, now: int)
    requires Valid(db) && EpisodesOf(db, s) != map[]
    ensures var after := AppliedMode(db, s, mode, top, now);
      && Monitored(EpisodesOf(after, s)) == Selected(db, s, mode, top, now)
      && s in after.stats && after.stats[s] == Derive(after, s)
      && after.stats[s].monitored == Int32(|Selected(db, s, mode, top, now)|)
  {
    NonEmptySeriesExists(db, s);
    var flagged := db.(episodes := FlaggedEpisodes(db.episodes, mode, top, now, EpisodesOf(db, s).Keys));
    FlaggedAreSelected(db, s, mode, top, now);
    assert AppliedMode(db, s, mode, top, now) == Recompute(flagged, s);
    SameTablesDeriveAlike(Recompute(flagged, s), flagged, s);
    SameTablesSameRows(Recompute(flagged, s), flagged, s);
  }

  lemma NonEmptySeriesExists(db: Db, s: Id)
    requires Valid(db) && EpisodesOf(db, s) != map[]
    ensures s in db.series && EpisodesOf(db, s).Keys != {}
  {
    assert EpisodesOf(db, s).Keys != {};
    var i := Collections.Member(EpisodesOf(db, s).Keys);
  }

  lemma FlaggedAreSelected(db: Db, s: Id, mode: Mode, top: int, now: int)
    ensures var flagged := db.(episodes := FlaggedEpisodes(db.episodes, mode, top, now, EpisodesOf(db, s).Keys));
      Monitored(EpisodesOf(flagged, s)) == Selected(db, s, mode, top, now)
  {
  }

  /** The names of the modes; anything else is unknown. */
  lemma ModeNames(text: string)
    ensures ModeOf(text) == All <==> text == "" || text == "all"
    ensures ModeOf(text) == NoEpisodes <==> text == "none"
    ensures ModeOf(text) == Future <==> text == "future"
    ensures ModeOf(text) == Missing <==> text == "missing"
    ensures ModeOf(text) == Existing <==> text == "existing"
    ensures ModeOf(text) == Pilot <==> text == "pilot"
    ensures ModeOf(text) == FirstSeason <==> text == "firstSeason"
    ensures ModeOf(text) == LastSeason <==> text == "lastSeason"
  {
    LongNamesDiffer();
  }

  lemma LongNamesDiffer()
    ensures "none"[0] == 'n' && "future"[0] == 'f' && "missing"[0] == 'm' && "existing"[0] == 'e' && "pilot"[0] == 'p'
    ensures "firstSeason"[0] == 'f' && "firstSeason"[1] == 'i' && "future"[1] == 'u' && "lastSeason"[0] == 'l'
    ensures "all"[0] == 'a' && |""| == 0
  {
  }

  /** Whether episode `i` of series `s` is monitored once the mode has been applied. */
  ghost predicate IsMonitoredUnder(db: Db, s: Id, mode: Mode, top: int, now: int, i: Id) {
    i in Monitored(EpisodesOf(AppliedMode(db, s, mode, top, now), s))
  }

  lemma MonitoredIffWanted(db: Db, s: Id, mode: Mode, top: int, now: int, i: Id)
    requires Valid(db) && i in EpisodesOf(db, s)
    ensures IsMonitoredUnder(db, s, mode, top, now, i) <==> Wants(mode, db.episodes[i], top, now)
  {
    ModeSelects(db, s, mode, top, now);
  }

  /** What each mode leaves monitored, in terms of the episode's own columns. */
  lemma ModesMean(db: Db, s: Id, mode: Mode, top: int, now: int, i: Id)
    requires Valid(db) && i in EpisodesOf(db, s)
    ensures var e := db.episodes[i];
      IsMonitoredUnder(db, s, mode, top, now, i) <==>
        || mode == All
        || (mode == Future && e.airDate != None && e.airDate.value > now)
        || (mode == Missing && e.fileId == None) || (mode == Existing && e.fileId != None)
        || (mode == Pilot && e.season == 1 && e.number == 1)
        || (mode == FirstSeason && e.season == 1) || (mode == LastSeason && e.season == top)
  {
    MonitoredIffWanted(db, s, mode, top, now, i);
  }

  /** lastSeason selects the episodes of the highest season, as documented, exactly when
      some season is not negative; otherwise it selects none. */
  lemma LastSeasonIff(db: Db, s: Id, top: int, now: int, i: Id)
    requires IsTopSeason(EpisodesOf(db, s), top) && i in EpisodesOf(db, s)
    ensures (exists j :: j in EpisodesOf(db, s) && EpisodesOf(db, s)[j].season >= 0) ==>
      (i in Selected(db, s, LastSeason, top, now) <==>
        forall j :: j in EpisodesOf(db, s) ==> EpisodesOf(db, s)[j].season <= EpisodesOf(db, s)[i].season)
    ensures (forall j :: j in EpisodesOf(db, s) ==> EpisodesOf(db, s)[j].season < 0) ==>
      Selected(db, s, LastSeason, top, now) == {}
  {
    var es := EpisodesOf(db, s);
    if j :| j in es && es[j].season >= 0 {
      if top > 0 {
        var k :| k in es && es[k].season == top;
      } else {
        assert es[j].season == top;
      }
    }
  }

  // ----- housekeeping -----

  ghost predicate IsRecomputed(before: Db, after: Db, s: Id) {
    s in after.stats && after.stats[s] == Derive(before, s)
  }

  ghost predicate SameRow(before: Db, after: Db, s: Id) {
    (s in after.stats <==> s in before.stats) && (s in after.stats ==> after.stats[s] == before.stats[s])
  }

  /** `after` is `before` with the cached rows of the series in `done` recomputed. */
  ghost predicate RecomputedFor(before: Db, after: Db, done: seq<Id>) {
    && after == before.(stats := after.stats)
    && (forall s {:trigger IsRecomputed(before, after, s)} ::
          s in done && s in before.series ==> IsRecomputed(before, after, s))
    && (forall s {:trigger SameRow(before, after, s)} ::
          s !in done || s !in before.series ==> SameRow(before, after, s))
  }

  /** The files whose path, under their series' path, `onDisk` does not find. */
  function Orphans(db: Db, onDisk: (string, string) -> bool): set<Id> {
    set i | i in db.files && db.files[i].seriesId in db.series
            && !onDisk(db.series[db.files[i].seriesId].path, db.files[i].path)
  }

  /** The orphans of the series in `ss`. */
  function OrphansIn(db: Db, onDisk: (string, string) -> bool, ss: seq<Id>): set<Id> {
    set i | i in Orphans(db, onDisk) && db.files[i].seriesId in ss
  }

  /** `db` is `before` without the files `gone`, up to the cache. */
  ghost predicate WithoutFiles(before: Db, db: Db, gone: set<Id>) {
    Valid(db) && db.series == before.series && db.episodes == before.episodes && db.files == before.files - gone
  }

  lemma OrphansNext(before: Db, db: Db, onDisk: (string, string) -> bool, done: seq<Id>, s: Id)
    requires db.series == before.series && db.files == before.files - OrphansIn(before, onDisk, done)
    ensures db.files - OrphansIn(db, onDisk, [s]) == before.files - OrphansIn(before, onDisk, done + [s])
  {
  }

  /** The listed files among `ids` that are not on disk. */
  function NotOnDisk(listed: map<Id, EpisodeFile>, path: string, onDisk: (string, string) -> bool, ids: seq<Id>): set<Id> {
    set i | i in ids && i in listed && !onDisk(path, listed[i].path)
  }

  lemma NotOnDiskNext(listed: map<Id, EpisodeFile>, path: string, onDisk: (string, string) -> bool, done: seq<Id>, i: Id)
    requires i in listed
    ensures NotOnDisk(listed, path, onDisk, done + [i])
         == NotOnDisk(listed, path, onDisk, done) + if onDisk(path, listed[i].path) then {} else {i}
  {
  }

  lemma NotOnDiskAreOrphans(db: Db, onDisk: (string, string) -> bool, s: Id, ids: seq<Id>)
    requires s in db.series && forall i :: i in ids <==> i in FilesOf(db, s)
    ensures NotOnDisk(FilesOf(db, s), db.series[s].path, onDisk, ids) == OrphansIn(db, onDisk, [s])
  {
  }

  lemma RecomputeNext(before: Db, db: Db, done: seq<Id>, s: Id)
    requires RecomputedFor(before, db, done) && s in before.series
    ensures RecomputedFor(before, Recompute(db, s), done + [s])
  {
    var after := Recompute(db, s);
    SameTablesDeriveAlike(db, before, s);
    assert IsRecomputed(before, after, s);
    forall r | r in done + [s] && r in before.series ensures IsRecomputed(before, after, r) {
      if r != s {
        assert IsRecomputed(before, db, r);
      }
    }
    forall r | r !in done + [s] || r !in before.series ensures SameRow(before, after, r) {
      assert SameRow(before, db, r);
    }
  }

  /** From any valid database, recomputing every series brings the cache to agreement. */
  lemma RecomputeAllAgrees(before: Db, after: Db, ids: seq<Id>)
    requires Valid(before) && RecomputedFor(before, after, ids) && forall s :: s in before.series ==> s in ids
    ensures Valid(after) && Agrees(after)
  {
    forall s: Id | s in after.stats ensures s in after.series {
      assert s !in before.series ==> SameRow(before, after, s);
    }
    forall s: Id ensures AgreesOn(after, s) {
      if s in before.series {
        assert IsRecomputed(before, after, s);
        SameTablesDeriveAlike(before, after, s);
      } else {
        AbsentSeriesIsEmpty(after, s);
      }
    }
  }

  lemma DeleteFileEffect(db: Db, id: Id)
    requires Valid(db) && id in db.files
    ensures var after := Apply(db, OpDeleteFile(id));
      Valid(after) && after.series == db.series && after.episodes == db.episodes && after.files == db.files - {id}
  {
    WriteKeepsValid(db, OpDeleteFile(id));
    PublishKeepsValid(DeleteFile(db, id).db, DeleteFile(db, id).event);
  }

  class Library {
    var db: Db

    constructor ()
      ensures db == EMPTY_DB
    {
      db := EMPTY_DB;
    }

    /** A store call: write, then let the subscribers react.  The cache stays in
        agreement and no other series is touched. */
    method Call(op: Op) returns (refused: bool)
      requires Valid(db)
      modifies this
      ensures db == Apply(old(db), op) && (refused <==> Write(old(db), op).Refused?)
      ensures Valid(db)
      ensures Agrees(old(db)) && PassesStoredSeries(old(db), op) ==> Agrees(db)
      ensures forall s: Id :: PassesStoredSeries(old(db), op)
                && (Write(old(db), op).Change? ==> s != Subject(Write(old(db), op).event))
                ==> SameFor(old(db), db, s)
    {
      ghost var before := db;
      var change := Write(db, op);
      refused := change.Refused?;
      if !refused {
        WriteKeepsValid(db, op);
        PublishKeepsValid(change.db, change.event);
        db := change.db;
        db := Publish(db, change.event);
      }
      if Agrees(before) && PassesStoredSeries(before, op) {
        ApplyKeepsAgreement(before, op);
      }
      forall s: Id | PassesStoredSeries(before, op)
                     && (Write(before, op).Change? ==> s != Subject(Write(before, op).event))
        ensures SameFor(before, db, s)
      {
        OthersUntouched(before, op, s);
      }
    }

    /** The ids of the series' episodes, each once. */
    method ListForSeries(s: Id) returns (ids: seq<Id>)
      ensures forall i, j :: 0 <= i < j < |ids| ==> ids[i] != ids[j]
      ensures forall i :: i in ids <==> i in EpisodesOf(db, s)
    {
      ids := Collections.ListOf(EpisodesOf(db, s).Keys);
    }

    /** The highest season among the listed episodes, counted from zero. */
    method TopSeason(s: Id, ids: seq<Id>) returns (top: int)
      requires forall i :: i in ids <==> i in EpisodesOf(db, s)
      ensures IsTopSeason(EpisodesOf(db, s), top)
    {
      var es := EpisodesOf(db, s);
      top := 0;
      for n := 0 to |ids|
        invariant 0 <= top
        invariant forall i :: 0 <= i < n ==> es[ids[i]].season <= top
        invariant top > 0 ==> exists i :: i in es && es[i].season == top
      {
        if es[ids[n]].season > top {
          top := es[ids[n]].season;
        }
      }
    }

    /** SetMonitored on the next episode of a mode being applied. */
    method SetOne(ghost before: Db, s: Id, mode: Mode, ghost top: int, now: int, ghost done: set<Id>,
                  id: Id, want: bool)
      requires Valid(before) && db == AppliedTo(before, s, mode, top, now, done)
      requires id in EpisodesOf(before, s) && id !in done && want == Wants(mode, before.episodes[id], top, now)
      modifies this
      ensures db == AppliedTo(before, s, mode, top, now, done + {id})
    {
      SetNext(before, s, mode, top, now, done, id);
      db := Apply(db, OpSetMonitored(id, want));
    }

    /** The loop over the listed episodes with a known mode. */
    method SetEach(s: Id, mode: Mode, top: int, now: int, faults: set<Id>, ids: seq<Id>)
      returns (failed: bool, ghost done: set<Id>)
      requires Valid(db) && !mode.Unknown? && forall i :: i in ids <==> i in EpisodesOf(db, s)
      requires forall i, j :: 0 <= i < j < |ids| ==> ids[i] != ids[j]
      modifies this
      ensures db == AppliedTo(old(db), s, mode, top, now, done)
      ensures done <= EpisodesOf(old(db), s).Keys - faults
      ensures failed <==> exists i :: i in ids && i in faults
      ensures !failed ==> done == EpisodesOf(old(db), s).Keys
    {
      ghost var before := db;
      var listed := EpisodesOf(db, s);
      failed, done := false, {};
      for n := 0 to |ids|
        invariant db == AppliedTo(before, s, mode, top, now, done)
        invariant done !! faults && forall i :: i in done <==> i in ids[..n]
      {
        var id := ids[n];
        assert id in ids && id !in ids[..n];
        if id in faults {
          failed := true;
          return;
        }
        SetOne(before, s, mode, top, now, done, id, Wants(mode, listed[id], top, now));
        done := done + {id};
      }
      assert done == listed.Keys;
    }

    /** Applies a monitor mode one SetMonitored at a time; `faults` are the episodes whose
        SetMonitored errs.  A known mode ends in the database with exactly the selected
        episodes of `s` monitored and its row recomputed, or, at the first error, with the
        mode applied to the episodes before it.  An unknown mode is an error at the first
        episode and changes nothing; an empty series is never an error. */
    method ApplyMonitorMode(s: Id, text: string, now: int, faults: set<Id>)
      returns (failed: bool, ghost top: int, ghost done: set<Id>)
      requires Valid(db)
      modifies this
      ensures IsTopSeason(EpisodesOf(old(db), s), top)
      ensures EpisodesOf(old(db), s) == map[] ==> !failed && db == old(db)
      ensures EpisodesOf(old(db), s) != map[] && ModeOf(text).Unknown? ==> failed && db == old(db)
      ensures !ModeOf(text).Unknown? ==> (failed <==> exists i :: i in EpisodesOf(old(db), s) && i in faults)
      ensures !ModeOf(text).Unknown? && !failed ==> db == AppliedMode(old(db), s, ModeOf(text), top, now)
      ensures !ModeOf(text).Unknown? && failed ==> db == AppliedTo(old(db), s, ModeOf(text), top, now, done)
      ensures done <= EpisodesOf(old(db), s).Keys - faults
    {
      var mode := ModeOf(text);
      failed, done := false, {};
      var ids := ListForSeries(s);
      var highest := TopSeason(s, ids);
      top := highest;
      if ids == [] {
        return;
      }
      assert ids[0] in ids;
      if mode.Unknown? {
        failed := true;
        return;
      }
      failed, done := SetEach(s, mode, highest, now, faults, ids);
    }

    /** Deletes the file rows that have no file on disk; each deletion publishes. */
    method CleanOrphanEpisodeFiles(onDisk: (string, string) -> bool)
      requires Valid(db)
      modifies this
      ensures Valid(db)
      ensures db.series == old(db).series && db.episodes == old(db).episodes
      ensures db.files == old(db).files - Orphans(old(db), onDisk)
    {
      ghost var before := db;
      var ids := Collections.ListOf(db.series.Keys);
      for n := 0 to |ids|
        invariant WithoutFiles(before, db, OrphansIn(before, onDisk, ids[..n]))
      {
        assert ids[n] in ids && ids[..n + 1] == ids[..n] + [ids[n]];
        OrphansNext(before, db, onDisk, ids[..n], ids[n]);
        CleanSeries(ids[n], onDisk);
      }
      assert OrphansIn(before, onDisk, ids[..|ids|]) == Orphans(before, onDisk);
    }

    method CleanSeries(s: Id, onDisk: (string, string) -> bool)
      requires Valid(db) && s in db.series
      modifies this
      ensures WithoutFiles(old(db), db, OrphansIn(old(db), onDisk, [s]))
    {
      ghost var before := db;
      var path := db.series[s].path;
      var listed := FilesOf(db, s);
      var ids := Collections.ListOf(listed.Keys);
      for n := 0 to |ids|
        invariant WithoutFiles(before, db, NotOnDisk(listed, path, onDisk, ids[..n]))
      {
        var i := ids[n];
        assert i in ids && i !in ids[..n] && ids[..n + 1] == ids[..n] + [i];
        NotOnDiskNext(listed, path, onDisk, ids[..n], i);
        if !onDisk(path, listed[i].path) {
          DeleteFileRow(i);
        }
      }
      assert ids[..|ids|] == ids;
      NotOnDiskAreOrphans(before, onDisk, s, ids);
    }

    method DeleteFileRow(id: Id)
      requires Valid(db) && id in db.files
      modifies this
      ensures Valid(db)
      ensures db.series == old(db).series && db.episodes == old(db).episodes && db.files == old(db).files - {id}
    {
      DeleteFileEffect(db, id);
      db := Apply(db, OpDeleteFile(id));
    }

    /** Recompute for every listed series. */
    method RecalculateStatistics() returns (ghost ids: seq<Id>)
      modifies this
      ensures forall s :: s in ids <==> s in old(db).series
      ensures RecomputedFor(old(db), db, ids)
    {
      ghost var before := db;
      var listed := Collections.ListOf(db.series.Keys);
      ids := listed;
      for n := 0 to |listed|
        invariant RecomputedFor(before, db, listed[..n])
      {
        assert listed[n] in listed && listed[..n + 1] == listed[..n] + [listed[n]];
        RecomputeOne(before, listed[..n], listed[n]);
      }
      assert listed[..|listed|] == listed;
    }

    method RecomputeOne(ghost before: Db, ghost done: seq<Id>, s: Id)
      requires RecomputedFor(before, db, done) && s in before.series
      modifies this
      ensures RecomputedFor(before, db, done + [s])
    {
      RecomputeNext(before, db, done, s);
      db := Recompute(db, s);
    }

    /** Housekeeping: from any valid database, however stale its cache, only the files
        on disk remain and every cached row agrees with the tables. */
    method Housekeep(onDisk: (string, string) -> bool)
      requires Valid(db)
      modifies this
      ensures Valid(db) && Agrees(db)
      ensures db.series == old(db).series && db.episodes == old(db).episodes
      ensures db.files == old(db).files - Orphans(old(db), onDisk)
      ensures forall i :: i in old(db).files ==>
                (i in db.files <==> onDisk(old(db).series[old(db).files[i].seriesId].path, old(db).files[i].path))
    {
      CleanOrphanEpisodeFiles(onDisk);
      ghost var cleaned := db;
      ghost var ids := RecalculateStatistics();
      RecomputeAllAgrees(cleaned, db, ids);
    }
  }
}
