/** What the cached row says, operation by operation: the numbers a reader of the catalog
    sees, without reference to how the row is derived. */
module CatalogCounts {
  import Collections
  import opened Catalog
  import opened Options

  /** What a reader of the statistics gets: zeros if there is no row. */
  function CachedRow(db: Db, s: Id): Stats {
    if s in db.stats then db.stats[s] else Stats(0, 0, 0, 0)
  }

  /** The counts of a series fit 32 bits. */
  ghost predicate Fits(db: Db, s: Id) {
    |EpisodesOf(db, s)| < 0x8000_0000 && |FilesOf(db, s)| < 0x8000_0000
  }

  lemma MonitoredAreFewer(es: map<Id, Episode>)
    ensures |Monitored(es)| <= |es|
  {
    SubsetSize(Monitored(es), es.Keys);
    assert |es.Keys| == |es|;
  }

  lemma SubsetSize(a: set<Id>, b: set<Id>)
    requires a <= b
    ensures |a| <= |b|
  {
    assert b == a + (b - a);
  }

  /** In agreement the row has the number of episodes, of monitored ones and of files, and
      the sum of the files' sizes, in this order. */
  lemma RowSaysWhatIsThere(db: Db, s: Id)
    requires AgreesOn(db, s) && Fits(db, s)
    ensures CachedRow(db, s).episodes == |EpisodesOf(db, s)|
    ensures CachedRow(db, s).monitored == |Monitored(EpisodesOf(db, s))|
    ensures CachedRow(db, s).files == |FilesOf(db, s)|
    ensures CachedRow(db, s).size == TotalSize(FilesOf(db, s))
  {
    MonitoredAreFewer(EpisodesOf(db, s));
  }

  /** Each count is exact if and only if it fits 32 bits; the size always is. */
  lemma CountsAreExactIff(db: Db, s: Id)
    requires AgreesOn(db, s)
    ensures CachedRow(db, s).episodes == |EpisodesOf(db, s)| <==> |EpisodesOf(db, s)| < 0x8000_0000
    ensures CachedRow(db, s).monitored == |Monitored(EpisodesOf(db, s))| <==> |Monitored(EpisodesOf(db, s))| < 0x8000_0000
    ensures CachedRow(db, s).files == |FilesOf(db, s)| <==> |FilesOf(db, s)| < 0x8000_0000
    ensures CachedRow(db, s).size == TotalSize(FilesOf(db, s))
  {
    MonitoredAreFewer(EpisodesOf(db, s));
  }

  lemma EmptySeriesDerivesZeros(db: Db, s: Id)
    requires EpisodesOf(db, s) == map[] && FilesOf(db, s) == map[]
    ensures Derive(db, s) == Stats(0, 0, 0, 0)
  {
    assert Monitored(EpisodesOf(db, s)) == {};
  }

  /** The operation, applied in an agreeing database, leaves one that agrees, and the counts
      of series `s` fit before and after. */
  ghost predicate IsCounted(db: Db, op: Op, s: Id) {
    Valid(db) && Agrees(db) && PassesStoredSeries(db, op) && Fits(db, s) && Fits(Apply(db, op), s)
  }

  lemma RowsBeforeAndAfter(db: Db, op: Op, s: Id)
    requires IsCounted(db, op, s)
    ensures var after := Apply(db, op);
      && CachedRow(db, s) == Stats(|EpisodesOf(db, s)|, |Monitored(EpisodesOf(db, s))|, |FilesOf(db, s)|,
                                   TotalSize(FilesOf(db, s)))
      && CachedRow(after, s) == Stats(|EpisodesOf(after, s)|, |Monitored(EpisodesOf(after, s))|, |FilesOf(after, s)|,
                                      TotalSize(FilesOf(after, s)))
  {
    ApplyKeepsAgreement(db, op);
    assert AgreesOn(db, s) && AgreesOn(Apply(db, op), s);
    RowSaysWhatIsThere(db, s);
    RowSaysWhatIsThere(Apply(db, op), s);
  }

  lemma PublishKeepsMaps(db: Db, e: Event)
    ensures var after := Publish(db, e);
      after.series == db.series && after.episodes == db.episodes && after.files == db.files
  {
  }

  /** Publication changes no series, no episode and no file. */
  lemma PublishKeepsTables(db: Db, e: Event, s: Id)
    ensures var after := Publish(db, e);
      && after.series == db.series && after.episodes == db.episodes && after.files == db.files
      && EpisodesOf(after, s) == EpisodesOf(db, s) && FilesOf(after, s) == FilesOf(db, s)
  {
    PublishKeepsMaps(db, e);
    SameTablesSameRows(Publish(db, e), db, s);
  }

  // ----- episodes -----

  lemma OneMore(before: map<Id, Episode>, id: Id, e: Episode)
    requires id !in before
    ensures |before[id := e]| == |before| + 1
    ensures |Monitored(before[id := e])| == |Monitored(before)| + if e.monitored then 1 else 0
  {
    var after := before[id := e];
    assert after.Keys == before.Keys + {id} && |after| == |after.Keys| && |before| == |before.Keys|;
    assert Monitored(after) == if e.monitored then Monitored(before) + {id} else Monitored(before);
  }

  lemma CreateEpisodeWrites(db: Db, e: Episode)
    requires Valid(db) && CreateEpisode(db, e).Change?
    ensures var s, written := e.seriesId, CreateEpisode(db, e).db;
      && db.nextEpisode !in EpisodesOf(db, s)
      && EpisodesOf(written, s) == EpisodesOf(db, s)[db.nextEpisode := e] && FilesOf(written, s) == FilesOf(db, s)
  {
  }

  lemma CreateEpisodeTables(db: Db, e: Episode)
    requires Valid(db) && CreateEpisode(db, e).Change?
    ensures var s, after := e.seriesId, Apply(db, OpCreateEpisode(e));
      && db.nextEpisode !in EpisodesOf(db, s)
      && EpisodesOf(after, s) == EpisodesOf(db, s)[db.nextEpisode := e] && FilesOf(after, s) == FilesOf(db, s)
  {
    CreateEpisodeWrites(db, e);
    PublishKeepsTables(CreateEpisode(db, e).db, EpisodeAdded(db.nextEpisode, e.seriesId), e.seriesId);
  }

  /** A created episode is one more, monitored or not; files are as before. */
  lemma CreateEpisodeCounts(db: Db, e: Episode)
    requires var op := OpCreateEpisode(e); IsCounted(db, op, e.seriesId) && Write(db, op).Change?
    ensures var before, after := CachedRow(db, e.seriesId), CachedRow(Apply(db, OpCreateEpisode(e)), e.seriesId);
      && after.episodes == before.episodes + 1
      && after.monitored == before.monitored + One(e.monitored)
      && after.files == before.files && after.size == before.size
  {
    RowsBeforeAndAfter(db, OpCreateEpisode(e), e.seriesId);
    CreateEpisodeTables(db, e);
    OneMore(EpisodesOf(db, e.seriesId), db.nextEpisode, e);
  }

  lemma DeleteEpisodeTables(db: Db, id: Id)
    requires id in db.episodes
    ensures var s, after := db.episodes[id].seriesId, Apply(db, OpDeleteEpisode(id));
      && id !in EpisodesOf(after, s) && FilesOf(after, s) == FilesOf(db, s)
      && EpisodesOf(after, s)[id := db.episodes[id]] == EpisodesOf(db, s)
  {
    var s, written := db.episodes[id].seriesId, DeleteEpisode(db, id).db;
    PublishKeepsTables(written, EpisodeDeleted(id, s), s);
    assert EpisodesOf(written, s)[id := db.episodes[id]] == EpisodesOf(db, s);
    assert FilesOf(written, s) == FilesOf(db, s);
  }

  /** A deleted episode is one less, with its flag. */
  lemma DeleteEpisodeCounts(db: Db, id: Id)
    requires id in db.episodes && IsCounted(db, OpDeleteEpisode(id), db.episodes[id].seriesId)
    ensures var s := db.episodes[id].seriesId;
      var before, after := CachedRow(db, s), CachedRow(Apply(db, OpDeleteEpisode(id)), s);
      && after.episodes == before.episodes - 1
      && after.monitored == before.monitored - One(db.episodes[id].monitored)
      && after.files == before.files && after.size == before.size
  {
    var e := db.episodes[id];
    RowsBeforeAndAfter(db, OpDeleteEpisode(id), e.seriesId);
    DeleteEpisodeTables(db, id);
    OneMore(EpisodesOf(Apply(db, OpDeleteEpisode(id)), e.seriesId), id, e);
  }

  /** Two databases that differ in one episode of series `s`, which keeps its place. */
  ghost predicate DifferInEpisode(db: Db, after: Db, s: Id, id: Id) {
    && FilesOf(after, s) == FilesOf(db, s) && id in EpisodesOf(db, s) && EpisodesOf(after, s).Keys == EpisodesOf(db, s).Keys
    && forall i :: i in EpisodesOf(db, s) && i != id ==> EpisodesOf(after, s)[i] == EpisodesOf(db, s)[i]
  }

  function One(flag: bool): int {
    if flag then 1 else 0
  }

  lemma FlagMoves(db: Db, op: Op, s: Id, id: Id)
    requires IsCounted(db, op, s) && DifferInEpisode(db, Apply(db, op), s, id)
    ensures var before, after := CachedRow(db, s), CachedRow(Apply(db, op), s);
      && after.monitored == before.monitored - One(EpisodesOf(db, s)[id].monitored) + One(EpisodesOf(Apply(db, op), s)[id].monitored)
      && after == before.(monitored := after.monitored)
  {
    RowsBeforeAndAfter(db, op, s);
    FlipCounts(EpisodesOf(db, s), EpisodesOf(Apply(db, op), s), id);
  }

  lemma UpdateTables(db: Db, id: Id, e: Episode, m: bool)
    requires id in db.episodes
    ensures var s, after := db.episodes[id].seriesId, Apply(db, OpUpdateEpisode(id, e));
      DifferInEpisode(db, after, s, id) && EpisodesOf(after, s)[id].monitored == e.monitored
    ensures var s, after := db.episodes[id].seriesId, Apply(db, OpSetMonitored(id, m));
      DifferInEpisode(db, after, s, id) && EpisodesOf(after, s)[id].monitored == m
  {
    var s := db.episodes[id].seriesId;
    PublishKeepsTables(UpdateEpisode(db, id, e).db, EpisodeUpdated(id, e.seriesId), s);
    PublishKeepsTables(SetMonitored(db, id, m).db, EpisodeUpdated(id, s), s);
  }

  /** A flag that is set or cleared moves the monitored count alone, by the difference. */
  lemma SetMonitoredCounts(db: Db, id: Id, m: bool)
    requires id in db.episodes && IsCounted(db, OpSetMonitored(id, m), db.episodes[id].seriesId)
    ensures var s := db.episodes[id].seriesId;
      var before, after := CachedRow(db, s), CachedRow(Apply(db, OpSetMonitored(id, m)), s);
      && after.monitored == before.monitored - One(db.episodes[id].monitored) + One(m)
      && after == before.(monitored := after.monitored)
  {
    UpdateTables(db, id, db.episodes[id], m);
    FlagMoves(db, OpSetMonitored(id, m), db.episodes[id].seriesId, id);
  }

  /** So does an update that passes the stored series. */
  lemma UpdateEpisodeCounts(db: Db, id: Id, e: Episode)
    requires id in db.episodes && e.seriesId == db.episodes[id].seriesId
    requires IsCounted(db, OpUpdateEpisode(id, e), e.seriesId)
    ensures var before, after := CachedRow(db, e.seriesId), CachedRow(Apply(db, OpUpdateEpisode(id, e)), e.seriesId);
      && after.monitored == before.monitored - One(db.episodes[id].monitored) + One(e.monitored)
      && after == before.(monitored := after.monitored)
  {
    UpdateTables(db, id, e, true);
    FlagMoves(db, OpUpdateEpisode(id, e), e.seriesId, id);
  }

  // ----- files -----

  /** A created file is one more, with its size; episodes are as before. */
  lemma CreateFileCounts(db: Db, f: EpisodeFile)
    requires var op := OpCreateFile(f); IsCounted(db, op, f.seriesId) && Write(db, op).Change?
    ensures var before, after := CachedRow(db, f.seriesId), CachedRow(Apply(db, OpCreateFile(f)), f.seriesId);
      && after.files == before.files + 1 && after.size == before.size + f.size
      && after.episodes == before.episodes && after.monitored == before.monitored
  {
    var op, s := OpCreateFile(f), f.seriesId;
    RowsBeforeAndAfter(db, op, s);
    PublishKeepsTables(CreateFile(db, f).db, EpisodeFileAdded(db.nextFile, s), s);
    CreateFileAdds(db, f);
  }

  lemma DeleteFileTables(db: Db, id: Id)
    requires id in db.files
    ensures var s, after := db.files[id].seriesId, Apply(db, OpDeleteFile(id));
      && TotalSize(FilesOf(after, s)) == TotalSize(FilesOf(db, s)) - db.files[id].size
      && |FilesOf(after, s)| == |FilesOf(db, s)| - 1 && EpisodesOf(after, s) == EpisodesOf(db, s)
  {
    PublishKeepsTables(DeleteFile(db, id).db, EpisodeFileDeleted(id, db.files[id].seriesId), db.files[id].seriesId);
    DeleteFileSubtracts(db, id);
  }

  /** A deleted file is one less, with its size. */
  lemma DeleteFileCounts(db: Db, id: Id)
    requires id in db.files && IsCounted(db, OpDeleteFile(id), db.files[id].seriesId)
    ensures var s := db.files[id].seriesId;
      var before, after := CachedRow(db, s), CachedRow(Apply(db, OpDeleteFile(id)), s);
      && after.files == before.files - 1 && after.size == before.size - db.files[id].size
      && after.episodes == before.episodes && after.monitored == before.monitored
  {
    RowsBeforeAndAfter(db, OpDeleteFile(id), db.files[id].seriesId);
    DeleteFileTables(db, id);
  }

  // ----- series, and reading back -----

  /** A deleted series has no episode, no file and no row left. */
  lemma DeletedSeriesIsGone(db: Db, id: Id)
    requires Valid(db)
    ensures var after := Apply(db, OpDeleteSeries(id));
      id !in after.series && EpisodesOf(after, id) == map[] && FilesOf(after, id) == map[] && id !in after.stats
  {
    PublishKeepsTables(DeleteSeries(db, id).db, SeriesDeleted(id), id);
    assert EpisodesOf(DeleteSeries(db, id).db, id) == map[];
    assert FilesOf(DeleteSeries(db, id).db, id) == map[];
  }

  /** A created one has none yet. */
  lemma CreatedSeriesIsEmpty(db: Db, series: Series)
    requires Valid(db) && CreateSeries(db, series).Change?
    ensures var id, after := db.nextSeries, Apply(db, OpCreateSeries(series));
      && id !in db.series && id in after.series && after.series[id] == series
      && EpisodesOf(after, id) == map[] && FilesOf(after, id) == map[] && CachedRow(after, id) == Stats(0, 0, 0, 0)
  {
    SameTablesSameRows(Apply(db, OpCreateSeries(series)), db, db.nextSeries);
    assert EpisodesOf(db, db.nextSeries) == map[] && FilesOf(db, db.nextSeries) == map[];
  }

  /** What was written is read back, and nothing else has changed. */
  lemma ReadBackSeries(db: Db, id: Id, s: Series)
    requires Valid(db)
    ensures CreateSeries(db, s).Change? ==>
      Apply(db, OpCreateSeries(s)).series == db.series[db.nextSeries := s] && db.nextSeries !in db.series
    ensures UpdateSeries(db, id, s).Change? ==>
      Apply(db, OpUpdateSeries(id, s)).series == if id in db.series then db.series[id := s] else db.series
    ensures Apply(db, OpDeleteSeries(id)).series == db.series - {id}
  {
  }

  lemma ReadBackNewEpisode(db: Db, e: Episode)
    requires Valid(db) && CreateEpisode(db, e).Change?
    ensures Apply(db, OpCreateEpisode(e)).episodes == db.episodes[db.nextEpisode := e] && db.nextEpisode !in db.episodes
  {
    PublishKeepsTables(CreateEpisode(db, e).db, EpisodeAdded(db.nextEpisode, e.seriesId), 0);
  }

  lemma ReadBackEpisode(db: Db, id: Id, e: Episode, m: bool)
    ensures ChangedEpisode(db, Apply(db, OpUpdateEpisode(id, e)), id, e.airDate, e.monitored, e.fileId)
    ensures id in db.episodes ==>
      ChangedEpisode(db, Apply(db, OpSetMonitored(id, m)), id, db.episodes[id].airDate, m, db.episodes[id].fileId)
    ensures id in db.episodes ==> Apply(db, OpDeleteEpisode(id)).episodes == db.episodes - {id}
  {
    PublishKeepsTables(UpdateEpisode(db, id, e).db, EpisodeUpdated(id, e.seriesId), 0);
    if id in db.episodes {
      var s := db.episodes[id].seriesId;
      PublishKeepsTables(SetMonitored(db, id, m).db, EpisodeUpdated(id, s), 0);
      PublishKeepsTables(DeleteEpisode(db, id).db, EpisodeDeleted(id, s), 0);
    }
  }

  lemma ReadBackNewFile(db: Db, f: EpisodeFile)
    requires Valid(db) && CreateFile(db, f).Change?
    ensures Apply(db, OpCreateFile(f)).files == db.files[db.nextFile := f] && db.nextFile !in db.files
  {
    PublishKeepsTables(CreateFile(db, f).db, EpisodeFileAdded(db.nextFile, f.seriesId), 0);
  }

  lemma ReadBackDeletedFile(db: Db, id: Id)
    requires id in db.files
    ensures Apply(db, OpDeleteFile(id)).files == db.files - {id}
  {
    PublishKeepsTables(DeleteFile(db, id).db, EpisodeFileDeleted(id, db.files[id].seriesId), 0);
  }

  /** Episode `id` has the new date, flag and link under its old series, season and number;
      the others are as they were. */
  ghost predicate ChangedEpisode(db: Db, after: Db, id: Id, airDate: Option<int>, monitored: bool, fileId: Option<Id>) {
    && after.episodes.Keys == db.episodes.Keys
    && (forall i :: i in db.episodes && i != id ==> after.episodes[i] == db.episodes[i])
    && (id in db.episodes ==>
          after.episodes[id] == Episode(db.episodes[id].seriesId, db.episodes[id].season, db.episodes[id].number,
                                        airDate, monitored, fileId))
  }

  /** A call is refused exactly for a missing row or a broken constraint, and says which. */
  lemma RefusedIff(db: Db, op: Op)
    ensures Write(db, op).Refused? <==>
      match op
      case OpCreateSeries(s) => exists i :: i in db.series && SeriesAlike(db.series[i], s)
      case OpUpdateSeries(id, s) => id in db.series && exists i :: i in db.series && i != id && SeriesAlike(db.series[i], s)
      case OpDeleteSeries(_) => false
      case OpCreateEpisode(e) =>
        || e.seriesId !in db.series
        || exists i :: i in db.episodes && db.episodes[i].seriesId == e.seriesId
             && db.episodes[i].season == e.season && db.episodes[i].number == e.number
      case OpUpdateEpisode(_, _) => false
      case OpSetMonitored(id, _) => id !in db.episodes
      case OpDeleteEpisode(id) => id !in db.episodes
      case OpCreateFile(f) => f.seriesId !in db.series
      case OpDeleteFile(id) => id !in db.files
    ensures Write(db, op).Refused? ==>
      (Write(db, op).error == NotFound <==> op.OpSetMonitored? || op.OpDeleteEpisode? || op.OpDeleteFile?)
  {
    match op
    case OpCreateSeries(s) =>
      assert forall i :: i in db.series ==> (SeriesAlike(db.series[i], s) <==>
        db.series[i].tvdbId == s.tvdbId || db.series[i].slug == s.slug || db.series[i].path == s.path);
    case OpUpdateSeries(id, s) =>
      var rest := db.series - {id};
      assert forall i :: i in db.series && i != id ==> i in rest && rest[i] == db.series[i];
      assert forall i :: i in db.series ==> (SeriesAlike(db.series[i], s) <==>
        db.series[i].tvdbId == s.tvdbId || db.series[i].slug == s.slug || db.series[i].path == s.path);
    case _ =>
  }

  ghost predicate SeriesAlike(a: Series, b: Series) {
    a.tvdbId == b.tvdbId || a.slug == b.slug || a.path == b.path
  }
}
