/** One-shot migration from an existing Sonarr database: rows are created in
    topological order while maps from source ids to destination ids are built. */
module Migrate {
  import opened Options

  // ----- the source database -----

  datatype SourceSeries = SourceSeries(id: nat, tvdbId: int, title: string, slug: string, path: string)
  datatype SourceSeason = SourceSeason(id: nat, seriesId: nat, season: int, monitored: bool)
  datatype SourceFile = SourceFile(id: nat, seriesId: nat, season: int, path: string, size: int)
  datatype SourceEpisode =
    SourceEpisode(id: nat, seriesId: nat, season: int, number: int, title: string, fileId: Option<nat>)
  datatype SourceHistory = SourceHistory(id: nat, seriesId: nat, episodeId: nat, title: string)

  datatype Source = Source(
    series: seq<SourceSeries>,
    seasons: seq<SourceSeason>,
    files: seq<SourceFile>,
    episodes: seq<SourceEpisode>,
    history: seq<SourceHistory>)

  /** Ids are primary keys of their tables. */
  ghost predicate ValidSource(src: Source) {
    && (forall i, j :: 0 <= i < j < |src.series| ==> src.series[i].id != src.series[j].id)
    && (forall i, j :: 0 <= i < j < |src.files| ==> src.files[i].id != src.files[j].id)
    && (forall i, j :: 0 <= i < j < |src.episodes| ==> src.episodes[i].id != src.episodes[j].id)
    && (forall i, j :: 0 <= i < j < |src.history| ==> src.history[i].id != src.history[j].id)
  }

  // ----- the destination rows -----

  datatype Series = Series(tvdbId: int, title: string, slug: string, path: string)
  datatype Season = Season(seriesId: nat, season: int)
  datatype File = File(seriesId: nat, season: int, path: string, size: int)
  datatype Episode = Episode(seriesId: nat, season: int, number: int, title: string, fileId: Option<nat>)
  datatype History = History(seriesId: nat, episodeId: nat, title: string)

  // ----- path remapping -----

  datatype Remap = Remap(prefix: string, replacement: string)

  /** The first remap whose old prefix the path has replaces that prefix. */
  function RemapPath(remaps: seq<Remap>, path: string): string {
    if remaps == [] then path
    else if remaps[0].prefix <= path then remaps[0].replacement + path[|remaps[0].prefix|..]
    else RemapPath(remaps[1..], path)
  }

  /** Only the prefix named by the earliest applicable remap changes. */
  lemma {:induction false} RemapIsFirstMatch(remaps: seq<Remap>, path: string, i: nat, rest: string)
    requires i < |remaps| && path == remaps[i].prefix + rest
    requires forall j :: 0 <= j < i ==> !(remaps[j].prefix <= path)
    ensures RemapPath(remaps, path) == remaps[i].replacement + rest
  {
    if i > 0 {
      assert remaps[1..][i - 1] == remaps[i];
      RemapIsFirstMatch(remaps[1..], path, i - 1, rest);
    }
  }

  lemma {:induction false} RemapLeavesOthers(remaps: seq<Remap>, path: string)
    requires forall r :: r in remaps ==> !(r.prefix <= path)
    ensures RemapPath(remaps, path) == path
  {
    if remaps != [] {
      RemapLeavesOthers(remaps[1..], path);
    }
  }

  // ----- images: what each source row should become, None if a parent is missing -----

  function SeriesImages(src: seq<SourceSeries>, remaps: seq<Remap>): seq<Option<Series>> {
    seq(|src|, i requires 0 <= i < |src| =>
      Some(Series(src[i].tvdbId, src[i].title, src[i].slug, RemapPath(remaps, src[i].path))))
  }

  function FileImages(src: seq<SourceFile>, seriesMap: map<nat, nat>): seq<Option<File>> {
    seq(|src|, i requires 0 <= i < |src| =>
      if src[i].seriesId !in seriesMap then None
      else Some(File(seriesMap[src[i].seriesId], src[i].season, src[i].path, src[i].size)))
  }

  /** The image of a file link: the mapped file, or none if the file was not migrated. */
  function LinkImage(fileMap: map<nat, nat>, link: Option<nat>): Option<nat> {
    if link.Some? && link.value in fileMap then Some(fileMap[link.value]) else None
  }

  function EpisodeImages(src: seq<SourceEpisode>, seriesMap: map<nat, nat>, fileMap: map<nat, nat>): seq<Option<Episode>> {
    seq(|src|, i requires 0 <= i < |src| =>
      if src[i].seriesId !in seriesMap then None
      else Some(Episode(seriesMap[src[i].seriesId], src[i].season, src[i].number, src[i].title,
                        LinkImage(fileMap, src[i].fileId))))
  }

  function HistoryImages(src: seq<SourceHistory>, seriesMap: map<nat, nat>, episodeMap: map<nat, nat>): seq<Option<History>> {
    seq(|src|, i requires 0 <= i < |src| =>
      if src[i].seriesId !in seriesMap || src[i].episodeId !in episodeMap then None
      else Some(History(seriesMap[src[i].seriesId], episodeMap[src[i].episodeId], src[i].title)))
  }

  function SeriesIds(src: seq<SourceSeries>): seq<nat> {
    seq(|src|, i requires 0 <= i < |src| => src[i].id)
  }

  function FileIds(src: seq<SourceFile>): seq<nat> {
    seq(|src|, i requires 0 <= i < |src| => src[i].id)
  }

  function EpisodeIds(src: seq<SourceEpisode>): seq<nat> {
    seq(|src|, i requires 0 <= i < |src| => src[i].id)
  }

  function HistoryIds(src: seq<SourceHistory>): seq<nat> {
    seq(|src|, i requires 0 <= i < |src| => src[i].id)
  }

  // ----- migrating one table -----

  /** A destination table; `next` is the id its next row gets. */
  datatype Table<R> = Table(rows: map<nat, R>, next: nat)

  /** A table and the map from source ids to the rows made for them. */
  datatype Migrated<R> = Migrated(m: map<nat, nat>, table: Table<R>)

  /** One row: nothing if it has no image or its create fails, else a new row. */
  function AddRow<R>(p: Migrated<R>, id: nat, image: Option<R>, faults: set<nat>): Migrated<R> {
    if image.None? || id in faults then p
    else Migrated(p.m[id := p.table.next], Table(p.table.rows[p.table.next := image.value], p.table.next + 1))
  }

  /** The first `n` source rows, in order. */
  function AddRows<R>(ids: seq<nat>, images: seq<Option<R>>, faults: set<nat>, n: nat, before: Table<R>): Migrated<R>
    requires n <= |ids| == |images|
  {
    if n == 0 then Migrated(map[], before)
    else AddRow(AddRows(ids, images, faults, n - 1, before), ids[n - 1], images[n - 1], faults)
  }

  ghost predicate Distinct(ids: seq<nat>) {
    forall i, j :: 0 <= i < j < |ids| ==> ids[i] != ids[j]
  }

  ghost predicate Injective(m: map<nat, nat>) {
    forall a, b {:trigger m[a], m[b]} :: a in m && b in m && m[a] == m[b] ==> a == b
  }

  ghost predicate HasFreshId<R>(t: Table<R>) {
    forall k :: k in t.rows ==> k < t.next
  }

  /** Old rows are untouched and no rows but the mapped ones are new. */
  ghost predicate Extends<R>(before: Table<R>, p: Migrated<R>) {
    && HasFreshId(p.table) && before.next <= p.table.next && |p.table.rows| == |before.rows| + |p.m|
    && forall k {:trigger before.rows[k]} :: k in before.rows ==> k in p.table.rows && p.table.rows[k] == before.rows[k]
  }

  /** The source rows in the map have been migrated injectively, to new rows. */
  ghost predicate MapsToNewRows<R>(ids: seq<nat>, n: nat, before: Table<R>, p: Migrated<R>)
    requires n <= |ids|
  {
    && Injective(p.m)
    && forall k {:trigger p.m[k]} :: k in p.m ==> k in ids[..n] && before.next <= p.m[k] && p.m[k] in p.table.rows
  }

  /** Of the first `n` source rows exactly those that have an image and are not in
      `faults` have been migrated, each to its image. */
  ghost predicate MapsToImages<R>(ids: seq<nat>, images: seq<Option<R>>, faults: set<nat>, n: nat, p: Migrated<R>)
    requires n <= |ids| == |images|
  {
    forall i {:trigger images[i]} :: 0 <= i < n ==>
      && (ids[i] in p.m <==> images[i].Some? && ids[i] !in faults)
      && (ids[i] in p.m ==> p.m[ids[i]] in p.table.rows && images[i] == Some(p.table.rows[p.m[ids[i]]]))
  }

  /** A partial embedding of the source table into the new rows of the destination. */
  ghost predicate Embedded<R>(ids: seq<nat>, images: seq<Option<R>>, faults: set<nat>, before: Table<R>, p: Migrated<R>)
    requires |ids| == |images|
  {
    && Extends(before, p)
    && MapsToNewRows(ids, |ids|, before, p)
    && MapsToImages(ids, images, faults, |ids|, p)
  }

  lemma {:induction false} RowIsNew<R>(ids: seq<nat>, images: seq<Option<R>>, faults: set<nat>, n: nat, before: Table<R>, k: nat)
    requires Distinct(ids) && n <= k < |ids| == |images|
    ensures ids[k] !in AddRows(ids, images, faults, n, before).m
  {
    if n > 0 {
      RowIsNew(ids, images, faults, n - 1, before, k);
    }
  }

  lemma AddRowMapsToNewRows<R>(ids: seq<nat>, n: nat, before: Table<R>, p: Migrated<R>, image: Option<R>, faults: set<nat>)
    requires 0 < n <= |ids| && ids[n - 1] !in p.m && Extends(before, p) && MapsToNewRows(ids, n - 1, before, p)
    ensures Extends(before, AddRow(p, ids[n - 1], image, faults))
    ensures MapsToNewRows(ids, n, before, AddRow(p, ids[n - 1], image, faults))
  {
    assert ids[..n] == ids[..n - 1] + [ids[n - 1]];
  }

  lemma AddRowMapsToImages<R>(ids: seq<nat>, images: seq<Option<R>>, faults: set<nat>, n: nat, p: Migrated<R>)
    requires Distinct(ids) && 0 < n <= |ids| == |images| && ids[n - 1] !in p.m && HasFreshId(p.table)
    requires MapsToImages(ids, images, faults, n - 1, p)
    ensures MapsToImages(ids, images, faults, n, AddRow(p, ids[n - 1], images[n - 1], faults))
  {
    var q := AddRow(p, ids[n - 1], images[n - 1], faults);
    forall i {:trigger images[i]} | 0 <= i < n
      ensures ids[i] in q.m <==> images[i].Some? && ids[i] !in faults
      ensures ids[i] in q.m ==> q.m[ids[i]] in q.table.rows && images[i] == Some(q.table.rows[q.m[ids[i]]])
    {
      if i < n - 1 {
        assert ids[i] != ids[n - 1];
      }
    }
  }

  lemma {:induction false} AddRowsMapsToNewRows<R>(ids: seq<nat>, images: seq<Option<R>>, faults: set<nat>, n: nat, before: Table<R>)
    requires Distinct(ids) && n <= |ids| == |images| && HasFreshId(before)
    ensures Extends(before, AddRows(ids, images, faults, n, before))
    ensures MapsToNewRows(ids, n, before, AddRows(ids, images, faults, n, before))
  {
    if n > 0 {
      var p := AddRows(ids, images, faults, n - 1, before);
      AddRowsMapsToNewRows(ids, images, faults, n - 1, before);
      RowIsNew(ids, images, faults, n - 1, before, n - 1);
      AddRowMapsToNewRows(ids, n, before, p, images[n - 1], faults);
    }
  }

  lemma {:induction false} AddRowsMapsToImages<R>(ids: seq<nat>, images: seq<Option<R>>, faults: set<nat>, n: nat, before: Table<R>)
    requires Distinct(ids) && n <= |ids| == |images| && HasFreshId(before)
    ensures MapsToImages(ids, images, faults, n, AddRows(ids, images, faults, n, before))
  {
    if n > 0 {
      var p := AddRows(ids, images, faults, n - 1, before);
      AddRowsMapsToImages(ids, images, faults, n - 1, before);
      assert HasFreshId(p.table) by {
        AddRowsMapsToNewRows(ids, images, faults, n - 1, before);
      }
      RowIsNew(ids, images, faults, n - 1, before, n - 1);
      AddRowMapsToImages(ids, images, faults, n, p);
    }
  }

  /** Adding rows in order makes a partial embedding. */
  lemma AddRowsEmbeds<R>(ids: seq<nat>, images: seq<Option<R>>, faults: set<nat>, before: Table<R>)
    requires Distinct(ids) && |ids| == |images| && HasFreshId(before)
    ensures Embedded(ids, images, faults, before, AddRows(ids, images, faults, |ids|, before))
  {
    AddRowsMapsToNewRows(ids, images, faults, |ids|, before);
    AddRowsMapsToImages(ids, images, faults, |ids|, before);
  }

  /** How many source rows have no image. */
  function Missing<R>(images: seq<Option<R>>): nat {
    if images == [] then 0
    else Missing(images[..|images| - 1]) + if images[|images| - 1].None? then 1 else 0
  }

  lemma MissingStep<R>(images: seq<Option<R>>, n: nat)
    requires n < |images|
    ensures Missing(images[..n + 1]) == Missing(images[..n]) + if images[n].None? then 1 else 0
  {
    assert images[..n + 1][..n] == images[..n];
  }

  /** What the first `n` season rows leave in the row `k`: the flag of the last one that
      is mapped onto it and does not fail. */
  function LastWrite(src: seq<SourceSeason>, n: nat, seriesMap: map<nat, nat>, faults: set<nat>, k: Season): Option<bool>
    requires n <= |src|
  {
    if n == 0 then None
    else
      var s := src[n - 1];
      if s.seriesId in seriesMap && s.id !in faults && k == Season(seriesMap[s.seriesId], s.season) then Some(s.monitored)
      else LastWrite(src, n - 1, seriesMap, faults, k)
  }

  /** How many of the first `n` season rows are written. */
  function Upserts(src: seq<SourceSeason>, n: nat, seriesMap: map<nat, nat>, faults: set<nat>): nat
    requires n <= |src|
  {
    if n == 0 then 0
    else
      Upserts(src, n - 1, seriesMap, faults)
      + if src[n - 1].seriesId in seriesMap && src[n - 1].id !in faults then 1 else 0
  }

  /** A season row holds what was last written to it, and otherwise what it held before. */
  ghost predicate SeasonsEmbedded(src: seq<SourceSeason>, n: nat, seriesMap: map<nat, nat>, faults: set<nat>,
                                  before: map<Season, bool>, rows: map<Season, bool>)
    requires n <= |src|
  {
    forall k {:trigger rows[k]} {:trigger k in rows} ::
      var w := LastWrite(src, n, seriesMap, faults, k);
      && (k in rows <==> w.Some? || k in before)
      && (k in rows ==> rows[k] == if w.Some? then w.value else before[k])
  }

  // ----- the migrator -----

  datatype Dest = Dest(
    series: Table<Series>, seasons: map<Season, bool>, files: Table<File>, episodes: Table<Episode>, history: Table<History>)

  /** From source ids to destination ids.  `history` is kept for the proof only: the
      program needs no map for the last table. */
  datatype IdMaps = IdMaps(series: map<nat, nat>, files: map<nat, nat>, episodes: map<nat, nat>, history: map<nat, nat>)

  const NO_IDS := IdMaps(map[], map[], map[], map[])

  /** The source rows whose create or upsert in the destination returns an error. */
  datatype Faults = Faults(series: set<nat>, seasons: set<nat>, files: set<nat>, episodes: set<nat>, history: set<nat>)

  datatype Report = Report(series: nat, seasons: nat, files: nat, episodes: nat, history: nat, warnings: nat)

  ghost predicate HasFreshIds(d: Dest) {
    HasFreshId(d.series) && HasFreshId(d.files) && HasFreshId(d.episodes) && HasFreshId(d.history)
  }

  /** The destination is a partial embedding of the source: every map is injective and
      leads to rows the run created, every migrated row is the image of its source row,
      parents and links mapped with it, and a row is missing exactly when its own create
      failed or a parent is missing. */
  ghost predicate IsEmbedding(src: Source, faults: Faults, remaps: seq<Remap>, m: IdMaps, before: Dest, d: Dest) {
    && Embedded(SeriesIds(src.series), SeriesImages(src.series, remaps), faults.series, before.series, Migrated(m.series, d.series))
    && SeasonsEmbedded(src.seasons, |src.seasons|, m.series, faults.seasons, before.seasons, d.seasons)
    && Embedded(FileIds(src.files), FileImages(src.files, m.series), faults.files, before.files, Migrated(m.files, d.files))
    && Embedded(EpisodeIds(src.episodes), EpisodeImages(src.episodes, m.series, m.files), faults.episodes,
                before.episodes, Migrated(m.episodes, d.episodes))
    && Embedded(HistoryIds(src.history), HistoryImages(src.history, m.series, m.episodes), faults.history,
                before.history, Migrated(m.history, d.history))
  }

  /** Tables filled row by row, parents first, form an embedding. */
  lemma TablesEmbed(src: Source, faults: Faults, remaps: seq<Remap>, m: IdMaps, before: Dest, d: Dest)
    requires ValidSource(src) && HasFreshIds(before)
    requires Migrated(m.series, d.series)
          == AddRows(SeriesIds(src.series), SeriesImages(src.series, remaps), faults.series, |src.series|, before.series)
    requires SeasonsEmbedded(src.seasons, |src.seasons|, m.series, faults.seasons, before.seasons, d.seasons)
    requires Migrated(m.files, d.files)
          == AddRows(FileIds(src.files), FileImages(src.files, m.series), faults.files, |src.files|, before.files)
    requires Migrated(m.episodes, d.episodes)
          == AddRows(EpisodeIds(src.episodes), EpisodeImages(src.episodes, m.series, m.files), faults.episodes,
                     |src.episodes|, before.episodes)
    requires Migrated(m.history, d.history)
          == AddRows(HistoryIds(src.history), HistoryImages(src.history, m.series, m.episodes), faults.history,
                     |src.history|, before.history)
    ensures IsEmbedding(src, faults, remaps, m, before, d)
  {
    AddRowsEmbeds(SeriesIds(src.series), SeriesImages(src.series, remaps), faults.series, before.series);
    AddRowsEmbeds(FileIds(src.files), FileImages(src.files, m.series), faults.files, before.files);
    AddRowsEmbeds(EpisodeIds(src.episodes), EpisodeImages(src.episodes, m.series, m.files), faults.episodes,
                  before.episodes);
    AddRowsEmbeds(HistoryIds(src.history), HistoryImages(src.history, m.series, m.episodes), faults.history,
                  before.history);
  }

  class Migrator {
    const remaps: seq<Remap>
    const dryRun: bool
    const skipHistory: bool
    const faults: Faults
    var maps: IdMaps
    var dest: Dest

    constructor (remaps: seq<Remap>, dryRun: bool, skipHistory: bool, faults: Faults, dest: Dest)
      ensures maps == NO_IDS && this.dest == dest && this.faults == faults
      ensures this.remaps == remaps && this.dryRun == dryRun && this.skipHistory == skipHistory
    {
      this.remaps, this.dryRun, this.skipHistory, this.faults := remaps, dryRun, skipHistory, faults;
      this.maps, this.dest := NO_IDS, dest;
    }

    /** Every series whose create succeeds becomes its image; a create that fails is
        skipped. */
    method MigrateSeries(src: seq<SourceSeries>) returns (count: nat)
      requires Distinct(SeriesIds(src)) && maps.series == map[]
      modifies this
      ensures maps == old(maps).(series := maps.series) && dest == old(dest).(series := dest.series)
      ensures !dryRun ==>
        Migrated(maps.series, dest.series)
        == AddRows(SeriesIds(src), SeriesImages(src, remaps),
                   faults.series, |src|, old(dest).series)
      ensures !dryRun ==> count == |maps.series|
      ensures dryRun ==> count == |src| && maps == old(maps) && dest == old(dest)
    {
      if dryRun {
        return |src|;
      }
      count := 0;
      ghost var ids, images, before := SeriesIds(src), SeriesImages(src, remaps), dest.series;
      for n := 0 to |src|
        invariant maps == old(maps).(series := maps.series) && dest == old(dest).(series := dest.series)
        invariant Migrated(maps.series, dest.series) == AddRows(ids, images, faults.series, n, before)
        invariant count == |maps.series|
      {
        var s, t := src[n], dest.series;
        RowIsNew(ids, images, faults.series, n, before, n);
        if s.id !in faults.series {
          var row := Series(s.tvdbId, s.title, s.slug, RemapPath(remaps, s.path));
          dest := dest.(series := Table(t.rows[t.next := row], t.next + 1));
          maps := maps.(series := maps.series[s.id := t.next]);
          count := count + 1;
        }
      }
    }

    method MigrateSeasons(src: seq<SourceSeason>) returns (count: nat)
      modifies this
      ensures maps == old(maps) && dest == old(dest).(seasons := dest.seasons)
      ensures !dryRun ==> SeasonsEmbedded(src, |src|, maps.series, faults.seasons, old(dest).seasons, dest.seasons)
      ensures !dryRun ==> count == Upserts(src, |src|, maps.series, faults.seasons)
      ensures dryRun ==> count == |src| && dest == old(dest)
    {
      if dryRun {
        return |src|;
      }
      count := 0;
      for n := 0 to |src|
        invariant maps == old(maps) && dest == old(dest).(seasons := dest.seasons)
        invariant SeasonsEmbedded(src, n, maps.series, faults.seasons, old(dest).seasons, dest.seasons)
        invariant count == Upserts(src, n, maps.series, faults.seasons)
      {
        var s := src[n];
        if s.seriesId in maps.series && s.id !in faults.seasons {
          dest := dest.(seasons := dest.seasons[Season(maps.series[s.seriesId], s.season) := s.monitored]);
          count := count + 1;
        }
      }
    }

    method MigrateFiles(src: seq<SourceFile>) returns (count: nat)
      requires Distinct(FileIds(src)) && maps.files == map[]
      modifies this
      ensures maps == old(maps).(files := maps.files) && dest == old(dest).(files := dest.files)
      ensures !dryRun ==>
        Migrated(maps.files, dest.files)
        == AddRows(FileIds(src), FileImages(src, maps.series),
                   faults.files, |src|, old(dest).files)
      ensures !dryRun ==> count == |maps.files|
      ensures dryRun ==> count == |src| && maps == old(maps) && dest == old(dest)
    {
      if dryRun {
        return |src|;
      }
      count := 0;
      ghost var ids, images, before := FileIds(src), FileImages(src, maps.series), dest.files;
      for n := 0 to |src|
        invariant maps == old(maps).(files := maps.files) && dest == old(dest).(files := dest.files)
        invariant Migrated(maps.files, dest.files) == AddRows(ids, images, faults.files, n, before)
        invariant count == |maps.files|
      {
        var f, t := src[n], dest.files;
        RowIsNew(ids, images, faults.files, n, before, n);
        if f.seriesId in maps.series && f.id !in faults.files {
          var row := File(maps.series[f.seriesId], f.season, f.path, f.size);
          dest := dest.(files := Table(t.rows[t.next := row], t.next + 1));
          maps := maps.(files := maps.files[f.id := t.next]);
          count := count + 1;
        }
      }
    }

    method MigrateEpisodes(src: seq<SourceEpisode>) returns (count: nat)
      requires Distinct(EpisodeIds(src)) && maps.episodes == map[]
      modifies this
      ensures maps == old(maps).(episodes := maps.episodes) && dest == old(dest).(episodes := dest.episodes)
      ensures !dryRun ==>
        Migrated(maps.episodes, dest.episodes)
        == AddRows(EpisodeIds(src), EpisodeImages(src, maps.series, maps.files),
                   faults.episodes, |src|, old(dest).episodes)
      ensures !dryRun ==> count == |maps.episodes|
      ensures dryRun ==> count == |src| && maps == old(maps) && dest == old(dest)
    {
      if dryRun {
        return |src|;
      }
      count := 0;
      ghost var ids, images, before := EpisodeIds(src), EpisodeImages(src, maps.series, maps.files), dest.episodes;
      for n := 0 to |src|
        invariant maps == old(maps).(episodes := maps.episodes) && dest == old(dest).(episodes := dest.episodes)
        invariant Migrated(maps.episodes, dest.episodes) == AddRows(ids, images, faults.episodes, n, before)
        invariant count == |maps.episodes|
      {
        var e, t := src[n], dest.episodes;
        RowIsNew(ids, images, faults.episodes, n, before, n);
        if e.seriesId in maps.series && e.id !in faults.episodes {
          var link := LinkImage(maps.files, e.fileId);
          var row := Episode(maps.series[e.seriesId], e.season, e.number, e.title, link);
          dest := dest.(episodes := Table(t.rows[t.next := row], t.next + 1));
          maps := maps.(episodes := maps.episodes[e.id := t.next]);
          count := count + 1;
        }
      }
    }

    /** An entry is skipped with a warning when its series or episode was not migrated, and
        without one when its own create fails. */
    method MigrateHistory(src: seq<SourceHistory>) returns (count: nat, warnings: nat)
      requires Distinct(HistoryIds(src)) && maps.history == map[]
      modifies this
      ensures maps == old(maps).(history := maps.history) && dest == old(dest).(history := dest.history)
      ensures !dryRun ==>
        Migrated(maps.history, dest.history)
        == AddRows(HistoryIds(src), HistoryImages(src, maps.series, maps.episodes),
                   faults.history, |src|, old(dest).history)
      ensures !dryRun ==> count == |maps.history| && warnings == Missing(HistoryImages(src, maps.series, maps.episodes))
      ensures dryRun ==> count == |src| && maps == old(maps) && dest == old(dest) && warnings == 0
    {
      if dryRun {
        return |src|, 0;
      }
      count, warnings := 0, 0;
      ghost var ids, images, before := HistoryIds(src), HistoryImages(src, maps.series, maps.episodes), dest.history;
      for n := 0 to |src|
        invariant maps == old(maps).(history := maps.history) && dest == old(dest).(history := dest.history)
        invariant Migrated(maps.history, dest.history) == AddRows(ids, images, faults.history, n, before)
        invariant count == |maps.history|
        invariant warnings == Missing(images[..n])
      {
        var h, t := src[n], dest.history;
        RowIsNew(ids, images, faults.history, n, before, n);
        MissingStep(images, n);
        if h.seriesId !in maps.series || h.episodeId !in maps.episodes {
          warnings := warnings + 1;
        } else if h.id !in faults.history {
          var row := History(maps.series[h.seriesId], maps.episodes[h.episodeId], h.title);
          dest := dest.(history := Table(t.rows[t.next := row], t.next + 1));
          maps := maps.(history := maps.history[h.id := t.next]);
          count := count + 1;
        }
      }
      assert images[..|src|] == images;
    }

    /** The whole migration, parents before children, into a destination that may already
        hold rows: a partial embedding, counted exactly.  A dry run changes nothing, and
        without history the rest is migrated as if there were none. */
    method Run(src: Source) returns (report: Report)
      requires ValidSource(src) && HasFreshIds(dest) && maps == NO_IDS
      modifies this
      ensures HasFreshIds(dest)
      ensures !dryRun ==>
        IsEmbedding(if skipHistory then src.(history := []) else src, faults, remaps, maps, old(dest), dest)
      ensures !dryRun ==> report.series == |maps.series| && report.files == |maps.files|
                          && report.episodes == |maps.episodes| && report.history == |maps.history|
                          && report.seasons == Upserts(src.seasons, |src.seasons|, maps.series, faults.seasons)
      ensures !dryRun && !skipHistory ==> report.warnings == Missing(HistoryImages(src.history, maps.series, maps.episodes))
      ensures dryRun ==> dest == old(dest) && maps == NO_IDS
      ensures dryRun ==> report == Report(|src.series|, |src.seasons|, |src.files|, |src.episodes|,
                                          if skipHistory then 0 else |src.history|, 0)
    {
      var a := MigrateSeries(src.series);
      var b := MigrateSeasons(src.seasons);
      var c := MigrateFiles(src.files);
      var d := MigrateEpisodes(src.episodes);
      var e, w := 0, 0;
      if !skipHistory {
        e, w := MigrateHistory(src.history);
      }
      report := Report(a, b, c, d, e, w);
      ghost var done := if skipHistory then src.(history := []) else src;
      if !dryRun {
        TablesEmbed(done, faults, remaps, maps, old(dest), dest);
      }
    }
  }

  // ----- what the embedding gives -----

  /** A migrated file and a migrated episode belong to one destination series exactly
      when their source rows belonged to one source series. */
  lemma SharedSeriesIff(src: Source, faults: Faults, remaps: seq<Remap>, m: IdMaps, before: Dest, d: Dest, i: nat, j: nat)
    requires IsEmbedding(src, faults, remaps, m, before, d)
    requires i < |src.files| && src.files[i].id in m.files && j < |src.episodes| && src.episodes[j].id in m.episodes
    ensures m.files[src.files[i].id] in d.files.rows && m.episodes[src.episodes[j].id] in d.episodes.rows
    ensures d.files.rows[m.files[src.files[i].id]].seriesId == d.episodes.rows[m.episodes[src.episodes[j].id]].seriesId
       <==> src.files[i].seriesId == src.episodes[j].seriesId
  {
    var f, e := src.files[i], src.episodes[j];
    assert FileIds(src.files)[i] == f.id && EpisodeIds(src.episodes)[j] == e.id;
    assert Some(d.files.rows[m.files[f.id]]) == FileImages(src.files, m.series)[i];
    assert Some(d.episodes.rows[m.episodes[e.id]]) == EpisodeImages(src.episodes, m.series, m.files)[j];
  }

  /** A migrated episode links to the image of a migrated file exactly when its source
      row linked to that file, and it never links to anything else. */
  lemma LinksAreImages(src: Source, faults: Faults, remaps: seq<Remap>, m: IdMaps, before: Dest, d: Dest, i: nat, j: nat)
    requires IsEmbedding(src, faults, remaps, m, before, d)
    requires i < |src.files| && src.files[i].id in m.files && j < |src.episodes| && src.episodes[j].id in m.episodes
    ensures m.episodes[src.episodes[j].id] in d.episodes.rows
    ensures d.episodes.rows[m.episodes[src.episodes[j].id]].fileId == Some(m.files[src.files[i].id])
       <==> src.episodes[j].fileId == Some(src.files[i].id)
    ensures d.episodes.rows[m.episodes[src.episodes[j].id]].fileId.Some? ==>
      src.episodes[j].fileId.Some? && src.episodes[j].fileId.value in m.files
  {
    var e := src.episodes[j];
    assert EpisodeIds(src.episodes)[j] == e.id;
    assert Some(d.episodes.rows[m.episodes[e.id]]) == EpisodeImages(src.episodes, m.series, m.files)[j];
  }

  /** A migrated history entry names the images of its source entry's series and
      episode. */
  lemma HistoryPointsToImages(src: Source, faults: Faults, remaps: seq<Remap>, m: IdMaps, before: Dest, d: Dest, i: nat)
    requires IsEmbedding(src, faults, remaps, m, before, d)
    requires i < |src.history| && src.history[i].id in m.history
    ensures src.history[i].seriesId in m.series && src.history[i].episodeId in m.episodes
    ensures m.history[src.history[i].id] in d.history.rows
    ensures d.history.rows[m.history[src.history[i].id]]
         == History(m.series[src.history[i].seriesId], m.episodes[src.history[i].episodeId], src.history[i].title)
  {
    assert HistoryIds(src.history)[i] == src.history[i].id;
    assert Some(d.history.rows[m.history[src.history[i].id]]) == HistoryImages(src.history, m.series, m.episodes)[i];
  }

  // ----- columns -----

  /** Remap `i` is the first whose old prefix the path has. */
  ghost predicate IsFirstRemap(remaps: seq<Remap>, path: string, i: nat) {
    i < |remaps| && remaps[i].prefix <= path && forall j :: 0 <= j < i ==> !(remaps[j].prefix <= path)
  }

  /** Where a path goes: its first applicable remap replaces the old prefix and keeps the
      rest; without one it stays. */
  ghost predicate IsRemapped(remaps: seq<Remap>, path: string, result: string) {
    || (exists i: nat :: IsFirstRemap(remaps, path, i) && result == remaps[i].replacement + path[|remaps[i].prefix|..])
    || (result == path && forall r :: r in remaps ==> !(r.prefix <= path))
  }

  lemma RemapIsRemapped(remaps: seq<Remap>, path: string)
    ensures IsRemapped(remaps, path, RemapPath(remaps, path))
  {
    if r :| r in remaps && r.prefix <= path {
      var i := SomeFirstRemap(remaps, path);
      var rest := path[|remaps[i].prefix|..];
      assert path == remaps[i].prefix + rest;
      RemapIsFirstMatch(remaps, path, i, rest);
    } else {
      RemapLeavesOthers(remaps, path);
    }
  }

  lemma SomeFirstRemap(remaps: seq<Remap>, path: string) returns (i: nat)
    requires exists r :: r in remaps && r.prefix <= path
    ensures IsFirstRemap(remaps, path, i)
  {
    i := 0;
    while i < |remaps| && !(remaps[i].prefix <= path)
      invariant i <= |remaps| && forall j :: 0 <= j < i ==> !(remaps[j].prefix <= path)
    {
      i := i + 1;
    }
  }

  /** A migrated series keeps its id in the television database, title and slug, and has
      its path remapped. */
  lemma SeriesKeepsColumns(src: Source, faults: Faults, remaps: seq<Remap>, m: IdMaps, before: Dest, d: Dest, i: nat)
    requires IsEmbedding(src, faults, remaps, m, before, d) && i < |src.series| && src.series[i].id in m.series
    ensures m.series[src.series[i].id] in d.series.rows
    ensures var s, row := src.series[i], d.series.rows[m.series[src.series[i].id]];
      row.tvdbId == s.tvdbId && row.title == s.title && row.slug == s.slug && IsRemapped(remaps, s.path, row.path)
  {
    var s := src.series[i];
    assert SeriesIds(src.series)[i] == s.id;
    assert Some(d.series.rows[m.series[s.id]]) == SeriesImages(src.series, remaps)[i];
    RemapIsRemapped(remaps, s.path);
  }

  /** A migrated file keeps season, path and size, under its series' image. */
  lemma FileKeepsColumns(src: Source, faults: Faults, remaps: seq<Remap>, m: IdMaps, before: Dest, d: Dest, i: nat)
    requires IsEmbedding(src, faults, remaps, m, before, d) && i < |src.files| && src.files[i].id in m.files
    ensures src.files[i].seriesId in m.series && m.files[src.files[i].id] in d.files.rows
    ensures var f, row := src.files[i], d.files.rows[m.files[src.files[i].id]];
      row.seriesId == m.series[f.seriesId] && row.season == f.season && row.path == f.path && row.size == f.size
  {
    assert FileIds(src.files)[i] == src.files[i].id;
    assert Some(d.files.rows[m.files[src.files[i].id]]) == FileImages(src.files, m.series)[i];
  }

  /** A migrated episode keeps season, number and title, under its series' image. */
  lemma EpisodeKeepsColumns(src: Source, faults: Faults, remaps: seq<Remap>, m: IdMaps, before: Dest, d: Dest, i: nat)
    requires IsEmbedding(src, faults, remaps, m, before, d) && i < |src.episodes| && src.episodes[i].id in m.episodes
    ensures src.episodes[i].seriesId in m.series && m.episodes[src.episodes[i].id] in d.episodes.rows
    ensures var e, row := src.episodes[i], d.episodes.rows[m.episodes[src.episodes[i].id]];
      row.seriesId == m.series[e.seriesId] && row.season == e.season && row.number == e.number && row.title == e.title
  {
    assert EpisodeIds(src.episodes)[i] == src.episodes[i].id;
    assert Some(d.episodes.rows[m.episodes[src.episodes[i].id]]) == EpisodeImages(src.episodes, m.series, m.files)[i];
  }

  /** A season row holds the flag of the last source row that is mapped onto it and written,
      and without one what it held before. */
  lemma SeasonHoldsLastFlag(src: Source, faults: Faults, remaps: seq<Remap>, m: IdMaps, before: Dest, d: Dest, i: nat)
    requires IsEmbedding(src, faults, remaps, m, before, d) && i < |src.seasons|
    requires WritesSeason(src.seasons, m.series, faults.seasons, i)
    requires forall j :: i < j < |src.seasons| && WritesSeason(src.seasons, m.series, faults.seasons, j) ==>
               SeasonOf(src.seasons, m.series, j) != SeasonOf(src.seasons, m.series, i)
    ensures SeasonOf(src.seasons, m.series, i) in d.seasons
    ensures d.seasons[SeasonOf(src.seasons, m.series, i)] == src.seasons[i].monitored
  {
    LastWriteIsLast(src.seasons, |src.seasons|, m.series, faults.seasons, i);
    assert LastWrite(src.seasons, |src.seasons|, m.series, faults.seasons, SeasonOf(src.seasons, m.series, i)).Some?;
  }

  ghost predicate WritesSeason(src: seq<SourceSeason>, seriesMap: map<nat, nat>, faults: set<nat>, i: int) {
    0 <= i < |src| && src[i].seriesId in seriesMap && src[i].id !in faults
  }

  ghost function SeasonOf(src: seq<SourceSeason>, seriesMap: map<nat, nat>, i: int): Season
    requires 0 <= i < |src| && src[i].seriesId in seriesMap
  {
    Season(seriesMap[src[i].seriesId], src[i].season)
  }

  lemma {:induction false} LastWriteIsLast(src: seq<SourceSeason>, n: nat, seriesMap: map<nat, nat>, faults: set<nat>, i: nat)
    requires i < n <= |src| && WritesSeason(src, seriesMap, faults, i)
    requires forall j :: i < j < n && WritesSeason(src, seriesMap, faults, j) ==>
               SeasonOf(src, seriesMap, j) != SeasonOf(src, seriesMap, i)
    ensures LastWrite(src, n, seriesMap, faults, SeasonOf(src, seriesMap, i)) == Some(src[i].monitored)
  {
    if i < n - 1 {
      LastWriteIsLast(src, n - 1, seriesMap, faults, i);
      assert WritesSeason(src, seriesMap, faults, n - 1) ==> SeasonOf(src, seriesMap, n - 1) != SeasonOf(src, seriesMap, i);
    }
  }

  lemma {:induction false} MissingIsCount<R>(images: seq<Option<R>>)
    ensures Missing(images) == |set i: nat | i < |images| && images[i].None?|
  {
    if images != [] {
      var n := |images| - 1;
      var front := images[..n];
      MissingIsCount(front);
      var before, after := set i: nat | i < n && front[i].None?, set i: nat | i < |images| && images[i].None?;
      assert after == if images[n].None? then before + {n} else before;
    }
  }

  /** The warnings are as many as the entries whose series or episode has no image. */
  lemma WarningsAreCounted(src: seq<SourceHistory>, seriesMap: map<nat, nat>, episodeMap: map<nat, nat>)
    ensures Missing(HistoryImages(src, seriesMap, episodeMap))
         == |set i: nat | i < |src| && (src[i].seriesId !in seriesMap || src[i].episodeId !in episodeMap)|
  {
    var images := HistoryImages(src, seriesMap, episodeMap);
    MissingIsCount(images);
    assert (set i: nat | i < |images| && images[i].None?)
        == set i: nat | i < |src| && (src[i].seriesId !in seriesMap || src[i].episodeId !in episodeMap);
  }
}
