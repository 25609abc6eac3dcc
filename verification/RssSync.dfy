/** The RSS sync pipeline: releases are parsed, matched, evaluated and grouped per
    episode; each group is ranked and its winner grabbed.  The library, the quality
    data and the engine's specs are fixed for the length of a run. */
module RssSync {
  import Collections
  import opened StableSort
  import opened DecisionEngine
  import opened Options

  datatype Release = Release(title: string, size: int, indexer: string, guid: string)

  datatype LibraryEpisode = LibraryEpisode(id: int, season: int, number: int, monitored: bool)

  datatype QualityDef = QualityDef(id: int, name: string, source: string, resolution: string)

  datatype Key = Key(seriesId: int, season: int, episode: int)

  datatype Candidate = Candidate(remote: Remote, release: Release, episodeId: int)

  datatype Offer = Offer(key: Key, candidate: Candidate)

  datatype Grab = Grab(key: Key, release: Release, episodeId: int, qualityName: string)

  /** What a run reads.  Title parsing and format matching are regular expressions in
      sonarr2; any deterministic functions will do here. */
  datatype Env = Env(
    parse: string -> Parsed,
    findSeries: string -> Option<int>,
    episodesOf: int -> seq<LibraryEpisode>,
    formats: seq<CustomFormat>,
    matches: (Parsed, CustomFormat) -> bool,
    defs: seq<QualityDef>,
    specs: seq<Spec>,
    profile: Profile)

  // ----- lookups -----

  function ResolveQualityId(p: Parsed, defs: seq<QualityDef>): int {
    if defs == [] then 0
    else if defs[0].source == p.source && defs[0].resolution == p.resolution then defs[0].id
    else ResolveQualityId(p, defs[1..])
  }

  function QualityName(id: int, defs: seq<QualityDef>): string {
    if defs == [] then "" else if defs[0].id == id then defs[0].name else QualityName(id, defs[1..])
  }

  /** Entry `i` is the first of the listed episodes with this season and number. */
  ghost predicate IsFirstNamed(eps: seq<LibraryEpisode>, season: int, number: int, i: nat) {
    && i < |eps| && eps[i].season == season && eps[i].number == number
    && forall j :: 0 <= j < i ==> eps[j].season != season || eps[j].number != number
  }

  ghost predicate NoneNamed(eps: seq<LibraryEpisode>, season: int, number: int) {
    forall j :: 0 <= j < |eps| ==> eps[j].season != season || eps[j].number != number
  }

  /** The first listed episode with this season and number. */
  method MatchEpisode(eps: seq<LibraryEpisode>, season: int, number: int) returns (found: Option<LibraryEpisode>)
    ensures found == FindEpisode(eps, season, number)
    ensures found.None? ==> NoneNamed(eps, season, number)
    ensures found.Some? ==> exists i: nat :: IsFirstNamed(eps, season, number, i) && found.value == eps[i]
  {
    for i := 0 to |eps|
      invariant forall j :: 0 <= j < i ==> eps[j].season != season || eps[j].number != number
    {
      if eps[i].season == season && eps[i].number == number {
        FirstIsFound(eps, season, number, i);
        return Some(eps[i]);
      }
    }
    NoneIsFound(eps, season, number);
    return None;
  }

  function FindEpisode(eps: seq<LibraryEpisode>, season: int, number: int): Option<LibraryEpisode> {
    if eps == [] then None
    else if eps[0].season == season && eps[0].number == number then Some(eps[0])
    else FindEpisode(eps[1..], season, number)
  }

  lemma {:induction false} FirstIsFound(eps: seq<LibraryEpisode>, season: int, number: int, i: nat)
    requires IsFirstNamed(eps, season, number, i)
    ensures FindEpisode(eps, season, number) == Some(eps[i])
  {
    if i > 0 {
      assert eps[1..][i - 1] == eps[i] && forall j :: 0 <= j < i - 1 ==> eps[1..][j] == eps[j + 1];
      assert eps[0].season != season || eps[0].number != number;
      FirstIsFound(eps[1..], season, number, i - 1);
    }
  }

  lemma {:induction false} NoneIsFound(eps: seq<LibraryEpisode>, season: int, number: int)
    requires NoneNamed(eps, season, number)
    ensures FindEpisode(eps, season, number) == None
  {
    if eps != [] {
      assert eps[0].season != season || eps[0].number != number;
      assert forall j :: 0 <= j < |eps[1..]| ==> eps[1..][j] == eps[j + 1];
      NoneIsFound(eps[1..], season, number);
    }
  }

  lemma {:induction false} FoundIsFirst(eps: seq<LibraryEpisode>, season: int, number: int) returns (i: nat)
    requires FindEpisode(eps, season, number).Some?
    ensures IsFirstNamed(eps, season, number, i) && FindEpisode(eps, season, number) == Some(eps[i])
  {
    if eps[0].season == season && eps[0].number == number {
      i := 0;
    } else {
      var k := FoundIsFirst(eps[1..], season, number);
      i := k + 1;
      assert forall j :: 0 <= j < |eps[1..]| ==> eps[1..][j] == eps[j + 1];
      forall j | 0 <= j < i ensures eps[j].season != season || eps[j].number != number {
        if j > 0 {
          assert eps[1..][j - 1] == eps[j];
        }
      }
    }
  }

  /** `id` is the id of the first definition with the parsed source and resolution, and zero
      if there is none. */
  ghost predicate IsQualityOf(p: Parsed, defs: seq<QualityDef>, id: int) {
    || (exists i :: IsFirstDef(p, defs, i) && id == defs[i].id)
    || (id == 0 && forall d :: d in defs ==> d.source != p.source || d.resolution != p.resolution)
  }

  ghost predicate IsFirstDef(p: Parsed, defs: seq<QualityDef>, i: int) {
    && 0 <= i < |defs| && defs[i].source == p.source && defs[i].resolution == p.resolution
    && forall j :: 0 <= j < i ==> defs[j].source != p.source || defs[j].resolution != p.resolution
  }

  method ResolveQuality(p: Parsed, defs: seq<QualityDef>) returns (id: int)
    ensures id == ResolveQualityId(p, defs) && IsQualityOf(p, defs, id)
  {
    QualityIsResolved(p, defs);
    for i := 0 to |defs|
      invariant ResolveQualityId(p, defs[i..]) == ResolveQualityId(p, defs)
    {
      assert defs[i..][1..] == defs[i + 1..];
      if defs[i].source == p.source && defs[i].resolution == p.resolution {
        return defs[i].id;
      }
    }
    return 0;
  }

  lemma {:induction false} QualityIsResolved(p: Parsed, defs: seq<QualityDef>)
    ensures IsQualityOf(p, defs, ResolveQualityId(p, defs))
  {
    if defs != [] {
      var rest := defs[1..];
      assert forall j :: 0 <= j < |rest| ==> rest[j] == defs[j + 1];
      if defs[0].source == p.source && defs[0].resolution == p.resolution {
        assert IsFirstDef(p, defs, 0);
      } else {
        QualityIsResolved(p, rest);
        if i :| IsFirstDef(p, rest, i) && ResolveQualityId(p, rest) == rest[i].id {
          assert IsFirstDef(p, defs, i + 1);
        } else {
          assert defs == [defs[0]] + rest;
        }
      }
    }
  }

  /** The name of the first definition with this id, or nothing. */
  lemma {:induction false} QualityIsNamed(id: int, defs: seq<QualityDef>)
    ensures || (exists i :: 0 <= i < |defs| && defs[i].id == id && QualityName(id, defs) == defs[i].name
                            && forall j :: 0 <= j < i ==> defs[j].id != id)
            || (QualityName(id, defs) == "" && forall d :: d in defs ==> d.id != id)
  {
    if defs != [] && defs[0].id != id {
      var rest := defs[1..];
      QualityIsNamed(id, rest);
      assert forall j :: 0 <= j < |rest| ==> rest[j] == defs[j + 1];
      if i :| 0 <= i < |rest| && rest[i].id == id && QualityName(id, rest) == rest[i].name
                            && forall j :: 0 <= j < i ==> rest[j].id != id {
        assert defs[i + 1].id == id && forall j :: 0 <= j < i + 1 ==> defs[j].id != id;
      } else {
        assert defs == [defs[0]] + rest;
      }
    }
  }

  function CfScore(env: Env, p: Parsed): int {
    ScoreOf(p, env.formats, env.profile.formatScores, env.matches)
  }

  // ----- which offers a release makes -----

  function MakeRemote(env: Env, rel: Release, seriesId: int, ep: LibraryEpisode): Remote {
    var p := env.parse(rel.title);
    Remote(rel.title, rel.size, rel.indexer, p, seriesId, ep.id, ResolveQualityId(p, env.defs), CfScore(env, p))
  }

  /** The offer of `rel` for episode number `n` of its series and season, if any. */
  function OfferFor(env: Env, rel: Release, n: int): Option<Offer> {
    var p := env.parse(rel.title);
    var series := env.findSeries(p.seriesTitle);
    if p.seriesTitle == "" || series.None? then None
    else
      var ep := FindEpisode(env.episodesOf(series.value), p.season, n);
      if ep.None? || !ep.value.monitored then None
      else
        var remote := MakeRemote(env, rel, series.value, ep.value);
        if Accepted(env.specs, remote, env.profile)
        then Some(Offer(Key(series.value, p.season, n), Candidate(remote, rel, ep.value.id)))
        else None
  }

  function OffersFor(env: Env, rel: Release, numbers: seq<int>): seq<Offer> {
    if numbers == [] then []
    else
      var last := OfferFor(env, rel, numbers[|numbers| - 1]);
      OffersFor(env, rel, numbers[..|numbers| - 1]) + if last.Some? then [last.value] else []
  }

  function AllOffers(env: Env, rels: seq<Release>): seq<Offer> {
    if rels == [] then []
    else
      var last := rels[|rels| - 1];
      AllOffers(env, rels[..|rels| - 1]) + OffersFor(env, last, env.parse(last.title).episodes)
  }

  /** The candidates offered under `key`, in the order they were offered. */
  function GroupOf(offers: seq<Offer>, key: Key): seq<Candidate> {
    if offers == [] then []
    else
      var last := offers[|offers| - 1];
      GroupOf(offers[..|offers| - 1], key) + if last.key == key then [last.candidate] else []
  }

  ghost predicate Grouped(groups: map<Key, seq<Candidate>>, offers: seq<Offer>) {
    && (forall k :: k in groups <==> GroupOf(offers, k) != [])
    && (forall k :: k in groups ==> groups[k] == GroupOf(offers, k))
  }

  lemma GroupOfAppend(offers: seq<Offer>, o: Offer, k: Key)
    ensures GroupOf(offers + [o], k) == GroupOf(offers, k) + if o.key == k then [o.candidate] else []
  {
    assert (offers + [o])[..|offers|] == offers;
  }

  function WithOffer(groups: map<Key, seq<Candidate>>, o: Offer): map<Key, seq<Candidate>> {
    groups[o.key := (if o.key in groups then groups[o.key] else []) + [o.candidate]]
  }

  lemma GroupedAppend(groups: map<Key, seq<Candidate>>, offers: seq<Offer>, o: Offer)
    requires Grouped(groups, offers)
    ensures Grouped(WithOffer(groups, o), offers + [o])
  {
    forall k
      ensures k in WithOffer(groups, o) <==> GroupOf(offers + [o], k) != []
      ensures k in WithOffer(groups, o) ==> WithOffer(groups, o)[k] == GroupOf(offers + [o], k)
    {
      GroupOfAppend(offers, o, k);
    }
  }

  /** The engine's view of a release for an episode: the release's own data, what its title
      parses to, and the score and quality that follow from it. */
  ghost predicate IsRemoteOf(env: Env, rel: Release, seriesId: int, ep: LibraryEpisode, r: Remote) {
    var p := env.parse(rel.title);
    && r.title == rel.title && r.size == rel.size && r.indexer == rel.indexer && r.parsed == p
    && r.seriesId == seriesId && r.episodeId == ep.id
    && IsQualityOf(p, env.defs, r.qualityId) && r.cfScore == CfScore(env, p)
  }

  /** No spec rejects with a reason. */
  ghost predicate PassesAll(specs: seq<Spec>, r: Remote, p: Profile) {
    forall i :: 0 <= i < |specs| ==> (specs[i](r, p).decision.Reject? ==> specs[i](r, p).rejections == [])
  }

  /** What makes an offer: a release of the run whose parsed title names a known series
      and a monitored episode of it, the first listed one of that season and number, and
      which every spec lets pass. */
  ghost predicate Justified(env: Env, rels: seq<Release>, o: Offer) {
    var c, p := o.candidate, env.parse(o.candidate.release.title);
    && c.release in rels && p.seriesTitle != "" && env.findSeries(p.seriesTitle) == Some(o.key.seriesId)
    && o.key.season == p.season && o.key.episode in p.episodes
    && (exists i: nat :: IsOfferedEpisode(env, o, i))
    && PassesAll(env.specs, c.remote, env.profile)
  }

  ghost predicate IsOfferedEpisode(env: Env, o: Offer, i: nat) {
    var eps := env.episodesOf(o.key.seriesId);
    && IsFirstNamed(eps, o.key.season, o.key.episode, i) && eps[i].monitored && eps[i].id == o.candidate.episodeId
    && IsRemoteOf(env, o.candidate.release, o.key.seriesId, eps[i], o.candidate.remote)
  }

  lemma QualityIsUnique(p: Parsed, defs: seq<QualityDef>, a: int, b: int)
    requires IsQualityOf(p, defs, a) && IsQualityOf(p, defs, b)
    ensures a == b
  {
  }

  lemma OfferIsJustified(env: Env, rels: seq<Release>, rel: Release, n: int, o: Offer)
    requires rel in rels && n in env.parse(rel.title).episodes && OfferFor(env, rel, n) == Some(o)
    ensures Justified(env, rels, o)
  {
    var p := env.parse(rel.title);
    var s := env.findSeries(p.seriesTitle).value;
    var i := FoundIsFirst(env.episodesOf(s), p.season, n);
    QualityIsResolved(p, env.defs);
    AcceptsIffNoReasons(env.specs, o.candidate.remote, env.profile);
    assert IsOfferedEpisode(env, o, i);
  }

  /** What is justified is what the release offers for that number. */
  lemma JustifiedIsOffered(env: Env, rels: seq<Release>, o: Offer)
    requires Justified(env, rels, o)
    ensures OfferFor(env, o.candidate.release, o.key.episode) == Some(o)
  {
    var c, p := o.candidate, env.parse(o.candidate.release.title);
    var i: nat :| IsOfferedEpisode(env, o, i);
    var eps := env.episodesOf(o.key.seriesId);
    FirstIsFound(eps, o.key.season, o.key.episode, i);
    QualityIsResolved(p, env.defs);
    QualityIsUnique(p, env.defs, c.remote.qualityId, ResolveQualityId(p, env.defs));
    assert c.remote == MakeRemote(env, c.release, o.key.seriesId, eps[i]);
    AcceptsIffNoReasons(env.specs, c.remote, env.profile);
  }

  lemma {:induction false} OffersForAreJustified(env: Env, rels: seq<Release>, rel: Release, numbers: seq<int>, o: Offer)
    requires rel in rels && o in OffersFor(env, rel, numbers)
    requires forall n :: n in numbers ==> n in env.parse(rel.title).episodes
    ensures Justified(env, rels, o)
  {
    var front := numbers[..|numbers| - 1];
    if o in OffersFor(env, rel, front) {
      OffersForAreJustified(env, rels, rel, front, o);
    } else {
      OfferIsJustified(env, rels, rel, numbers[|numbers| - 1], o);
    }
  }

  /** Every offer of a run is justified. */
  lemma {:induction false} OffersAreJustified(env: Env, rels: seq<Release>, o: Offer)
    requires o in AllOffers(env, rels)
    ensures Justified(env, rels, o)
  {
    var front, last := rels[..|rels| - 1], rels[|rels| - 1];
    if o in AllOffers(env, front) {
      OffersAreJustified(env, front, o);
      assert forall r :: r in front ==> r in rels;
    } else {
      OffersForAreJustified(env, rels, last, env.parse(last.title).episodes, o);
    }
  }

  lemma {:induction false} GroupMembers(offers: seq<Offer>, key: Key, c: Candidate)
    requires c in GroupOf(offers, key)
    ensures Offer(key, c) in offers
  {
    if c in GroupOf(offers[..|offers| - 1], key) {
      GroupMembers(offers[..|offers| - 1], key, c);
    }
  }

  // ----- the winner of a group -----

  function Remotes(cs: seq<Candidate>): seq<Remote> {
    seq(|cs|, i requires 0 <= i < |cs| => cs[i].remote)
  }

  /** Score and quality of a candidate come from its title alone. */
  ghost predicate TitleDecides(cs: seq<Candidate>) {
    forall c, d :: c in cs && d in cs && c.remote.title == d.remote.title ==>
      c.remote.cfScore == d.remote.cfScore && c.remote.qualityId == d.remote.qualityId
  }

  /** `c` is not behind `d` on score, nor, at equal score, on quality. */
  predicate NotWorse(p: Profile, c: Remote, d: Remote) {
    || c.cfScore > d.cfScore
    || (c.cfScore == d.cfScore && QualityIndex(p.items, c.qualityId) <= QualityIndex(p.items, d.qualityId))
  }

  /** The first candidate with the title and score of the ranked winner. */
  ghost predicate IsLookedUp(cs: seq<Candidate>, best: Remote, w: nat) {
    && w < |cs| && cs[w].remote.title == best.title && cs[w].remote.cfScore == best.cfScore
    && forall i :: 0 <= i < w ==> cs[i].remote.title != best.title || cs[i].remote.cfScore != best.cfScore
  }

  lemma BestIsTop(p: Profile, cs: seq<Candidate>)
    requires cs != []
    ensures var ranked := Sort(Comparator(p), Remotes(cs));
      && |ranked| == |cs| && ranked[0] in Remotes(cs)
      && forall c :: c in cs ==> !Better(p, c.remote, ranked[0])
  {
    BetterIsStrictWeak(p);
    var remotes := Remotes(cs);
    SortIsStable(Comparator(p), remotes);
    var ranked := Sort(Comparator(p), remotes);
    assert ranked[0] in multiset(ranked);
    forall c | c in cs ensures !Better(p, c.remote, ranked[0]) {
      var i :| 0 <= i < |cs| && cs[i] == c;
      assert remotes[i] in multiset(remotes);
      assert c.remote in ranked;
      var j :| 0 <= j < |ranked| && ranked[j] == c.remote;
      assert !Comparator(p)(ranked[j], ranked[0]);
    }
  }

  /** The looked-up candidate is maximal on score, then quality, and it is the ranked
      winner itself when no two candidates share a title. */
  lemma WinnerIsMaximal(p: Profile, cs: seq<Candidate>, w: nat)
    requires cs != [] && TitleDecides(cs)
    requires IsLookedUp(cs, Sort(Comparator(p), Remotes(cs))[0], w)
    ensures forall c :: c in cs ==> NotWorse(p, cs[w].remote, c.remote)
    ensures (forall i, j :: 0 <= i < j < |cs| ==> cs[i].remote.title != cs[j].remote.title) ==>
      cs[w].remote == Sort(Comparator(p), Remotes(cs))[0]
  {
    var best := Sort(Comparator(p), Remotes(cs))[0];
    BestIsTop(p, cs);
    var b :| 0 <= b < |cs| && Remotes(cs)[b] == best;
    assert cs[b].remote == best && cs[b] in cs && cs[w] in cs;
  }

  /** The first candidate of a title. */
  ghost predicate IsFirstTitled(cs: seq<Candidate>, title: string, f: nat) {
    f < |cs| && cs[f].remote.title == title && forall i :: 0 <= i < f ==> cs[i].remote.title != title
  }

  /** No candidate of the same title is larger. */
  ghost predicate IsLargestOfTitle(cs: seq<Candidate>, f: nat)
    requires f < |cs|
  {
    forall c :: c in cs && c.remote.title == cs[f].remote.title ==> c.remote.size <= cs[f].remote.size
  }

  /** Let `f` be the first candidate with the title that Rank puts first.  Whatever the
      lookup finds is Rank's choice, none better, exactly when `f` is a largest one of
      its title: a question about the group as it stands before the lookup. */
  lemma WinnerIsTopIff(p: Profile, cs: seq<Candidate>, f: nat, w: nat)
    requires cs != [] && TitleDecides(cs)
    requires var best := Sort(Comparator(p), Remotes(cs))[0];
      IsFirstTitled(cs, best.title, f) && IsLookedUp(cs, best, w)
    ensures (forall c :: c in cs ==> !Better(p, c.remote, cs[w].remote)) <==> IsLargestOfTitle(cs, f)
  {
    var best := Sort(Comparator(p), Remotes(cs))[0];
    BestIsTop(p, cs);
    var b :| 0 <= b < |cs| && Remotes(cs)[b] == best;
    assert cs[b].remote == best && cs[b] in cs && cs[w] in cs && cs[f] in cs;
    assert f == w;
  }

  /** A group where the tiebreak is lost: one title twice, the smaller release first. */
  lemma SizeTiebreakIsLost(p: Profile, small: Candidate, large: Candidate, w: nat)
    requires large.remote == small.remote.(size := large.remote.size) && small.remote.size < large.remote.size
    requires IsLookedUp([small, large], Sort(Comparator(p), Remotes([small, large]))[0], w)
    ensures Sort(Comparator(p), Remotes([small, large]))[0] == large.remote
    ensures w == 0 && Better(p, large.remote, [small, large][w].remote)
  {
    var cs := [small, large];
    BestIsTop(p, cs);
    assert cs[0] == small && cs[1] == large && cs[1] in cs;
    assert Remotes(cs) == [small.remote, large.remote];
  }

  // ----- the run -----

  lemma {:induction false} OffersForComplete(env: Env, rel: Release, numbers: seq<int>, n: int, o: Offer)
    requires n in numbers && OfferFor(env, rel, n) == Some(o)
    ensures o in OffersFor(env, rel, numbers)
  {
    var front := numbers[..|numbers| - 1];
    if n != numbers[|numbers| - 1] {
      assert n in front;
      OffersForComplete(env, rel, front, n, o);
    }
  }

  lemma {:induction false} OffersAreListed(env: Env, rels: seq<Release>, rel: Release, n: int, o: Offer)
    requires rel in rels && n in env.parse(rel.title).episodes && OfferFor(env, rel, n) == Some(o)
    ensures o in AllOffers(env, rels)
  {
    var front, last := rels[..|rels| - 1], rels[|rels| - 1];
    if rel == last {
      OffersForComplete(env, rel, env.parse(rel.title).episodes, n, o);
    } else {
      assert rel in front;
      OffersAreListed(env, front, rel, n, o);
    }
  }

  lemma {:induction false} OfferIsInGroup(offers: seq<Offer>, o: Offer)
    requires o in offers
    ensures o.candidate in GroupOf(offers, o.key)
  {
    var front := offers[..|offers| - 1];
    if o != offers[|offers| - 1] {
      assert o in front;
      OfferIsInGroup(front, o);
    }
  }

  /** The candidates for an episode are exactly the releases of the run whose title names
      it, for which it is monitored, and that every spec lets pass: none is overlooked and
      none is added. */
  lemma GroupIsExactly(env: Env, rels: seq<Release>, key: Key, c: Candidate)
    ensures c in GroupOf(AllOffers(env, rels), key) <==> Justified(env, rels, Offer(key, c))
  {
    if Justified(env, rels, Offer(key, c)) {
      JustifiedIsOffered(env, rels, Offer(key, c));
      OffersAreListed(env, rels, c.release, key.episode, Offer(key, c));
      OfferIsInGroup(AllOffers(env, rels), Offer(key, c));
    }
    if c in GroupOf(AllOffers(env, rels), key) {
      GroupMembers(AllOffers(env, rels), key, c);
      OffersAreJustified(env, rels, Offer(key, c));
    }
  }

  /** The grab made for a group: the looked-up winner, under the best one's quality. */
  ghost predicate IsGrabFor(env: Env, cs: seq<Candidate>, g: Grab) {
    && cs != []
    && var best := Sort(Comparator(env.profile), Remotes(cs))[0];
    && g.qualityName == QualityName(best.qualityId, env.defs)
    && exists w: nat :: IsLookedUp(cs, best, w) && g.release == cs[w].release && g.episodeId == cs[w].episodeId
  }

  /** A grab's group comes from titles alone, so score and quality agree where titles do. */
  lemma GroupTitlesDecide(env: Env, rels: seq<Release>, key: Key)
    ensures TitleDecides(GroupOf(AllOffers(env, rels), key))
  {
    var cs := GroupOf(AllOffers(env, rels), key);
    forall c, d | c in cs && d in cs && c.remote.title == d.remote.title
      ensures c.remote.cfScore == d.remote.cfScore && c.remote.qualityId == d.remote.qualityId
    {
      GroupMembers(AllOffers(env, rels), key, c);
      OffersAreJustified(env, rels, Offer(key, c));
      GroupMembers(AllOffers(env, rels), key, d);
      OffersAreJustified(env, rels, Offer(key, d));
    }
  }

  /** What a grab of the run is worth: it is for a justified offer of its key, so for an
      accepted release of a monitored episode, and no candidate for that episode beats
      it on score, then quality. */
  lemma GrabIsBest(env: Env, rels: seq<Release>, g: Grab) returns (c: Candidate)
    requires IsGrabFor(env, GroupOf(AllOffers(env, rels), g.key), g)
    ensures c.release == g.release && c.episodeId == g.episodeId
    ensures Justified(env, rels, Offer(g.key, c))
    ensures forall d :: d in GroupOf(AllOffers(env, rels), g.key) ==> NotWorse(env.profile, c.remote, d.remote)
  {
    var cs := GroupOf(AllOffers(env, rels), g.key);
    var best := Sort(Comparator(env.profile), Remotes(cs))[0];
    var w: nat :| IsLookedUp(cs, best, w) && g.release == cs[w].release && g.episodeId == cs[w].episodeId;
    c := cs[w];
    GroupTitlesDecide(env, rels, g.key);
    WinnerIsMaximal(env.profile, cs, w);
    GroupMembers(AllOffers(env, rels), g.key, c);
    OffersAreJustified(env, rels, Offer(g.key, c));
  }

  /** The groups once the offer of `rel` for number `n`, if any, is added. */
  function WithOfferFor(env: Env, rel: Release, n: int, groups: map<Key, seq<Candidate>>): map<Key, seq<Candidate>> {
    var offer := OfferFor(env, rel, n);
    if offer.Some? then WithOffer(groups, offer.value) else groups
  }

  lemma OffersForStep(env: Env, rel: Release, numbers: seq<int>, i: nat, offers: seq<Offer>)
    requires i < |numbers|
    ensures var offer := OfferFor(env, rel, numbers[i]);
      offers + OffersFor(env, rel, numbers[..i + 1])
      == offers + OffersFor(env, rel, numbers[..i]) + if offer.Some? then [offer.value] else []
  {
    assert numbers[..i + 1][..i] == numbers[..i];
  }

  lemma GroupedStep(env: Env, rel: Release, numbers: seq<int>, i: nat, groups: map<Key, seq<Candidate>>, offers: seq<Offer>)
    requires i < |numbers| && Grouped(groups, offers + OffersFor(env, rel, numbers[..i]))
    ensures Grouped(WithOfferFor(env, rel, numbers[i], groups), offers + OffersFor(env, rel, numbers[..i + 1]))
  {
    var sofar, offer := offers + OffersFor(env, rel, numbers[..i]), OfferFor(env, rel, numbers[i]);
    OffersForStep(env, rel, numbers, i, offers);
    if offer.Some? {
      GroupedAppend(groups, sofar, offer.value);
    } else {
      assert sofar + [] == sofar;
    }
  }

  lemma {:induction false} NoSeriesNoOffers(env: Env, rel: Release, numbers: seq<int>)
    requires var p := env.parse(rel.title); p.seriesTitle == "" || env.findSeries(p.seriesTitle).None?
    ensures OffersFor(env, rel, numbers) == []
  {
    if numbers != [] {
      NoSeriesNoOffers(env, rel, numbers[..|numbers| - 1]);
    }
  }

  /** One episode number of a matched release: looked up, scored and evaluated. */
  method MakeOffer(env: Env, rel: Release, parsed: Parsed, seriesId: int, eps: seq<LibraryEpisode>, n: int)
    returns (offer: Option<Offer>)
    requires parsed == env.parse(rel.title) && parsed.seriesTitle != ""
    requires env.findSeries(parsed.seriesTitle) == Some(seriesId) && eps == env.episodesOf(seriesId)
    ensures offer == OfferFor(env, rel, n)
  {
    var found := MatchEpisode(eps, parsed.season, n);
    if found.None? {
      return None;
    }
    if !found.value.monitored {
      return None;
    }
    var qualityId := ResolveQuality(parsed, env.defs);
    var cfScore := Score(parsed, env.formats, env.profile, env.matches);
    var remote := Remote(rel.title, rel.size, rel.indexer, parsed, seriesId, found.value.id, qualityId, cfScore);
    var verdict := Evaluate(env.specs, remote, env.profile);
    if verdict.decision.Reject? {
      return None;
    }
    return Some(Offer(Key(seriesId, parsed.season, n), Candidate(remote, rel, found.value.id)));
  }

  method AddOffers(env: Env, rel: Release, groups: map<Key, seq<Candidate>>, ghost offers: seq<Offer>)
    returns (all: map<Key, seq<Candidate>>)
    requires Grouped(groups, offers)
    ensures Grouped(all, offers + OffersFor(env, rel, env.parse(rel.title).episodes))
  {
    all := groups;
    var parsed := env.parse(rel.title);
    var numbers := parsed.episodes;
    var series := env.findSeries(parsed.seriesTitle);
    if parsed.seriesTitle == "" || series.None? {
      NoSeriesNoOffers(env, rel, numbers);
      assert offers + [] == offers;
      return;
    }
    var eps := env.episodesOf(series.value);
    assert offers + OffersFor(env, rel, numbers[..0]) == offers;
    for i := 0 to |numbers|
      invariant Grouped(all, offers + OffersFor(env, rel, numbers[..i]))
    {
      GroupedStep(env, rel, numbers, i, all, offers);
      var offer := MakeOffer(env, rel, parsed, series.value, eps, numbers[i]);
      if offer.Some? {
        all := WithOffer(all, offer.value);
      }
    }
    assert numbers[..|numbers|] == numbers;
  }

  method Collect(env: Env, rels: seq<Release>) returns (groups: map<Key, seq<Candidate>>)
    ensures Grouped(groups, AllOffers(env, rels))
  {
    groups := map[];
    for i := 0 to |rels|
      invariant Grouped(groups, AllOffers(env, rels[..i]))
    {
      assert rels[..i + 1][..i] == rels[..i];
      groups := AddOffers(env, rels[i], groups, AllOffers(env, rels[..i]));
    }
    assert rels[..|rels|] == rels;
  }

  /** Ranks the group and looks the winner up again by title and score: the lookup
      always finds a candidate. */
  method PickWinner(env: Env, key: Key, cs: seq<Candidate>) returns (g: Grab)
    requires cs != []
    ensures g.key == key && IsGrabFor(env, cs, g)
  {
    var remotes := new Remote[|cs|](i requires 0 <= i < |cs| => cs[i].remote);
    assert remotes[..] == Remotes(cs);
    Rank(remotes, env.profile);
    BestIsTop(env.profile, cs);
    var best := remotes[0];
    var w := FindCandidate(cs, best);
    g := Grab(key, cs[w].release, cs[w].episodeId, QualityName(best.qualityId, env.defs));
  }

  method FindCandidate(cs: seq<Candidate>, best: Remote) returns (w: nat)
    requires best in Remotes(cs)
    ensures IsLookedUp(cs, best, w)
  {
    w := 0;
    ghost var b :| 0 <= b < |cs| && Remotes(cs)[b] == best;
    while w < |cs| && !(cs[w].remote.title == best.title && cs[w].remote.cfScore == best.cfScore)
      invariant 0 <= w <= |cs|
      invariant forall i :: 0 <= i < w ==> cs[i].remote.title != best.title || cs[i].remote.cfScore != best.cfScore
    {
      w := w + 1;
    }
    assert cs[b].remote == best;
  }

  ghost predicate HasGrabFor(grabs: seq<Grab>, k: Key) {
    exists g :: g in grabs && g.key == k
  }

  /** The grabs are the winners of the groups but those in `todo`, one each. */
  ghost predicate AreWinners(env: Env, groups: map<Key, seq<Candidate>>, todo: set<Key>, grabs: seq<Grab>) {
    && (forall g :: g in grabs ==> g.key in groups && g.key !in todo && IsGrabFor(env, groups[g.key], g))
    && (forall i, j :: 0 <= i < j < |grabs| ==> grabs[i].key != grabs[j].key)
    && (forall k :: k in groups && k !in todo ==> HasGrabFor(grabs, k))
  }

  lemma OneMoreWinner(env: Env, groups: map<Key, seq<Candidate>>, todo: set<Key>, grabs: seq<Grab>, g: Grab)
    requires AreWinners(env, groups, todo, grabs) && g.key in groups && g.key in todo
    requires IsGrabFor(env, groups[g.key], g)
    ensures AreWinners(env, groups, todo - {g.key}, grabs + [g])
  {
    var more := grabs + [g];
    assert more[|grabs|] == g;
    forall k | k in groups && k !in todo - {g.key} ensures HasGrabFor(more, k) {
      if k != g.key {
        assert HasGrabFor(grabs, k);
        var h :| h in grabs && h.key == k;
        assert h in more;
      }
    }
  }

  /** The second half of a run: the winner of each group is grabbed. */
  method GrabWinners(env: Env, groups: map<Key, seq<Candidate>>) returns (grabs: seq<Grab>)
    requires forall k :: k in groups ==> groups[k] != []
    ensures AreWinners(env, groups, {}, grabs)
  {
    grabs := [];
    var todo := groups.Keys;
    while todo != {}
      invariant todo <= groups.Keys && AreWinners(env, groups, todo, grabs)
      decreases |todo|
    {
      var key := Collections.AnyOf(todo);
      var g := PickWinner(env, key, groups[key]);
      OneMoreWinner(env, groups, todo, grabs, g);
      todo := todo - {key};
      grabs := grabs + [g];
    }
  }

  lemma WinnersOfGroups(env: Env, groups: map<Key, seq<Candidate>>, offers: seq<Offer>, grabs: seq<Grab>)
    requires Grouped(groups, offers) && AreWinners(env, groups, {}, grabs)
    ensures forall g :: g in grabs ==> IsGrabFor(env, GroupOf(offers, g.key), g)
    ensures forall k :: GroupOf(offers, k) != [] ==> HasGrabFor(grabs, k)
  {
    forall g | g in grabs ensures IsGrabFor(env, GroupOf(offers, g.key), g) {
      assert groups[g.key] == GroupOf(offers, g.key);
    }
  }

  /** A run: exactly one grab for every episode key that has an offer, none for others,
      each the winner of its group. */
  method Handle(env: Env, rels: seq<Release>) returns (grabs: seq<Grab>)
    ensures forall i, j :: 0 <= i < j < |grabs| ==> grabs[i].key != grabs[j].key
    ensures forall g :: g in grabs ==> IsGrabFor(env, GroupOf(AllOffers(env, rels), g.key), g)
    ensures forall k :: GroupOf(AllOffers(env, rels), k) != [] ==> HasGrabFor(grabs, k)
    ensures forall k, c :: Justified(env, rels, Offer(k, c)) ==> HasGrabFor(grabs, k)
  {
    var groups := Collect(env, rels);
    grabs := GrabWinners(env, groups);
    WinnersOfGroups(env, groups, AllOffers(env, rels), grabs);
    forall k, c | Justified(env, rels, Offer(k, c)) ensures HasGrabFor(grabs, k) {
      GroupIsExactly(env, rels, k, c);
    }
  }
}
