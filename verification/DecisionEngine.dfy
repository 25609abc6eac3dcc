/** Custom format scoring, the decision engine's evaluation, and ranking. */
module DecisionEngine {
  import opened StableSort

  // ----- data -----

  /** What the parser reads from a title; only these fields matter below. */
  datatype Parsed = Parsed(
    seriesTitle: string, season: int, episodes: seq<int>, source: string, resolution: string, group: string)

  datatype CustomFormat = CustomFormat(id: int, pattern: string)

  datatype FormatScore = FormatScore(formatId: int, score: int)

  /** `items` are quality ids, most preferred first. */
  datatype Profile = Profile(items: seq<int>, formatScores: seq<FormatScore>)

  datatype Remote = Remote(
    title: string, size: int, indexer: string, parsed: Parsed, seriesId: int, episodeId: int,
    qualityId: int, cfScore: int)

  datatype Decision = Accept | Reject

  datatype Verdict = Verdict(decision: Decision, rejections: seq<string>)

  /** A specification of the engine: any deterministic rule. */
  type Spec = (Remote, Profile) -> Verdict

  // ----- scoring -----

  /** The weight of format `id`: the last entry for it wins, none counts zero. */
  function Weight(items: seq<FormatScore>, id: int): int {
    if items == [] then 0
    else if items[|items| - 1].formatId == id then items[|items| - 1].score
    else Weight(items[..|items| - 1], id)
  }

  /** The sum of the weights of the matching formats. */
  function ScoreOf(parsed: Parsed, formats: seq<CustomFormat>, items: seq<FormatScore>,
                   matches: (Parsed, CustomFormat) -> bool): int {
    if formats == [] then 0
    else
      var last := formats[|formats| - 1];
      ScoreOf(parsed, formats[..|formats| - 1], items, matches)
      + if matches(parsed, last) then Weight(items, last.id) else 0
  }

  /** A format's weight is the score of the last profile entry for it, and zero if there is
      none. */
  lemma {:induction false} WeightIsLast(items: seq<FormatScore>, id: int)
    ensures || (exists i :: 0 <= i < |items| && items[i].formatId == id && Weight(items, id) == items[i].score
                            && forall j :: i < j < |items| ==> items[j].formatId != id)
            || (Weight(items, id) == 0 && forall j :: 0 <= j < |items| ==> items[j].formatId != id)
  {
    if items != [] && items[|items| - 1].formatId != id {
      var front := items[..|items| - 1];
      WeightIsLast(front, id);
      assert forall j :: 0 <= j < |front| ==> front[j] == items[j];
      if i :| 0 <= i < |front| && front[i].formatId == id && Weight(front, id) == front[i].score
                            && forall j :: i < j < |front| ==> front[j].formatId != id {
        assert items[i].formatId == id;
      }
    }
  }

  /** Without formats the score is zero; one more format, wherever it is listed, adds its
      weight if it matches and nothing if it does not. */
  lemma {:induction false} FormatAddsItsWeight(parsed: Parsed, a: seq<CustomFormat>, f: CustomFormat, b: seq<CustomFormat>,
                                               items: seq<FormatScore>, matches: (Parsed, CustomFormat) -> bool)
    ensures ScoreOf(parsed, [], items, matches) == 0
    ensures ScoreOf(parsed, a + [f] + b, items, matches)
         == ScoreOf(parsed, a + b, items, matches) + if matches(parsed, f) then Weight(items, f.id) else 0
  {
    if b == [] {
      assert a + [f] + b == a + [f] && (a + [f])[..|a|] == a && a + b == a;
    } else {
      var n := |b| - 1;
      FormatAddsItsWeight(parsed, a, f, b[..n], items, matches);
      assert (a + [f] + b)[..|a| + 1 + n] == a + [f] + b[..n];
      assert (a + b)[..|a| + n] == a + b[..n];
    }
  }

  method Score(parsed: Parsed, formats: seq<CustomFormat>, profile: Profile, matches: (Parsed, CustomFormat) -> bool)
    returns (total: int)
    ensures total == ScoreOf(parsed, formats, profile.formatScores, matches)
  {
    var items := profile.formatScores;
    var weights: map<int, int> := map[];
    for i := 0 to |items|
      invariant forall id :: Weight(items[..i], id) == if id in weights then weights[id] else 0
    {
      assert items[..i + 1][..i] == items[..i];
      weights := weights[items[i].formatId := items[i].score];
    }
    assert items[..|items|] == items;
    total := 0;
    for i := 0 to |formats|
      invariant total == ScoreOf(parsed, formats[..i], items, matches)
    {
      assert formats[..i + 1][..i] == formats[..i];
      if matches(parsed, formats[i]) {
        total := total + if formats[i].id in weights then weights[formats[i].id] else 0;
      }
    }
    assert formats[..|formats|] == formats;
  }

  // ----- evaluation -----

  /** All the reasons of the specs that reject, in spec order. */
  function Reasons(specs: seq<Spec>, r: Remote, p: Profile): seq<string> {
    if specs == [] then []
    else
      var v := specs[|specs| - 1](r, p);
      Reasons(specs[..|specs| - 1], r, p) + if v.decision.Reject? then v.rejections else []
  }

  predicate Accepted(specs: seq<Spec>, r: Remote, p: Profile) {
    Reasons(specs, r, p) == []
  }

  method Evaluate(specs: seq<Spec>, r: Remote, p: Profile) returns (v: Verdict)
    ensures v.rejections == Reasons(specs, r, p)
    ensures v.decision.Accept? <==> Accepted(specs, r, p)
  {
    var rejections: seq<string> := [];
    for i := 0 to |specs|
      invariant rejections == Reasons(specs[..i], r, p)
    {
      assert specs[..i + 1][..i] == specs[..i];
      var one := specs[i](r, p);
      if one.decision.Reject? {
        rejections := rejections + one.rejections;
      }
    }
    assert specs[..|specs|] == specs;
    v := if |rejections| > 0 then Verdict(Reject, rejections) else Verdict(Accept, []);
  }

  /** The reasons of a list of specs are those of its parts, in order; one spec gives its
      rejections if it rejects. */
  lemma {:induction false} ReasonsInOrder(a: seq<Spec>, b: seq<Spec>, spec: Spec, r: Remote, p: Profile)
    ensures Reasons([spec], r, p) == if spec(r, p).decision.Reject? then spec(r, p).rejections else []
    ensures Reasons(a + b, r, p) == Reasons(a, r, p) + Reasons(b, r, p)
  {
    assert [spec][..0] == [];
    if b == [] {
      assert a + b == a;
    } else {
      var n := |b| - 1;
      ReasonsInOrder(a, b[..n], spec, r, p);
      assert (a + b)[..|a| + n] == a + b[..n];
    }
  }

  /** The engine accepts exactly when every rejecting spec gives no reason; every spec is
      heard even after a rejection. */
  lemma {:induction false} AcceptsIffNoReasons(specs: seq<Spec>, r: Remote, p: Profile)
    ensures Accepted(specs, r, p) <==>
      forall i :: 0 <= i < |specs| ==> (specs[i](r, p).decision.Reject? ==> specs[i](r, p).rejections == [])
  {
    if specs != [] {
      var front := specs[..|specs| - 1];
      AcceptsIffNoReasons(front, r, p);
      assert forall i :: 0 <= i < |front| ==> front[i] == specs[i];
    }
  }

  /** Accepting only what every spec accepts, as documented, is what the engine does if
      and only if no spec rejects without a reason, or some other one gives one. */
  lemma AcceptsIffAllAccept(specs: seq<Spec>, r: Remote, p: Profile)
    ensures (Accepted(specs, r, p) <==> forall i :: 0 <= i < |specs| ==> specs[i](r, p).decision.Accept?) <==>
      ((exists i :: 0 <= i < |specs| && specs[i](r, p).decision.Reject?) ==>
        exists i :: 0 <= i < |specs| && specs[i](r, p).decision.Reject? && specs[i](r, p).rejections != [])
  {
    AcceptsIffNoReasons(specs, r, p);
  }

  // ----- ranking -----

  /** The position of quality `q` in the profile, or one past the end. */
  function QualityIndex(items: seq<int>, q: int): (n: nat)
    ensures n <= |items| && (n < |items| ==> items[n] == q) && q !in items[..n]
  {
    if items == [] then 0
    else if items[0] == q then 0
    else
      var n := QualityIndex(items[1..], q) + 1;
      assert items[..n] == [items[0]] + items[1..][..n - 1];
      n
  }

  /** The comparison of Rank: score down, quality index up, size down. */
  predicate Better(p: Profile, a: Remote, b: Remote) {
    if a.cfScore != b.cfScore then a.cfScore > b.cfScore
    else
      var qa, qb := QualityIndex(p.items, a.qualityId), QualityIndex(p.items, b.qualityId);
      if qa != qb then qa < qb else a.size > b.size
  }

  function Comparator(p: Profile): (Remote, Remote) -> bool {
    (a, b) => Better(p, a, b)
  }

  lemma BetterIsStrictWeak(p: Profile)
    ensures StrictWeakOrder(Comparator(p))
  {
  }

  /** Ranks in place: the stable sort by preference. */
  method Rank(remotes: array<Remote>, p: Profile)
    modifies remotes
    ensures remotes[..] == Sort(Comparator(p), old(remotes[..]))
    ensures IsStableSort(Comparator(p), old(remotes[..]), remotes[..])
    ensures multiset(remotes[..]) == multiset(old(remotes[..]))
  {
    BetterIsStrictWeak(p);
    SortIsStable(Comparator(p), remotes[..]);
    SliceStable(remotes, Comparator(p));
  }

  /** `a` may stand before `b`: a higher score; at equal scores a quality that the profile
      lists no later; at equal places no smaller size. */
  ghost predicate MayPrecede(p: Profile, a: Remote, b: Remote) {
    || a.cfScore > b.cfScore
    || (a.cfScore == b.cfScore
        && var i, j := QualityIndex(p.items, a.qualityId), QualityIndex(p.items, b.qualityId);
           i < j || (i == j && a.size >= b.size))
  }

  /** The ranking is a permutation in which each release may stand before all after it. */
  lemma RankedInOrder(p: Profile, rs: seq<Remote>, i: nat, j: nat)
    requires i < j < |Sort(Comparator(p), rs)|
    ensures var ranked := Sort(Comparator(p), rs);
      multiset(ranked) == multiset(rs) && MayPrecede(p, ranked[i], ranked[j])
  {
    BetterIsStrictWeak(p);
    SortIsStable(Comparator(p), rs);
    var ranked := Sort(Comparator(p), rs);
    assert !Comparator(p)(ranked[j], ranked[i]);
  }
}
