/** The wellbeing service: `compute_wellbeing`, the side-effect-free twin of
    `compute_wellbeing_score`, and `compute_trend` over a client's recent
    assessments. */
module WellbeingService {
  import opened Models

  /** An assessment with its `scores` relationship loaded, as the service receives it. */
  datatype Loaded = Loaded(assessment: WeeklyAssessment, scores: seq<HabitScore>)

  /** Assessment `aid` as it is loaded from the store. */
  function Load(d: Db, aid: int): Loaded
    requires HasRow(d.assessments, aid)
  {
    Loaded(d.assessments[aid - 1], ScoresOf(d.scores, aid))
  }

  /** `compute_wellbeing`: same filter, sum, count and rounding as `compute_wellbeing_score`. */
  function ComputeWellbeing(a: Loaded): (r: Tenths)
    ensures |Live(a.scores)| == 0 ==> r == 0
    ensures |Live(a.scores)| > 0 ==> WithinHalf(r, Total(Live(a.scores)), |Live(a.scores)|)
  {
    Wellbeing(a.scores)
  }

  /** In a consistent store `compute_wellbeing` of a live assessment returns
      exactly the value `compute_wellbeing_score` has stored. */
  lemma ComputeWellbeingMatchesCache(d: Db, aid: int)
    requires Consistent(d) && HasRow(d.assessments, aid)
    requires d.assessments[aid - 1].deletedAt.None?
    ensures ComputeWellbeing(Load(d, aid)) == d.assessments[aid - 1].wellbeingScore
  {
    assert aid == (aid - 1) + 1;
  }

  /** After `compute_wellbeing_score` on any assessment, deleted or not, the two agree. */
  lemma ComputeWellbeingMatchesRecompute(d: Db, aid: int)
    requires HasRow(d.assessments, aid)
    ensures ComputeWellbeing(Load(Recompute(d, aid), aid)) == Recompute(d, aid).assessments[aid - 1].wellbeingScore
  {
  }

  /** The two fields of the trend dictionary; `delta` is absent for a single assessment. */
  datatype Trend = Trend(latestScore: Tenths, delta: Option<int>)

  /** `compute_trend(assessments, window)`; as in the source, `window` is accepted and unused. */
  function ComputeTrend(assessments: seq<Loaded>, window: int := 4): (r: Option<Trend>)
    ensures r.None? <==> |assessments| == 0
    ensures r.Some? ==> r.value.latestScore == ComputeWellbeing(assessments[|assessments| - 1])
    ensures r.Some? ==> (r.value.delta.None? <==> |assessments| == 1)
    ensures |assessments| >= 2 ==>
      r.value.delta == Some(r.value.latestScore - ComputeWellbeing(assessments[|assessments| - 2]))
  {
    if |assessments| == 0 then None
    else
      var latestScore := ComputeWellbeing(assessments[|assessments| - 1]);
      if |assessments| < 2 then Some(Trend(latestScore, None))
      else
        var previousScore := ComputeWellbeing(assessments[|assessments| - 2]);
        Some(Trend(latestScore, Some(latestScore - previousScore)))
  }

  /** Only the last two assessments matter. */
  lemma TrendUsesLastTwo(xs: seq<Loaded>, k: int)
    requires 0 <= k <= |xs| - 2
    ensures ComputeTrend(xs[k..]) == ComputeTrend(xs)
  {
    assert xs[k..][|xs| - k - 1] == xs[|xs| - 1];
    assert xs[k..][|xs| - k - 2] == xs[|xs| - 2];
  }

  /** The window argument has no effect. */
  lemma TrendIgnoresWindow(xs: seq<Loaded>, w1: int, w2: int)
    ensures ComputeTrend(xs, w1) == ComputeTrend(xs, w2)
  {
  }

  /** The trend reads the scores only, never the cached `wellbeing_score`
      or any other field of the assessment rows. */
  lemma TrendIgnoresCache(xs: seq<Loaded>, ys: seq<Loaded>)
    requires |xs| == |ys|
    requires forall i :: 0 <= i < |xs| ==> xs[i].scores == ys[i].scores
    ensures ComputeTrend(xs) == ComputeTrend(ys)
  {
    if |xs| >= 2 {
      assert xs[|xs| - 2].scores == ys[|ys| - 2].scores;
    }
    if |xs| >= 1 {
      assert xs[|xs| - 1].scores == ys[|ys| - 1].scores;
    }
  }

  /** With every live score in 0.0..10.0 the latest score is in 0.0..10.0 and
      the delta in -10.0..10.0; the delta is negative exactly when the score fell. */
  lemma TrendBounds(xs: seq<Loaded>)
    requires forall i, s :: 0 <= i < |xs| && s in xs[i].scores && s.deletedAt.None? ==> 0 <= s.score <= 100
    ensures ComputeTrend(xs).Some? ==> 0 <= ComputeTrend(xs).value.latestScore <= 100
    ensures |xs| >= 2 ==> -100 <= ComputeTrend(xs).value.delta.value <= 100
    ensures |xs| >= 2 ==> (ComputeTrend(xs).value.delta.value < 0 <==>
      ComputeWellbeing(xs[|xs| - 1]) < ComputeWellbeing(xs[|xs| - 2]))
  {
    if |xs| >= 1 {
      WellbeingInRange(xs[|xs| - 1].scores);
    }
    if |xs| >= 2 {
      WellbeingInRange(xs[|xs| - 2].scores);
    }
  }
}
