/** Concrete stores that exercise the aggregation, the trend and the weekly
    limit end to end: two scores of 8.0 and 6.0, a third of 5.0, a single
    score of 9.0 deleted, a trend from 6.8 to 7.3, and an eighth score for one
    pair. */
module Scenarios {
  import opened Models
  import opened Access
  import opened WellbeingService
  import opened AssessmentRoutes

  /** A live score of assessment 1 for client habit 1. */
  function Entry(v: Tenths): HabitScore {
    HabitScore(1, 1, v, None, None)
  }

  /** Client 1, one habit assigned to it, one assessment of it with the given scores. */
  function OneWeek(scores: seq<HabitScore>, cached: Tenths): Db {
    Db([User(Client, None)],
       [ClientHabit(1, 1, None, Some(1), None)],
       [WeeklyAssessment(1, 0, cached, None, 0, None)],
       scores)
  }

  const counsellor := Principal(Some(Counsellor), None)

  lemma {:induction false} AllLive(s: seq<HabitScore>)
    requires forall k :: 0 <= k < |s| ==> s[k].deletedAt.None?
    ensures Live(s) == s
  {
    if |s| > 0 {
      AllLive(s[..|s| - 1]);
    }
  }

  lemma {:induction false} AllOfAssessment(s: seq<HabitScore>, aid: int)
    requires forall k :: 0 <= k < |s| ==> s[k].assessmentId == aid
    ensures ScoresOf(s, aid) == s
  {
    if |s| > 0 {
      AllOfAssessment(s[..|s| - 1], aid);
    }
  }

  lemma {:induction false} AllOfPair(s: seq<HabitScore>, aid: int, chid: int)
    requires forall k :: 0 <= k < |s| ==> s[k] == s[k].(assessmentId := aid, clientHabitId := chid, deletedAt := None)
    ensures PairCount(s, aid, chid) == |s|
  {
    if |s| > 0 {
      AllOfPair(s[..|s| - 1], aid, chid);
    }
  }

  /** Scores 8.0 and 6.0 give 7.0. */
  lemma ScenarioTwoScores()
    ensures Wellbeing([Entry(80), Entry(60)]) == 70
  {
    var two := [Entry(80), Entry(60)];
    AllLive(two);
    assert two[..1] == [Entry(80)];
    assert Total(two) == 140;
  }

  /** Adding 5.0 to scores 8.0 and 6.0 through `create_score` stores 6.3. */
  lemma ScenarioCreateThird()
    ensures var req := CreateRequest(Some(1), Numeric(50), NoteAbsent);
      var d := OneWeek([Entry(80), Entry(60)], 70);
      && CreateFailure(d, counsellor, 1, req).None?
      && AddScore(d, 1, NewScore(1, req)).assessments[0].wellbeingScore == 63
  {
    var req := CreateRequest(Some(1), Numeric(50), NoteAbsent);
    var two := [Entry(80), Entry(60)];
    var d := OneWeek(two, 70);
    AllOfAssessment(two, 1);
    AllOfPair(two, 1, 1);
    assert CreateFailure(d, counsellor, 1, req).None?;
    CreateAddsOneScore(d, counsellor, 1, req);
    var all := [Entry(80), Entry(60), Entry(50)];
    assert two + [NewScore(1, req)] == all;
    ThreeScores();
  }

  lemma ThreeScores()
    ensures Wellbeing([Entry(80), Entry(60), Entry(50)]) == 63
  {
    var all := [Entry(80), Entry(60), Entry(50)];
    AllLive(all);
    assert all[..2] == [Entry(80), Entry(60)];
    assert all[..2][..1] == [Entry(80)];
    assert [Entry(80)][..0] == [];
    assert Total([Entry(80)]) == 80;
    assert Total(all[..2]) == 140;
    assert Total(all) == 190;
  }

  /** A single score of 9.0, soft-deleted through `delete_score`, leaves 0.0. */
  lemma ScenarioDeleteOnlyScore(now: Timestamp)
    ensures TombstoneScore(OneWeek([Entry(90)], 90), 1, now).assessments[0].wellbeingScore == 0
  {
    var d := OneWeek([Entry(90)], 90);
    DeleteScoreRetires(d, 1, now);
    assert d.scores[..0] + d.scores[1..] == [];
  }

  /** Means 6.8 then 7.3 give latest 7.3 and delta 0.5. */
  lemma ScenarioTrend()
    ensures var a := WeeklyAssessment(1, 0, 0, None, 0, None);
      var b := WeeklyAssessment(1, 7, 0, None, 0, None);
      ComputeTrend([Loaded(a, [Entry(68)]), Loaded(b, [Entry(73)])]) == Some(Trend(73, Some(5)))
  {
    SingleScore(68);
    SingleScore(73);
  }

  lemma SingleScore(v: Tenths)
    ensures Wellbeing([Entry(v)]) == v
  {
    AllLive([Entry(v)]);
    assert [Entry(v)][..0] == [];
    assert Total([Entry(v)]) == v;
  }

  /** With seven live scores for the pair an eighth is refused; a deleted
      eighth score does not change that. */
  lemma ScenarioEighthScore(t: Timestamp)
    ensures var seven := [Entry(10), Entry(20), Entry(30), Entry(40), Entry(50), Entry(60), Entry(70)];
      var req := CreateRequest(Some(1), Numeric(80), NoteAbsent);
      && CreateFailure(OneWeek(seven, 40), counsellor, 1, req) == Some(WeeklyLimitReached)
      && CreateFailure(OneWeek(seven + [Entry(80).(deletedAt := Some(t))], 40), counsellor, 1, req) == Some(WeeklyLimitReached)
  {
    var seven := [Entry(10), Entry(20), Entry(30), Entry(40), Entry(50), Entry(60), Entry(70)];
    var req := CreateRequest(Some(1), Numeric(80), NoteAbsent);
    AllOfPair(seven, 1, 1);
    CreateIgnoresDeletedScores(OneWeek(seven, 40), counsellor, 1, req, Entry(80).(deletedAt := Some(t)));
  }
}
