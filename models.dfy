/** The relational store of the resilience tracker (users, client-habit
    assignments, weekly assessments and habit scores, each soft-deletable),
    the invariants its schema and its handlers keep, and the wellbeing
    aggregation of `WeeklyAssessment.compute_wellbeing_score`.

    Primary keys start at 1: the row with id `k` sits at index `k - 1` of
    its table. A relationship list (`assessment.scores`, `client.habits`,
    ...) is the set of rows whose foreign key names the parent, in id order.
    Score values are `Numeric(3, 1)` and are kept here in tenths (7.3 is 73),
    so the arithmetic is exact. */
module Models {

  datatype Option<T> = None | Some(value: T)

  /** An instant such as `datetime.utcnow()`; only compared for equality. */
  type Timestamp = int

  /** A one-decimal number scaled by ten. */
  type Tenths = int

  /** Live scores allowed per (assessment, client habit) pair. */
  const WeeklyScoreLimit := 7

  datatype Role = Client | Counsellor

  datatype User = User(role: Role, deletedAt: Option<Timestamp>)

  datatype ClientHabit = ClientHabit(
    clientId: int,
    habitId: int,
    customLabel: Option<string>,
    order: Option<int>,
    deletedAt: Option<Timestamp>)

  datatype WeeklyAssessment = WeeklyAssessment(
    clientId: int,
    weekStart: int,
    wellbeingScore: Tenths,
    overallComment: Option<string>,
    submittedAt: Timestamp,
    deletedAt: Option<Timestamp>)

  datatype HabitScore = HabitScore(
    assessmentId: int,
    clientHabitId: int,
    score: Tenths,
    note: Option<string>,
    deletedAt: Option<Timestamp>)

  /** A snapshot of the four tables. */
  datatype Db = Db(
    users: seq<User>,
    clientHabits: seq<ClientHabit>,
    assessments: seq<WeeklyAssessment>,
    scores: seq<HabitScore>)

  predicate HasRow<T>(table: seq<T>, id: int) {
    1 <= id <= |table|
  }

  // ---------------------------------------------------------------------
  // Aggregation
  // ---------------------------------------------------------------------

  /** The scores of a relationship list whose `deleted_at` is unset, in list order. */
  function Live(rel: seq<HabitScore>): (r: seq<HabitScore>)
    ensures |r| <= |rel|
    ensures forall k :: 0 <= k < |r| ==> r[k].deletedAt.None? && r[k] in rel
  {
    if |rel| == 0 then []
    else
      var last := rel[|rel| - 1];
      assert forall s :: s in rel[..|rel| - 1] ==> s in rel;
      Live(rel[..|rel| - 1]) + (if last.deletedAt.None? then [last] else [])
  }

  /** `Live` keeps exactly the live scores, each as often as it occurs, and nothing else. */
  lemma {:induction false} LiveComplete(rel: seq<HabitScore>)
    ensures forall s :: multiset(Live(rel))[s] == if s.deletedAt.None? then multiset(rel)[s] else 0
  {
    if |rel| > 0 {
      LiveComplete(rel[..|rel| - 1]);
      assert rel == rel[..|rel| - 1] + [rel[|rel| - 1]];
    }
  }

  /** `sum(score.score for score in rows)`. */
  function Total(rows: seq<HabitScore>): int {
    if |rows| == 0 then 0 else Total(rows[..|rows| - 1]) + rows[|rows| - 1].score
  }

  /** `r` lies within half a unit of the exact quotient `total / count`. */
  predicate WithinHalf(r: int, total: int, count: int) {
    -count <= 2 * (total - r * count) <= count
  }

  /** `total / count` rounded to the nearest integer, ties to the even neighbour. */
  function RoundedMean(total: int, count: int): (q: int)
    requires count > 0
    ensures WithinHalf(q, total, count)
  {
    var f := total / count;
    var rem := total % count;
    assert total == f * count + rem;
    assert (f + 1) * count == f * count + count;
    if 2 * rem < count then f
    else if 2 * rem > count then f + 1
    else if f % 2 == 0 then f
    else f + 1
  }

  /** The value `compute_wellbeing_score` stores: 0 without live scores,
      otherwise the mean of the live scores rounded to one decimal. */
  function Wellbeing(rel: seq<HabitScore>): (r: Tenths)
    ensures |Live(rel)| == 0 ==> r == 0
    ensures |Live(rel)| > 0 ==> WithinHalf(r, Total(Live(rel)), |Live(rel)|)
  {
    var active := Live(rel);
    if |active| == 0 then 0 else RoundedMean(Total(active), |active|)
  }

  lemma {:induction false} LiveAppend(rel: seq<HabitScore>, s: HabitScore)
    ensures Live(rel + [s]) == Live(rel) + (if s.deletedAt.None? then [s] else [])
  {
    assert (rel + [s])[..|rel|] == rel;
  }

  lemma {:induction false} LiveConcat(a: seq<HabitScore>, b: seq<HabitScore>)
    ensures Live(a + b) == Live(a) + Live(b)
    decreases |b|
  {
    if |b| == 0 {
      assert a + b == a;
    } else {
      var b' := b[..|b| - 1];
      assert a + b == (a + b') + [b[|b| - 1]];
      LiveAppend(a + b', b[|b| - 1]);
      LiveConcat(a, b');
      LiveAppend(b', b[|b| - 1]);
      assert b == b' + [b[|b| - 1]];
    }
  }

  lemma {:induction false} TotalConcat(a: seq<HabitScore>, b: seq<HabitScore>)
    ensures Total(a + b) == Total(a) + Total(b)
    decreases |b|
  {
    if |b| == 0 {
      assert a + b == a;
    } else {
      var b' := b[..|b| - 1];
      assert (a + b)[..|a + b| - 1] == a + b';
      TotalConcat(a, b');
    }
  }

  /** A soft-deleted score has no influence: inserting or removing one
      anywhere in the relationship leaves the result unchanged. */
  lemma WellbeingIgnoresDeleted(pre: seq<HabitScore>, s: HabitScore, post: seq<HabitScore>)
    requires s.deletedAt.Some?
    ensures Wellbeing(pre + [s] + post) == Wellbeing(pre + post)
  {
    LiveConcat(pre + [s], post);
    LiveConcat(pre, [s]);
    LiveConcat(pre, post);
    assert Live([s]) == [] by { LiveAppend([], s); }
    assert Live(pre + [s]) == Live(pre);
  }

  /** Editing a soft-deleted score into another soft-deleted score leaves the result unchanged. */
  lemma WellbeingIgnoresDeletedEdit(rel: seq<HabitScore>, i: int, s: HabitScore)
    requires 0 <= i < |rel|
    requires rel[i].deletedAt.Some? && s.deletedAt.Some?
    ensures Wellbeing(rel[i := s]) == Wellbeing(rel)
  {
    assert rel == rel[..i] + [rel[i]] + rel[i + 1..];
    assert rel[i := s] == rel[..i] + [s] + rel[i + 1..];
    WellbeingIgnoresDeleted(rel[..i], rel[i], rel[i + 1..]);
    WellbeingIgnoresDeleted(rel[..i], s, rel[i + 1..]);
  }

  lemma {:induction false} TotalBounds(rows: seq<HabitScore>, lo: int, hi: int)
    requires forall k :: 0 <= k < |rows| ==> lo <= rows[k].score <= hi
    ensures lo * |rows| <= Total(rows) <= hi * |rows|
  {
    if |rows| > 0 {
      var n := |rows|;
      TotalBounds(rows[..n - 1], lo, hi);
      assert lo * n == lo * (n - 1) + lo;
      assert hi * n == hi * (n - 1) + hi;
    }
  }

  lemma MulMono(a: int, b: int, n: int)
    requires a <= b && n >= 0
    ensures a * n <= b * n
  {
    var k := b - a;
    assert b * n == a * n + k * n;
    assert k * n >= 0;
  }

  /** A value within half a unit of `t / n` lies between any bounds `lo`, `hi` of `t / n`. */
  lemma RoundingBetween(r: int, t: int, n: int, lo: int, hi: int)
    requires n > 0 && WithinHalf(r, t, n)
    requires lo * n <= t <= hi * n
    ensures lo <= r <= hi
  {
    if r < lo {
      assert (lo - 1) * n == lo * n - n;
      MulMono(r, lo - 1, n);
    }
    if r > hi {
      assert (hi + 1) * n == hi * n + n;
      MulMono(hi + 1, r, n);
    }
  }

  /** The stored value lies between any lower and any upper bound of the live scores,
      in particular between the smallest and the largest live score. */
  lemma WellbeingBetween(rel: seq<HabitScore>, lo: int, hi: int)
    requires |Live(rel)| > 0
    requires forall k :: 0 <= k < |Live(rel)| ==> lo <= Live(rel)[k].score <= hi
    ensures lo <= Wellbeing(rel) <= hi
  {
    var active := Live(rel);
    TotalBounds(active, lo, hi);
    RoundingBetween(Wellbeing(rel), Total(active), |active|, lo, hi);
  }

  /** With every live score in 0.0..10.0 the stored value is in 0.0..10.0. */
  lemma WellbeingInRange(rel: seq<HabitScore>)
    requires forall s :: s in rel && s.deletedAt.None? ==> 0 <= s.score <= 100
    ensures 0 <= Wellbeing(rel) <= 100
  {
    if |Live(rel)| > 0 {
      WellbeingBetween(rel, 0, 100);
    }
  }

  /** The last element of `a` occurs in any `b` with the same multiset; removing both keeps the multisets equal. */
  lemma MatchLast(a: seq<HabitScore>, b: seq<HabitScore>) returns (i: int)
    requires |a| > 0 && multiset(a) == multiset(b)
    ensures 0 <= i < |b| && b[i] == a[|a| - 1]
    ensures multiset(a[..|a| - 1]) == multiset(b[..i] + b[i + 1..])
  {
    var x := a[|a| - 1];
    var a' := a[..|a| - 1];
    assert a == a' + [x];
    assert x in multiset(b);
    i :| 0 <= i < |b| && b[i] == x;
    var b' := b[..i] + b[i + 1..];
    assert b == b[..i] + [x] + b[i + 1..];
    assert multiset(b) == multiset(b[..i]) + multiset{x} + multiset(b[i + 1..]);
    assert multiset(b') == multiset(b[..i]) + multiset(b[i + 1..]);
    assert multiset(a') == multiset(a) - multiset{x};
    assert multiset(b') == multiset(b) - multiset{x};
  }

  /** Removing element `i` takes its own share out of the live count and total. */
  lemma LiveRemove(b: seq<HabitScore>, i: int)
    requires 0 <= i < |b|
    ensures |Live(b)| == |Live(b[..i] + b[i + 1..])| + |Live([b[i]])|
    ensures Total(Live(b)) == Total(Live(b[..i] + b[i + 1..])) + Total(Live([b[i]]))
  {
    var pre, x, post := b[..i], b[i], b[i + 1..];
    assert b == pre + [x] + post;
    LiveConcat(pre + [x], post);
    LiveConcat(pre, [x]);
    LiveConcat(pre, post);
    TotalConcat(Live(pre) + Live([x]), Live(post));
    TotalConcat(Live(pre), Live([x]));
    TotalConcat(Live(pre), Live(post));
  }

  lemma {:induction false} LiveTotalsPermutation(a: seq<HabitScore>, b: seq<HabitScore>)
    requires multiset(a) == multiset(b)
    ensures |Live(a)| == |Live(b)| && Total(Live(a)) == Total(Live(b))
    decreases |a|
  {
    if |a| == 0 {
      assert |b| == |multiset(b)| == 0;
    } else {
      var i := MatchLast(a, b);
      var a' := a[..|a| - 1];
      LiveTotalsPermutation(a', b[..i] + b[i + 1..]);
      LiveRemove(b, i);
      LiveRemove(a, |a| - 1);
      assert a[..|a| - 1] + a[|a|..] == a';
    }
  }

  /** The stored value does not depend on the order of the relationship list. */
  lemma WellbeingOrderIndependent(a: seq<HabitScore>, b: seq<HabitScore>)
    requires multiset(a) == multiset(b)
    ensures Wellbeing(a) == Wellbeing(b)
  {
    LiveTotalsPermutation(a, b);
  }

  // ---------------------------------------------------------------------
  // Relationships and counts
  // ---------------------------------------------------------------------

  /** The `scores` relationship of assessment `aid`. */
  function ScoresOf(scores: seq<HabitScore>, aid: int): (r: seq<HabitScore>)
    ensures forall k :: 0 <= k < |r| ==> r[k].assessmentId == aid
  {
    if |scores| == 0 then []
    else
      var last := scores[|scores| - 1];
      ScoresOf(scores[..|scores| - 1], aid) + (if last.assessmentId == aid then [last] else [])
  }

  /** `ScoresOf` keeps exactly the rows of the assessment, each as often as it occurs, and nothing else. */
  lemma {:induction false} ScoresOfComplete(scores: seq<HabitScore>, aid: int)
    ensures forall s :: multiset(ScoresOf(scores, aid))[s] == if s.assessmentId == aid then multiset(scores)[s] else 0
  {
    if |scores| > 0 {
      ScoresOfComplete(scores[..|scores| - 1], aid);
      assert scores == scores[..|scores| - 1] + [scores[|scores| - 1]];
    }
  }

  /** Number of live scores for one (assessment, client habit) pair. */
  function PairCount(scores: seq<HabitScore>, aid: int, chid: int): (r: nat)
    ensures r <= |scores|
  {
    if |scores| == 0 then 0
    else
      var last := scores[|scores| - 1];
      PairCount(scores[..|scores| - 1], aid, chid)
        + (if LiveFor(last, aid, chid) then 1 else 0)
  }

  /** A live score of the client habit `chid` in the assessment `aid`. */
  predicate LiveFor(s: HabitScore, aid: int, chid: int) {
    s.assessmentId == aid && s.clientHabitId == chid && s.deletedAt.None?
  }

  /** The count is zero exactly when no live score of the pair exists. */
  lemma {:induction false} PairCountPositive(scores: seq<HabitScore>, aid: int, chid: int)
    ensures PairCount(scores, aid, chid) > 0 <==> exists j :: 0 <= j < |scores| && LiveFor(scores[j], aid, chid)
  {
    if |scores| > 0 {
      var init := scores[..|scores| - 1];
      PairCountPositive(init, aid, chid);
      if exists j :: 0 <= j < |init| && LiveFor(init[j], aid, chid) {
        var j :| 0 <= j < |init| && LiveFor(init[j], aid, chid);
        assert scores[j] == init[j];
      }
    }
  }

  lemma ScoresOfAppend(scores: seq<HabitScore>, s: HabitScore, aid: int)
    ensures ScoresOf(scores + [s], aid) == ScoresOf(scores, aid) + (if s.assessmentId == aid then [s] else [])
    ensures PairCount(scores + [s], aid, s.clientHabitId) ==
            PairCount(scores, aid, s.clientHabitId) + (if s.assessmentId == aid && s.deletedAt.None? then 1 else 0)
  {
    assert (scores + [s])[..|scores|] == scores;
  }

  lemma {:induction false} ScoresOfConcat(a: seq<HabitScore>, b: seq<HabitScore>, aid: int)
    ensures ScoresOf(a + b, aid) == ScoresOf(a, aid) + ScoresOf(b, aid)
    decreases |b|
  {
    if |b| == 0 {
      assert a + b == a;
    } else {
      var b' := b[..|b| - 1];
      assert (a + b)[..|a + b| - 1] == a + b';
      ScoresOfConcat(a, b', aid);
    }
  }

  /** Rows that neither before nor after belong to assessment `aid` may change
      freely without changing its relationship list. */
  lemma {:induction false} ScoresOfFrame(s: seq<HabitScore>, t: seq<HabitScore>, aid: int)
    requires |s| == |t|
    requires forall i :: 0 <= i < |s| && (s[i].assessmentId == aid || t[i].assessmentId == aid) ==> s[i] == t[i]
    ensures ScoresOf(s, aid) == ScoresOf(t, aid)
  {
    if |s| > 0 {
      ScoresOfFrame(s[..|s| - 1], t[..|t| - 1], aid);
    }
  }

  /** Rows keep their keys and can only lose liveness: no pair count grows. */
  predicate OnlyRetired(s: seq<HabitScore>, t: seq<HabitScore>) {
    |s| == |t| &&
    forall i :: 0 <= i < |s| ==>
      t[i].assessmentId == s[i].assessmentId && t[i].clientHabitId == s[i].clientHabitId &&
      (t[i].deletedAt.None? ==> s[i].deletedAt.None?)
  }

  lemma {:induction false} PairCountMonoAt(s: seq<HabitScore>, t: seq<HabitScore>, aid: int, chid: int)
    requires OnlyRetired(s, t)
    ensures PairCount(t, aid, chid) <= PairCount(s, aid, chid)
  {
    if |s| > 0 {
      PairCountMonoAt(s[..|s| - 1], t[..|t| - 1], aid, chid);
    }
  }

  lemma PairCountMono(s: seq<HabitScore>, t: seq<HabitScore>)
    requires OnlyRetired(s, t)
    ensures forall aid, chid :: PairCount(t, aid, chid) <= PairCount(s, aid, chid)
  {
    forall aid, chid ensures PairCount(t, aid, chid) <= PairCount(s, aid, chid) {
      PairCountMonoAt(s, t, aid, chid);
    }
  }

  /** With no row pointing at `aid` its relationship list is empty. */
  lemma {:induction false} ScoresOfNone(scores: seq<HabitScore>, aid: int)
    requires forall j :: 0 <= j < |scores| ==> scores[j].assessmentId != aid
    ensures ScoresOf(scores, aid) == []
  {
    if |scores| > 0 {
      ScoresOfNone(scores[..|scores| - 1], aid);
    }
  }

  // ---------------------------------------------------------------------
  // Store invariants
  // ---------------------------------------------------------------------

  /** A score's assessment and client habit exist and belong to the same client. */
  predicate ScoreLinked(d: Db, s: HabitScore) {
    HasRow(d.assessments, s.assessmentId) && HasRow(d.clientHabits, s.clientHabitId) &&
    d.clientHabits[s.clientHabitId - 1].clientId == d.assessments[s.assessmentId - 1].clientId
  }

  /** Every foreign key names an existing row. */
  predicate Linked(d: Db) {
    && (forall i :: 0 <= i < |d.clientHabits| ==> HasRow(d.users, d.clientHabits[i].clientId))
    && (forall i :: 0 <= i < |d.assessments| ==> HasRow(d.users, d.assessments[i].clientId))
    && (forall j :: 0 <= j < |d.scores| ==> ScoreLinked(d, d.scores[j]))
  }

  /** `uix_client_habit` and `uix_client_order`, over all rows, soft-deleted ones
      included; two NULL orders never clash. */
  predicate ClientHabitsUnique(rows: seq<ClientHabit>) {
    forall i, j :: 0 <= i < j < |rows| && rows[i].clientId == rows[j].clientId ==>
      rows[i].habitId != rows[j].habitId &&
      (rows[i].order.Some? && rows[j].order.Some? ==> rows[i].order.value != rows[j].order.value)
  }

  /** `uix_client_week`, over all rows. */
  predicate AssessmentsUnique(rows: seq<WeeklyAssessment>) {
    forall i, j :: 0 <= i < j < |rows| && rows[i].clientId == rows[j].clientId ==>
      rows[i].weekStart != rows[j].weekStart
  }

  ghost predicate WithinWeeklyLimit(scores: seq<HabitScore>) {
    forall aid, chid :: PairCount(scores, aid, chid) <= WeeklyScoreLimit
  }

  /** The cached score of every live assessment is the aggregate of its scores. */
  predicate CachesCurrent(d: Db) {
    forall i :: 0 <= i < |d.assessments| && d.assessments[i].deletedAt.None? ==>
      d.assessments[i].wellbeingScore == Wellbeing(ScoresOf(d.scores, i + 1))
  }

  ghost predicate Consistent(d: Db) {
    && Linked(d)
    && ClientHabitsUnique(d.clientHabits)
    && AssessmentsUnique(d.assessments)
    && WithinWeeklyLimit(d.scores)
    && CachesCurrent(d)
  }

  /** `v` is what `compute_wellbeing_score` stores for the list `rel`: 0 when
      no score is live, otherwise the mean of the live scores within half a tenth. */
  predicate MeanOfLive(v: Tenths, rel: seq<HabitScore>) {
    var live := Live(rel);
    (|live| == 0 ==> v == 0) && (|live| > 0 ==> WithinHalf(v, Total(live), |live|))
  }

  /** `after` is `before` with only the cached score of assessment `aid`
      rewritten, to the mean of that assessment's live scores. */
  predicate CacheRecomputed(before: Db, after: Db, aid: int)
    requires HasRow(before.assessments, aid)
  {
    && after.users == before.users && after.clientHabits == before.clientHabits && after.scores == before.scores
    && |after.assessments| == |before.assessments|
    && (forall i :: 0 <= i < |before.assessments| && i != aid - 1 ==> after.assessments[i] == before.assessments[i])
    && after.assessments[aid - 1] == before.assessments[aid - 1].(wellbeingScore := after.assessments[aid - 1].wellbeingScore)
    && MeanOfLive(after.assessments[aid - 1].wellbeingScore, ScoresOf(before.scores, aid))
  }

  /** The effect of `compute_wellbeing_score` on assessment `aid`: only its cached score changes. */
  function Recompute(d: Db, aid: int): (r: Db)
    requires HasRow(d.assessments, aid)
    ensures CacheRecomputed(d, r, aid)
  {
    d.(assessments := d.assessments[aid - 1 := d.assessments[aid - 1].(wellbeingScore := Wellbeing(ScoresOf(d.scores, aid)))])
  }

  /** Recomputing `aid` repairs its cache; every other cache stays as it was. */
  lemma RecomputeRepairs(d: Db, aid: int)
    requires HasRow(d.assessments, aid)
    requires forall i :: 0 <= i < |d.assessments| && i != aid - 1 && d.assessments[i].deletedAt.None? ==>
      d.assessments[i].wellbeingScore == Wellbeing(ScoresOf(d.scores, i + 1))
    ensures CachesCurrent(Recompute(d, aid))
    ensures Recompute(d, aid).assessments[aid - 1].wellbeingScore == Wellbeing(ScoresOf(d.scores, aid))
  {
  }

  /** An insert the unique constraints on `client_habits` admit keeps the store consistent. */
  lemma InsertClientHabitKeepsConsistent(d: Db, row: ClientHabit)
    requires Consistent(d)
    requires HasRow(d.users, row.clientId)
    requires forall i :: 0 <= i < |d.clientHabits| && d.clientHabits[i].clientId == row.clientId ==>
      d.clientHabits[i].habitId != row.habitId &&
      (d.clientHabits[i].order.Some? && row.order.Some? ==> d.clientHabits[i].order.value != row.order.value)
    ensures Consistent(d.(clientHabits := d.clientHabits + [row]))
  {
    var e := d.(clientHabits := d.clientHabits + [row]);
    forall j | 0 <= j < |e.scores| ensures ScoreLinked(e, e.scores[j]) {
      assert ScoreLinked(d, d.scores[j]);
    }
  }

  /** An insert `uix_client_week` admits, with the default cached score 0.0, keeps the store consistent. */
  lemma InsertAssessmentKeepsConsistent(d: Db, row: WeeklyAssessment)
    requires Consistent(d)
    requires HasRow(d.users, row.clientId) && row.wellbeingScore == 0
    requires forall i :: 0 <= i < |d.assessments| && d.assessments[i].clientId == row.clientId ==>
      d.assessments[i].weekStart != row.weekStart
    ensures Consistent(d.(assessments := d.assessments + [row]))
  {
    var e := d.(assessments := d.assessments + [row]);
    forall j | 0 <= j < |e.scores| ensures ScoreLinked(e, e.scores[j]) {
      assert ScoreLinked(d, d.scores[j]);
    }
    ScoresOfNone(d.scores, |d.assessments| + 1);
  }

  /** The in-memory store: one object holding the four tables. */
  class Store {
    var users: seq<User>
    var clientHabits: seq<ClientHabit>
    var assessments: seq<WeeklyAssessment>
    var scores: seq<HabitScore>

    function State(): Db
      reads this
    {
      Db(users, clientHabits, assessments, scores)
    }

    ghost predicate Valid()
      reads this
    {
      Consistent(State())
    }

    constructor ()
      ensures Valid() && State() == Db([], [], [], [])
    {
      users, clientHabits, assessments, scores := [], [], [], [];
    }

    /** `WeeklyAssessment.compute_wellbeing_score` for assessment `aid`. */
    method ComputeWellbeingScore(aid: int)
      requires HasRow(assessments, aid)
      modifies this
      ensures State() == Recompute(old(State()), aid)
      ensures assessments[aid - 1].wellbeingScore == Wellbeing(ScoresOf(scores, aid))
    {
      var active := Live(ScoresOf(scores, aid));
      var value := 0;
      if |active| != 0 {
        value := RoundedMean(Total(active), |active|);
      }
      assessments := assessments[aid - 1 := assessments[aid - 1].(wellbeingScore := value)];
    }
  }
}
