/** `soft_delete_client`: one timestamp `now` is stamped on the client, on
    each of its client habits and their scores, and on each of its
    assessments and their scores. Rows are never removed. */
module SoftDeleteService {
  import opened Models

  /** Client habit `chid` exists and is assigned to user `uid` (it is in `client.habits`). */
  predicate OwnsHabit(d: Db, uid: int, chid: int) {
    HasRow(d.clientHabits, chid) && d.clientHabits[chid - 1].clientId == uid
  }

  /** Assessment `aid` exists and belongs to user `uid` (it is in `client.assessments`). */
  predicate OwnsAssessment(d: Db, uid: int, aid: int) {
    HasRow(d.assessments, aid) && d.assessments[aid - 1].clientId == uid
  }

  /** The cascade visits score `s`, through `ch.scores` or through `assessment.scores`. */
  predicate Reaches(d: Db, uid: int, s: HabitScore) {
    OwnsHabit(d, uid, s.clientHabitId) || OwnsAssessment(d, uid, s.assessmentId)
  }

  /** The store after `soft_delete_client(client)` for the client with id `uid`,
      every written row carrying the same `now`. No row is removed or added, and
      no field other than `deleted_at` changes, so every foreign key and every
      relationship list keeps its members. */
  function CascadeClient(d: Db, uid: int, now: Timestamp): (r: Db)
    requires HasRow(d.users, uid)
    ensures |r.users| == |d.users| && |r.clientHabits| == |d.clientHabits|
    ensures |r.assessments| == |d.assessments| && |r.scores| == |d.scores|
    ensures forall i :: 0 <= i < |d.users| ==> r.users[i] == d.users[i].(deletedAt := r.users[i].deletedAt)
    ensures forall i :: 0 <= i < |d.clientHabits| ==> r.clientHabits[i] == d.clientHabits[i].(deletedAt := r.clientHabits[i].deletedAt)
    ensures forall i :: 0 <= i < |d.assessments| ==> r.assessments[i] == d.assessments[i].(deletedAt := r.assessments[i].deletedAt)
    ensures forall j :: 0 <= j < |d.scores| ==> r.scores[j] == d.scores[j].(deletedAt := r.scores[j].deletedAt)
  {
    Db(
      d.users[uid - 1 := d.users[uid - 1].(deletedAt := Some(now))],
      seq(|d.clientHabits|, i requires 0 <= i < |d.clientHabits| =>
        if d.clientHabits[i].clientId == uid then d.clientHabits[i].(deletedAt := Some(now)) else d.clientHabits[i]),
      seq(|d.assessments|, i requires 0 <= i < |d.assessments| =>
        if d.assessments[i].clientId == uid then d.assessments[i].(deletedAt := Some(now)) else d.assessments[i]),
      seq(|d.scores|, j requires 0 <= j < |d.scores| =>
        if Reaches(d, uid, d.scores[j]) then d.scores[j].(deletedAt := Some(now)) else d.scores[j]))
  }

  /** The client, each of its client habits and each of its assessments carry
      `now`; so does every score reached through either, and so no assessment
      of the client keeps a live score and no habit of the client keeps a live
      score in any week. */
  lemma CascadeCoverage(d: Db, uid: int, now: Timestamp)
    requires HasRow(d.users, uid)
    ensures var r := CascadeClient(d, uid, now);
      && r.users[uid - 1].deletedAt == Some(now)
      && (forall i :: 0 <= i < |d.clientHabits| && d.clientHabits[i].clientId == uid ==> r.clientHabits[i].deletedAt == Some(now))
      && (forall i :: 0 <= i < |d.assessments| && d.assessments[i].clientId == uid ==> r.assessments[i].deletedAt == Some(now))
      && (forall j :: 0 <= j < |d.scores| && Reaches(d, uid, d.scores[j]) ==> r.scores[j].deletedAt == Some(now))
      && (forall aid :: OwnsAssessment(d, uid, aid) ==> Live(ScoresOf(r.scores, aid)) == [])
      && (forall aid, chid :: OwnsHabit(d, uid, chid) ==> PairCount(r.scores, aid, chid) == 0)
  {
    var r := CascadeClient(d, uid, now);
    forall aid | OwnsAssessment(d, uid, aid) ensures Live(ScoresOf(r.scores, aid)) == [] {
      NoLiveInReached(d.scores, r.scores, aid, now, d, uid);
    }
    forall aid, chid | OwnsHabit(d, uid, chid) ensures PairCount(r.scores, aid, chid) == 0 {
      NoPairInReached(d.scores, r.scores, aid, chid, now, d, uid);
    }
  }

  lemma {:induction false} NoLiveInReached(s: seq<HabitScore>, t: seq<HabitScore>, aid: int, now: Timestamp, d: Db, uid: int)
    requires |s| == |t| && OwnsAssessment(d, uid, aid)
    requires forall j :: 0 <= j < |s| ==> t[j] == if Reaches(d, uid, s[j]) then s[j].(deletedAt := Some(now)) else s[j]
    ensures Live(ScoresOf(t, aid)) == []
  {
    if |t| > 0 {
      var n := |t| - 1;
      NoLiveInReached(s[..n], t[..n], aid, now, d, uid);
      var last := t[n];
      LiveConcat(ScoresOf(t[..n], aid), if last.assessmentId == aid then [last] else []);
      if last.assessmentId == aid {
        LiveAppend([], last);
      }
    }
  }

  lemma {:induction false} NoPairInReached(s: seq<HabitScore>, t: seq<HabitScore>, aid: int, chid: int, now: Timestamp, d: Db, uid: int)
    requires |s| == |t| && OwnsHabit(d, uid, chid)
    requires forall j :: 0 <= j < |s| ==> t[j] == if Reaches(d, uid, s[j]) then s[j].(deletedAt := Some(now)) else s[j]
    ensures PairCount(t, aid, chid) == 0
  {
    if |t| > 0 {
      NoPairInReached(s[..|s| - 1], t[..|t| - 1], aid, chid, now, d, uid);
    }
  }

  /** Rows the cascade does not reach are unchanged, other users included. */
  lemma CascadeFrame(d: Db, uid: int, now: Timestamp)
    requires HasRow(d.users, uid)
    ensures var r := CascadeClient(d, uid, now);
      && (forall i :: 0 <= i < |d.users| && i != uid - 1 ==> r.users[i] == d.users[i])
      && (forall i :: 0 <= i < |d.clientHabits| && d.clientHabits[i].clientId != uid ==> r.clientHabits[i] == d.clientHabits[i])
      && (forall i :: 0 <= i < |d.assessments| && d.assessments[i].clientId != uid ==> r.assessments[i] == d.assessments[i])
      && (forall j :: 0 <= j < |d.scores| && !Reaches(d, uid, d.scores[j]) ==> r.scores[j] == d.scores[j])
  {
  }

  /** The cascade does not change which rows it reaches. */
  lemma CascadeKeepsReach(d: Db, uid: int, now: Timestamp, s: HabitScore)
    requires HasRow(d.users, uid)
    ensures Reaches(CascadeClient(d, uid, now), uid, s) <==> Reaches(d, uid, s)
  {
  }

  /** Running the cascade again overwrites every stamp: the result is the
      cascade with the second timestamp alone. */
  lemma CascadeTwice(d: Db, uid: int, t1: Timestamp, t2: Timestamp)
    requires HasRow(d.users, uid)
    ensures CascadeClient(CascadeClient(d, uid, t1), uid, t2) == CascadeClient(d, uid, t2)
  {
    var r1 := CascadeClient(d, uid, t1);
    var r2 := CascadeClient(r1, uid, t2);
    var r := CascadeClient(d, uid, t2);
    forall j | 0 <= j < |d.scores| ensures r2.scores[j] == r.scores[j] {
      CascadeKeepsReach(d, uid, t1, d.scores[j]);
      CascadeKeepsReach(d, uid, t1, r1.scores[j]);
    }
  }

  /** Which rows are live, table by table. */
  datatype Liveness = Liveness(users: seq<bool>, clientHabits: seq<bool>, assessments: seq<bool>, scores: seq<bool>)

  function LivenessOf(d: Db): Liveness {
    Liveness(
      seq(|d.users|, i requires 0 <= i < |d.users| => d.users[i].deletedAt.None?),
      seq(|d.clientHabits|, i requires 0 <= i < |d.clientHabits| => d.clientHabits[i].deletedAt.None?),
      seq(|d.assessments|, i requires 0 <= i < |d.assessments| => d.assessments[i].deletedAt.None?),
      seq(|d.scores|, j requires 0 <= j < |d.scores| => d.scores[j].deletedAt.None?))
  }

  /** On liveness the cascade is idempotent and independent of its timestamp;
      only the stored timestamps tell a repeated run apart. */
  lemma CascadeLivenessIdempotent(d: Db, uid: int, t1: Timestamp, t2: Timestamp)
    requires HasRow(d.users, uid)
    ensures LivenessOf(CascadeClient(CascadeClient(d, uid, t1), uid, t2)) == LivenessOf(CascadeClient(d, uid, t1))
    ensures t1 != t2 ==> CascadeClient(CascadeClient(d, uid, t1), uid, t2) != CascadeClient(d, uid, t1)
  {
    CascadeTwice(d, uid, t1, t2);
    var a := CascadeClient(d, uid, t1);
    var b := CascadeClient(d, uid, t2);
    assert b.users[uid - 1].deletedAt == Some(t2);
    assert a.users[uid - 1].deletedAt == Some(t1);
  }

  /** Foreign keys and ownership survive the cascade. */
  lemma CascadeKeepsLinked(d: Db, uid: int, now: Timestamp)
    requires Linked(d) && HasRow(d.users, uid)
    ensures Linked(CascadeClient(d, uid, now))
  {
    var r := CascadeClient(d, uid, now);
    forall j | 0 <= j < |r.scores| ensures ScoreLinked(r, r.scores[j]) {
      assert ScoreLinked(d, d.scores[j]);
    }
  }

  /** A live assessment after the cascade is not the client's, so no score of
      it is reached (scores are linked to their assessment's client) and its
      cache stays current. */
  lemma CascadeKeepsCaches(d: Db, uid: int, now: Timestamp)
    requires Linked(d) && CachesCurrent(d) && HasRow(d.users, uid)
    ensures CachesCurrent(CascadeClient(d, uid, now))
  {
    var r := CascadeClient(d, uid, now);
    forall i | 0 <= i < |r.assessments| && r.assessments[i].deletedAt.None?
      ensures r.assessments[i].wellbeingScore == Wellbeing(ScoresOf(r.scores, i + 1))
    {
      CascadeSparesAssessment(d, uid, now, i + 1);
    }
  }

  lemma CascadeSparesAssessment(d: Db, uid: int, now: Timestamp, aid: int)
    requires Linked(d) && HasRow(d.users, uid) && HasRow(d.assessments, aid)
    requires d.assessments[aid - 1].clientId != uid
    ensures ScoresOf(CascadeClient(d, uid, now).scores, aid) == ScoresOf(d.scores, aid)
  {
    var r := CascadeClient(d, uid, now);
    forall j | 0 <= j < |d.scores| && (d.scores[j].assessmentId == aid || r.scores[j].assessmentId == aid)
      ensures d.scores[j] == r.scores[j]
    {
      assert ScoreLinked(d, d.scores[j]);
    }
    ScoresOfFrame(d.scores, r.scores, aid);
  }

  /** The cascade keeps every invariant of the store. */
  lemma CascadeKeepsConsistent(d: Db, uid: int, now: Timestamp)
    requires Consistent(d) && HasRow(d.users, uid)
    ensures Consistent(CascadeClient(d, uid, now))
  {
    var r := CascadeClient(d, uid, now);
    CascadeKeepsLinked(d, uid, now);
    CascadeKeepsCaches(d, uid, now);
    assert OnlyRetired(d.scores, r.scores);
    PairCountMono(d.scores, r.scores);
  }

  /** Scores stamped by the first `habitsDone` client habits and the first
      `assessmentsDone` assessments of the client. */
  predicate ReachedSoFar(d: Db, uid: int, s: HabitScore, habitsDone: int, assessmentsDone: int) {
    (OwnsHabit(d, uid, s.clientHabitId) && s.clientHabitId <= habitsDone) ||
    (OwnsAssessment(d, uid, s.assessmentId) && s.assessmentId <= assessmentsDone)
  }

  /** `soft_delete_client`: the nested loops of the source, in its order. */
  method SoftDeleteClient(store: Store, uid: int, now: Timestamp)
    requires HasRow(store.users, uid)
    modifies store
    ensures store.State() == CascadeClient(old(store.State()), uid, now)
  {
    ghost var d := store.State();
    store.users := store.users[uid - 1 := store.users[uid - 1].(deletedAt := Some(now))];
    var i := 0;
    while i < |store.clientHabits|
      invariant 0 <= i <= |store.clientHabits| == |d.clientHabits|
      invariant store.users == d.users[uid - 1 := d.users[uid - 1].(deletedAt := Some(now))]
      invariant store.assessments == d.assessments
      invariant forall k :: 0 <= k < |d.clientHabits| ==>
        store.clientHabits[k] == (if k < i && d.clientHabits[k].clientId == uid then d.clientHabits[k].(deletedAt := Some(now)) else d.clientHabits[k])
      invariant |store.scores| == |d.scores|
      invariant forall k :: 0 <= k < |d.scores| ==>
        store.scores[k] == (if ReachedSoFar(d, uid, d.scores[k], i, 0) then d.scores[k].(deletedAt := Some(now)) else d.scores[k])
    {
      if store.clientHabits[i].clientId == uid {
        store.clientHabits := store.clientHabits[i := store.clientHabits[i].(deletedAt := Some(now))];
        ghost var users, clientHabits, assessments := store.users, store.clientHabits, store.assessments;
        var j := 0;
        while j < |store.scores|
          invariant 0 <= j <= |store.scores| == |d.scores|
          invariant store.users == users && store.clientHabits == clientHabits && store.assessments == assessments
          invariant forall k :: 0 <= k < |d.scores| ==>
            store.scores[k] == (if ReachedSoFar(d, uid, d.scores[k], i, 0) || (k < j && d.scores[k].clientHabitId == i + 1)
            then d.scores[k].(deletedAt := Some(now)) else d.scores[k])
        {
          if store.scores[j].clientHabitId == i + 1 {
            store.scores := store.scores[j := store.scores[j].(deletedAt := Some(now))];
          }
          j := j + 1;
        }
      }
      i := i + 1;
    }
    i := 0;
    while i < |store.assessments|
      invariant 0 <= i <= |store.assessments| == |d.assessments|
      invariant store.users == d.users[uid - 1 := d.users[uid - 1].(deletedAt := Some(now))]
      invariant |store.clientHabits| == |d.clientHabits|
      invariant forall k :: 0 <= k < |d.clientHabits| ==>
        store.clientHabits[k] == (if d.clientHabits[k].clientId == uid then d.clientHabits[k].(deletedAt := Some(now)) else d.clientHabits[k])
      invariant forall k :: 0 <= k < |d.assessments| ==>
        store.assessments[k] == (if k < i && d.assessments[k].clientId == uid then d.assessments[k].(deletedAt := Some(now)) else d.assessments[k])
      invariant |store.scores| == |d.scores|
      invariant forall k :: 0 <= k < |d.scores| ==>
        store.scores[k] == (if ReachedSoFar(d, uid, d.scores[k], |d.clientHabits|, i) then d.scores[k].(deletedAt := Some(now)) else d.scores[k])
    {
      if store.assessments[i].clientId == uid {
        store.assessments := store.assessments[i := store.assessments[i].(deletedAt := Some(now))];
        ghost var users, clientHabits, assessments := store.users, store.clientHabits, store.assessments;
        var j := 0;
        while j < |store.scores|
          invariant 0 <= j <= |store.scores| == |d.scores|
          invariant store.users == users && store.clientHabits == clientHabits && store.assessments == assessments
          invariant forall k :: 0 <= k < |d.scores| ==>
            store.scores[k] == (if ReachedSoFar(d, uid, d.scores[k], |d.clientHabits|, i) || (k < j && d.scores[k].assessmentId == i + 1)
            then d.scores[k].(deletedAt := Some(now)) else d.scores[k])
        {
          if store.scores[j].assessmentId == i + 1 {
            store.scores := store.scores[j := store.scores[j].(deletedAt := Some(now))];
          }
          j := j + 1;
        }
      }
      i := i + 1;
    }
  }
}
