/** The store rules of the assessment routes: creating, updating and
    deleting habit scores, deleting an assessment with its scores, and the
    read and comment routes that share the live-assessment lookup. Every
    handler either fails with the first check that does not hold, leaving
    the store as it was, or makes its writes and (for the score routes)
    recomputes the cached wellbeing score. */
module AssessmentRoutes {
  import opened Models
  import opened Access
  import opened Sanitization

  /** How the `score` field of the request body arrived. `float(...)` parsing
      is abstracted: a value it accepts is `Numeric`, given in tenths. */
  datatype ScoreInput = ScoreAbsent | ScoreNull | NotNumeric | Numeric(tenths: Tenths)

  /** How the `note` (or `overall_comment`) field arrived. */
  datatype NoteInput = NoteAbsent | NoteNull | NoteText(text: string)

  datatype CreateRequest = CreateRequest(clientHabitId: Option<int>, score: ScoreInput, note: NoteInput)

  datatype UpdateRequest = UpdateRequest(score: ScoreInput, note: NoteInput)

  /** Each error response of the routes. */
  datatype Failure =
    | AssessmentNotFound
    | ScoreNotFound
    | Forbidden
    | ClientHabitIdRequired
    | ClientHabitNotFound
    | HabitNotOwned
    | ScoreRequired
    | ScoreNotNumeric
    | ScoreOutOfRange
    | WeeklyLimitReached

  datatype Result<T> = Ok(value: T) | Err(error: Failure)

  /** The HTTP status of each failure; the weekly limit is a 400, not a 409. */
  function StatusCode(f: Failure): (code: int)
    ensures code == 404 <==> f.AssessmentNotFound? || f.ScoreNotFound? || f.ClientHabitNotFound?
    ensures code == 403 <==> f.Forbidden?
    ensures code == 400 <==> !(f.AssessmentNotFound? || f.ScoreNotFound? || f.ClientHabitNotFound? || f.Forbidden?)
  {
    match f
    case AssessmentNotFound => 404
    case ScoreNotFound => 404
    case ClientHabitNotFound => 404
    case Forbidden => 403
    case _ => 400
  }

  /** `strip_tags(raw) if raw else None`: a missing, null or empty value is stored as NULL. */
  function SanitizedNote(n: NoteInput): (r: Option<string>)
    ensures r.Some? <==> n.NoteText? && n.text != ""
    ensures r.Some? ==> TagFree(r.value) && IsSubsequence(r.value, n.text)
  {
    if n.NoteText? && n.text != "" then
      StripTagsTagFree(n.text);
      StripTagsSubsequence(n.text);
      Some(StripTags(n.text))
    else None
  }

  /** A score the range check admits: 0.0 to 10.0, both ends included. */
  predicate InRange(v: Tenths) {
    0 <= v <= 100
  }

  // ---------------------------------------------------------------------
  // create_score
  // ---------------------------------------------------------------------

  /** The checks of `create_score` up to and including client-habit ownership hold. */
  predicate HabitChecked(d: Db, caller: Principal, aid: int, req: CreateRequest) {
    && HasRow(d.assessments, aid)
    && CanAccessAssessment(caller, d.assessments[aid - 1])
    && req.clientHabitId.Some? && req.clientHabitId.value != 0
    && HasRow(d.clientHabits, req.clientHabitId.value)
    && d.clientHabits[req.clientHabitId.value - 1].clientId == d.assessments[aid - 1].clientId
  }

  /** Every check of `create_score` holds. */
  predicate CreateAdmissible(d: Db, caller: Principal, aid: int, req: CreateRequest) {
    && HabitChecked(d, caller, aid, req)
    && req.score.Numeric? && InRange(req.score.tenths)
    && PairCount(d.scores, aid, req.clientHabitId.value) < WeeklyScoreLimit
  }

  /** The first check of `create_score` that fails, in the handler's order:
      each failure is reported exactly when every earlier check passes and its
      own check fails. Neither lookup filters `deleted_at`; only live scores
      count toward the limit. */
  function CreateFailure(d: Db, caller: Principal, aid: int, req: CreateRequest): (f: Option<Failure>)
    ensures f.None? <==> CreateAdmissible(d, caller, aid, req)
    ensures f == Some(AssessmentNotFound) <==> !HasRow(d.assessments, aid)
    ensures f == Some(Forbidden) <==> HasRow(d.assessments, aid) && !CanAccessAssessment(caller, d.assessments[aid - 1])
    ensures f == Some(ClientHabitIdRequired) <==>
      HasRow(d.assessments, aid) && CanAccessAssessment(caller, d.assessments[aid - 1]) &&
      (req.clientHabitId.None? || req.clientHabitId.value == 0)
    ensures f == Some(ClientHabitNotFound) <==>
      HasRow(d.assessments, aid) && CanAccessAssessment(caller, d.assessments[aid - 1]) &&
      req.clientHabitId.Some? && req.clientHabitId.value != 0 && !HasRow(d.clientHabits, req.clientHabitId.value)
    ensures f == Some(HabitNotOwned) <==>
      HasRow(d.assessments, aid) && CanAccessAssessment(caller, d.assessments[aid - 1]) &&
      req.clientHabitId.Some? && req.clientHabitId.value != 0 && HasRow(d.clientHabits, req.clientHabitId.value) &&
      d.clientHabits[req.clientHabitId.value - 1].clientId != d.assessments[aid - 1].clientId
    ensures f == Some(ScoreRequired) <==>
      HabitChecked(d, caller, aid, req) && (req.score.ScoreAbsent? || req.score.ScoreNull?)
    ensures f == Some(ScoreNotNumeric) <==> HabitChecked(d, caller, aid, req) && req.score.NotNumeric?
    ensures f == Some(ScoreOutOfRange) <==>
      HabitChecked(d, caller, aid, req) && req.score.Numeric? && !InRange(req.score.tenths)
    ensures f == Some(WeeklyLimitReached) <==>
      HabitChecked(d, caller, aid, req) && req.score.Numeric? && InRange(req.score.tenths) &&
      PairCount(d.scores, aid, req.clientHabitId.value) >= WeeklyScoreLimit
  {
    if !HasRow(d.assessments, aid) then Some(AssessmentNotFound)
    else if !CanAccessAssessment(caller, d.assessments[aid - 1]) then Some(Forbidden)
    else if req.clientHabitId.None? || req.clientHabitId.value == 0 then Some(ClientHabitIdRequired)
    else if !HasRow(d.clientHabits, req.clientHabitId.value) then Some(ClientHabitNotFound)
    else if d.clientHabits[req.clientHabitId.value - 1].clientId != d.assessments[aid - 1].clientId then Some(HabitNotOwned)
    else if req.score.ScoreAbsent? || req.score.ScoreNull? then Some(ScoreRequired)
    else if req.score.NotNumeric? then Some(ScoreNotNumeric)
    else if !InRange(req.score.tenths) then Some(ScoreOutOfRange)
    else if PairCount(d.scores, aid, req.clientHabitId.value) >= WeeklyScoreLimit then Some(WeeklyLimitReached)
    else None
  }

  /** The row `create_score` inserts. */
  function NewScore(aid: int, req: CreateRequest): HabitScore
    requires req.clientHabitId.Some? && req.score.Numeric?
  {
    HabitScore(aid, req.clientHabitId.value, req.score.tenths, SanitizedNote(req.note), None)
  }

  /** The store after a successful `create_score`: the row appended, then
      `compute_wellbeing_score` on its assessment. */
  function AddScore(d: Db, aid: int, row: HabitScore): (r: Db)
    requires HasRow(d.assessments, aid)
    ensures CacheRecomputed(d.(scores := d.scores + [row]), r, aid)
  {
    Recompute(d.(scores := d.scores + [row]), aid)
  }

  /** Both ends of the range are accepted. */
  lemma CreateBoundsInclusive(d: Db, caller: Principal, aid: int, chid: Option<int>, note: NoteInput, v: Tenths)
    ensures CreateFailure(d, caller, aid, CreateRequest(chid, Numeric(v), note)) == Some(ScoreOutOfRange) ==> v < 0 || v > 100
    ensures v == 0 || v == 100 ==> CreateFailure(d, caller, aid, CreateRequest(chid, Numeric(v), note)) != Some(ScoreOutOfRange)
  {
  }

  /** Soft-deleted scores do not count toward the weekly limit: adding one
      never changes the outcome of the checks. */
  lemma CreateIgnoresDeletedScores(d: Db, caller: Principal, aid: int, req: CreateRequest, s: HabitScore)
    requires s.deletedAt.Some?
    ensures CreateFailure(d.(scores := d.scores + [s]), caller, aid, req) == CreateFailure(d, caller, aid, req)
  {
    if req.clientHabitId.Some? {
      var e := d.(scores := d.scores + [s]);
      assert PairCount(e.scores, aid, req.clientHabitId.value) == PairCount(d.scores, aid, req.clientHabitId.value) by {
        assert (d.scores + [s])[..|d.scores|] == d.scores;
      }
    }
  }

  /** Soft-deleted assessments and client habits are accepted: the checks do
      not read either row's `deleted_at`. */
  lemma CreateAcceptsDeletedRows(d: Db, caller: Principal, aid: int, req: CreateRequest, t: Timestamp)
    requires HasRow(d.assessments, aid)
    requires req.clientHabitId.Some? && HasRow(d.clientHabits, req.clientHabitId.value)
    ensures var chid := req.clientHabitId.value;
      var e := d.(assessments := d.assessments[aid - 1 := d.assessments[aid - 1].(deletedAt := Some(t))],
                  clientHabits := d.clientHabits[chid - 1 := d.clientHabits[chid - 1].(deletedAt := Some(t))]);
      CreateFailure(e, caller, aid, req) == CreateFailure(d, caller, aid, req)
  {
  }

  /** A successful creation adds exactly one live score for the pair, the
      pair stays within the limit, and the cached value is the mean including it. */
  lemma CreateAddsOneScore(d: Db, caller: Principal, aid: int, req: CreateRequest)
    requires CreateFailure(d, caller, aid, req).None?
    ensures var r := AddScore(d, aid, NewScore(aid, req));
      && |r.scores| == |d.scores| + 1
      && r.scores[..|d.scores|] == d.scores
      && r.scores[|d.scores|].deletedAt.None?
      && PairCount(r.scores, aid, req.clientHabitId.value) == PairCount(d.scores, aid, req.clientHabitId.value) + 1
      && PairCount(r.scores, aid, req.clientHabitId.value) <= WeeklyScoreLimit
      && ScoresOf(r.scores, aid) == ScoresOf(d.scores, aid) + [NewScore(aid, req)]
      && r.assessments[aid - 1].wellbeingScore == Wellbeing(ScoresOf(d.scores, aid) + [NewScore(aid, req)])
  {
    ScoresOfAppend(d.scores, NewScore(aid, req), aid);
  }

  /** Appending a score linked to an assessment and a client habit of the
      same client, to a pair below the limit, and recomputing its assessment,
      keeps every store invariant. */
  lemma AddScoreKeepsConsistent(d: Db, aid: int, row: HabitScore)
    requires Consistent(d) && HasRow(d.assessments, aid)
    requires row.assessmentId == aid && ScoreLinked(d, row)
    requires PairCount(d.scores, aid, row.clientHabitId) < WeeklyScoreLimit
    ensures Consistent(AddScore(d, aid, row))
  {
    var e := d.(scores := d.scores + [row]);
    forall j | 0 <= j < |e.scores| ensures ScoreLinked(e, e.scores[j]) {
      if j < |d.scores| {
        assert ScoreLinked(d, d.scores[j]);
      }
    }
    forall a, c ensures PairCount(e.scores, a, c) <= WeeklyScoreLimit {
      assert (d.scores + [row])[..|d.scores|] == d.scores;
      assert PairCount(d.scores, a, c) <= WeeklyScoreLimit;
    }
    forall a | HasRow(e.assessments, a) && a != aid
      ensures ScoresOf(e.scores, a) == ScoresOf(d.scores, a)
    {
      ScoresOfAppend(d.scores, row, a);
    }
    RecomputeKeeps(e, aid);
  }

  /** A request that passes every check keeps the store consistent. */
  lemma CreateKeepsConsistent(d: Db, caller: Principal, aid: int, req: CreateRequest)
    requires Consistent(d) && CreateFailure(d, caller, aid, req).None?
    ensures Consistent(AddScore(d, aid, NewScore(aid, req)))
  {
    AddScoreKeepsConsistent(d, aid, NewScore(aid, req));
  }

  /** `create_score`: returns the id of the new score. */
  method CreateScore(store: Store, caller: Principal, aid: int, req: CreateRequest) returns (r: Result<int>)
    modifies store
    ensures r.Err? <==> CreateFailure(old(store.State()), caller, aid, req).Some?
    ensures r.Err? ==> r.error == CreateFailure(old(store.State()), caller, aid, req).value && store.State() == old(store.State())
    ensures r.Ok? ==>
      r.value == |old(store.scores)| + 1 && store.State() == AddScore(old(store.State()), aid, NewScore(aid, req))
    ensures old(store.Valid()) ==> store.Valid()
  {
    if !HasRow(store.assessments, aid) {
      return Err(AssessmentNotFound);
    }
    var assessment := store.assessments[aid - 1];
    if !CanAccessAssessment(caller, assessment) {
      return Err(Forbidden);
    }
    if req.clientHabitId.None? || req.clientHabitId.value == 0 {
      return Err(ClientHabitIdRequired);
    }
    var clientHabitId := req.clientHabitId.value;
    if !HasRow(store.clientHabits, clientHabitId) {
      return Err(ClientHabitNotFound);
    }
    if store.clientHabits[clientHabitId - 1].clientId != assessment.clientId {
      return Err(HabitNotOwned);
    }
    var scoreNum;
    match req.score {
      case ScoreAbsent => return Err(ScoreRequired);
      case ScoreNull => return Err(ScoreRequired);
      case NotNumeric => return Err(ScoreNotNumeric);
      case Numeric(v) => scoreNum := v;
    }
    if scoreNum < 0 || scoreNum > 100 {
      return Err(ScoreOutOfRange);
    }
    var existingCount := PairCount(store.scores, aid, clientHabitId);
    if existingCount >= WeeklyScoreLimit {
      return Err(WeeklyLimitReached);
    }
    ghost var d := store.State();
    if store.Valid() {
      CreateKeepsConsistent(d, caller, aid, req);
    }
    store.scores := store.scores + [HabitScore(aid, clientHabitId, scoreNum, SanitizedNote(req.note), None)];
    store.ComputeWellbeingScore(aid);
    r := Ok(|store.scores|);
  }

  // ---------------------------------------------------------------------
  // update_score and delete_score
  // ---------------------------------------------------------------------

  /** The first check of `update_score` that fails. A present score must be
      numeric (`float(None)` raises too) and in range; nothing else is checked,
      and a soft-deleted score can still be found. */
  function UpdateFailure(d: Db, caller: Principal, sid: int, req: UpdateRequest): (f: Option<Failure>)
    requires Linked(d)
    ensures f.None? <==>
      HasRow(d.scores, sid) &&
      CanAccessAssessment(caller, d.assessments[d.scores[sid - 1].assessmentId - 1]) &&
      (req.score.ScoreAbsent? || (req.score.Numeric? && InRange(req.score.tenths)))
    ensures f == Some(ScoreNotFound) <==> !HasRow(d.scores, sid)
    ensures f == Some(ScoreNotNumeric) <==>
      HasRow(d.scores, sid) &&
      CanAccessAssessment(caller, d.assessments[d.scores[sid - 1].assessmentId - 1]) &&
      (req.score.ScoreNull? || req.score.NotNumeric?)
    ensures f == Some(Forbidden) <==>
      HasRow(d.scores, sid) && !CanAccessAssessment(caller, d.assessments[d.scores[sid - 1].assessmentId - 1])
    ensures f == Some(ScoreOutOfRange) <==>
      HasRow(d.scores, sid) &&
      CanAccessAssessment(caller, d.assessments[d.scores[sid - 1].assessmentId - 1]) &&
      req.score.Numeric? && !InRange(req.score.tenths)
  {
    if !HasRow(d.scores, sid) then Some(ScoreNotFound)
    else
      assert ScoreLinked(d, d.scores[sid - 1]);
      if !CanAccessAssessment(caller, d.assessments[d.scores[sid - 1].assessmentId - 1]) then Some(Forbidden)
      else match req.score
        case ScoreAbsent => None
        case ScoreNull => Some(ScoreNotNumeric)
        case NotNumeric => Some(ScoreNotNumeric)
        case Numeric(v) => if !InRange(v) then Some(ScoreOutOfRange) else None
  }

  /** The score row after `update_score` sets the score and/or the note. */
  function UpdatedRow(row: HabitScore, req: UpdateRequest): (r: HabitScore)
    ensures r.assessmentId == row.assessmentId && r.clientHabitId == row.clientHabitId && r.deletedAt == row.deletedAt
    ensures r.score == if req.score.Numeric? then req.score.tenths else row.score
    ensures r.note == if req.note.NoteAbsent? then row.note else SanitizedNote(req.note)
  {
    var withScore := if req.score.Numeric? then row.(score := req.score.tenths) else row;
    if req.note.NoteAbsent? then withScore else withScore.(note := SanitizedNote(req.note))
  }

  /** The store after a score row is replaced by `x` and its assessment recomputed. */
  function ReplaceScore(d: Db, sid: int, x: HabitScore): Db
    requires HasRow(d.scores, sid) && HasRow(d.assessments, x.assessmentId)
  {
    Recompute(d.(scores := d.scores[sid - 1 := x]), x.assessmentId)
  }

  /** The store after a successful `update_score`. */
  function ApplyUpdate(d: Db, sid: int, req: UpdateRequest): (r: Db)
    requires Linked(d) && HasRow(d.scores, sid)
    ensures HasRow(d.assessments, d.scores[sid - 1].assessmentId)
    ensures CacheRecomputed(d.(scores := d.scores[sid - 1 := UpdatedRow(d.scores[sid - 1], req)]), r, d.scores[sid - 1].assessmentId)
  {
    assert ScoreLinked(d, d.scores[sid - 1]);
    ReplaceScore(d, sid, UpdatedRow(d.scores[sid - 1], req))
  }

  /** The store after `delete_score` stamps `now` on the score. */
  function TombstoneScore(d: Db, sid: int, now: Timestamp): (r: Db)
    requires Linked(d) && HasRow(d.scores, sid)
    ensures HasRow(d.assessments, d.scores[sid - 1].assessmentId)
    ensures CacheRecomputed(d.(scores := d.scores[sid - 1 := d.scores[sid - 1].(deletedAt := Some(now))]), r, d.scores[sid - 1].assessmentId)
  {
    assert ScoreLinked(d, d.scores[sid - 1]);
    ReplaceScore(d, sid, d.scores[sid - 1].(deletedAt := Some(now)))
  }

  /** The first check of `delete_score` that fails. */
  function DeleteScoreFailure(d: Db, caller: Principal, sid: int): (f: Option<Failure>)
    requires Linked(d)
    ensures f.None? <==> HasRow(d.scores, sid) && CanAccessAssessment(caller, d.assessments[d.scores[sid - 1].assessmentId - 1])
    ensures f == Some(ScoreNotFound) <==> !HasRow(d.scores, sid)
    ensures f == Some(Forbidden) <==>
      HasRow(d.scores, sid) && !CanAccessAssessment(caller, d.assessments[d.scores[sid - 1].assessmentId - 1])
  {
    if !HasRow(d.scores, sid) then Some(ScoreNotFound)
    else
      assert ScoreLinked(d, d.scores[sid - 1]);
      if !CanAccessAssessment(caller, d.assessments[d.scores[sid - 1].assessmentId - 1]) then Some(Forbidden)
      else None
  }

  /** Across the score routes, `_can_access_assessment` is the only gate on
      the caller: someone who is neither a counsellor nor the client owning
      the assessment is refused with 403 (404 for a deleted assessment on the
      live-assessment routes) by every route, so the handlers leave the store
      unchanged; a counsellor or the owner is never refused with 403. */
  lemma ForeignCallerRefused(d: Db, p: Principal, aid: int, sid: int, create: CreateRequest, update: UpdateRequest)
    requires Linked(d)
    ensures HasRow(d.assessments, aid) ==>
      var owner := d.assessments[aid - 1].clientId;
      && (!IsCounsellor(p) && !IsSelfClient(p, owner) ==>
            && CreateFailure(d, p, aid, create) == Some(Forbidden)
            && (LiveAssessmentFailure(d, p, aid) == Some(Forbidden) || LiveAssessmentFailure(d, p, aid) == Some(AssessmentNotFound)))
      && (IsCounsellor(p) || IsSelfClient(p, owner) ==>
            CreateFailure(d, p, aid, create) != Some(Forbidden) && LiveAssessmentFailure(d, p, aid) != Some(Forbidden))
    ensures HasRow(d.scores, sid) ==>
      var owner := d.assessments[d.scores[sid - 1].assessmentId - 1].clientId;
      && (!IsCounsellor(p) && !IsSelfClient(p, owner) ==>
            UpdateFailure(d, p, sid, update) == Some(Forbidden) && DeleteScoreFailure(d, p, sid) == Some(Forbidden))
      && (IsCounsellor(p) || IsSelfClient(p, owner) ==>
            UpdateFailure(d, p, sid, update) != Some(Forbidden) && DeleteScoreFailure(d, p, sid) != Some(Forbidden))
  {
    if HasRow(d.scores, sid) {
      assert ScoreLinked(d, d.scores[sid - 1]);
    }
  }

  lemma {:induction false} PairCountConcat(a: seq<HabitScore>, b: seq<HabitScore>, aid: int, chid: int)
    ensures PairCount(a + b, aid, chid) == PairCount(a, aid, chid) + PairCount(b, aid, chid)
    decreases |b|
  {
    if |b| == 0 {
      assert a + b == a;
    } else {
      var b' := b[..|b| - 1];
      assert (a + b)[..|a + b| - 1] == a + b';
      PairCountConcat(a, b', aid, chid);
    }
  }

  /** The relationship list of `aid` around position `j` of the table. */
  lemma ScoresOfSplit(s: seq<HabitScore>, j: int, aid: int)
    requires 0 <= j < |s|
    ensures ScoresOf(s, aid) == ScoresOf(s[..j], aid) + ScoresOf([s[j]], aid) + ScoresOf(s[j + 1..], aid)
    ensures PairCount(s, aid, s[j].clientHabitId) ==
      PairCount(s[..j], aid, s[j].clientHabitId) + PairCount([s[j]], aid, s[j].clientHabitId) + PairCount(s[j + 1..], aid, s[j].clientHabitId)
  {
    assert s == s[..j] + [s[j]] + s[j + 1..];
    ScoresOfConcat(s[..j] + [s[j]], s[j + 1..], aid);
    ScoresOfConcat(s[..j], [s[j]], aid);
    PairCountConcat(s[..j] + [s[j]], s[j + 1..], aid, s[j].clientHabitId);
    PairCountConcat(s[..j], [s[j]], aid, s[j].clientHabitId);
  }

  /** Replacing a score by one with the same keys that is no more live
      leaves every other assessment's relationship list as it was and keeps
      foreign keys and the weekly limit. */
  lemma ReplaceScoreFrame(d: Db, sid: int, x: HabitScore)
    requires Consistent(d) && HasRow(d.scores, sid)
    requires x.assessmentId == d.scores[sid - 1].assessmentId && x.clientHabitId == d.scores[sid - 1].clientHabitId
    requires x.deletedAt.None? ==> d.scores[sid - 1].deletedAt.None?
    ensures var e := d.(scores := d.scores[sid - 1 := x]);
      && Linked(e) && WithinWeeklyLimit(e.scores)
      && (forall a :: HasRow(e.assessments, a) && a != x.assessmentId ==> ScoresOf(e.scores, a) == ScoresOf(d.scores, a))
  {
    assert ScoreLinked(d, d.scores[sid - 1]);
    var e := d.(scores := d.scores[sid - 1 := x]);
    forall j | 0 <= j < |e.scores| ensures ScoreLinked(e, e.scores[j]) {
      assert ScoreLinked(d, d.scores[j]);
    }
    assert OnlyRetired(d.scores, e.scores);
    PairCountMono(d.scores, e.scores);
    forall a | HasRow(e.assessments, a) && a != x.assessmentId
      ensures ScoresOf(e.scores, a) == ScoresOf(d.scores, a)
    {
      ScoresOfFrame(d.scores, e.scores, a);
    }
  }

  /** Recomputing assessment `aid` of a store that is consistent except,
      possibly, for the cache of `aid` makes it consistent. */
  lemma RecomputeKeeps(e: Db, aid: int)
    requires HasRow(e.assessments, aid)
    requires Linked(e) && ClientHabitsUnique(e.clientHabits) && AssessmentsUnique(e.assessments) && WithinWeeklyLimit(e.scores)
    requires forall i :: 0 <= i < |e.assessments| && i != aid - 1 && e.assessments[i].deletedAt.None? ==>
      e.assessments[i].wellbeingScore == Wellbeing(ScoresOf(e.scores, i + 1))
    ensures Consistent(Recompute(e, aid))
  {
    RecomputeRepairs(e, aid);
    var r := Recompute(e, aid);
    forall j | 0 <= j < |r.scores| ensures ScoreLinked(r, r.scores[j]) {
      assert ScoreLinked(e, e.scores[j]);
    }
    assert AssessmentsUnique(r.assessments) by {
      forall i, k | 0 <= i < k < |r.assessments| && r.assessments[i].clientId == r.assessments[k].clientId
        ensures r.assessments[i].weekStart != r.assessments[k].weekStart
      {
        assert e.assessments[i].weekStart == r.assessments[i].weekStart;
        assert e.assessments[k].weekStart == r.assessments[k].weekStart;
      }
    }
  }

  /** Replacing a score by one with the same keys that is no more live,
      then recomputing its assessment, keeps every store invariant. */
  lemma ReplaceScoreKeepsConsistent(d: Db, sid: int, x: HabitScore)
    requires Consistent(d) && HasRow(d.scores, sid)
    requires x.assessmentId == d.scores[sid - 1].assessmentId && x.clientHabitId == d.scores[sid - 1].clientHabitId
    requires x.deletedAt.None? ==> d.scores[sid - 1].deletedAt.None?
    ensures HasRow(d.assessments, x.assessmentId)
    ensures Consistent(ReplaceScore(d, sid, x))
  {
    assert ScoreLinked(d, d.scores[sid - 1]);
    ReplaceScoreFrame(d, sid, x);
    var e := d.(scores := d.scores[sid - 1 := x]);
    forall i | 0 <= i < |e.assessments| && i != x.assessmentId - 1 && e.assessments[i].deletedAt.None?
      ensures e.assessments[i].wellbeingScore == Wellbeing(ScoresOf(e.scores, i + 1))
    {
      assert HasRow(e.assessments, i + 1);
    }
    RecomputeKeeps(e, x.assessmentId);
  }

  lemma UpdateKeepsConsistent(d: Db, sid: int, req: UpdateRequest)
    requires Consistent(d) && HasRow(d.scores, sid)
    ensures Consistent(ApplyUpdate(d, sid, req))
  {
    ReplaceScoreKeepsConsistent(d, sid, UpdatedRow(d.scores[sid - 1], req));
  }

  lemma DeleteScoreKeepsConsistent(d: Db, sid: int, now: Timestamp)
    requires Consistent(d) && HasRow(d.scores, sid)
    ensures Consistent(TombstoneScore(d, sid, now))
  {
    ReplaceScoreKeepsConsistent(d, sid, d.scores[sid - 1].(deletedAt := Some(now)));
  }

  /** Editing a soft-deleted score into another soft-deleted score of the same
      assessment leaves that assessment's aggregate unchanged. */
  lemma EditDeletedKeepsMean(s: seq<HabitScore>, j: int, x: HabitScore)
    requires 0 <= j < |s| && x.assessmentId == s[j].assessmentId
    requires s[j].deletedAt.Some? && x.deletedAt.Some?
    ensures Wellbeing(ScoresOf(s[j := x], x.assessmentId)) == Wellbeing(ScoresOf(s, x.assessmentId))
  {
    var aid := x.assessmentId;
    var t := s[j := x];
    ScoresOfSplit(s, j, aid);
    ScoresOfSplit(t, j, aid);
    assert t[..j] == s[..j] && t[j + 1..] == s[j + 1..];
    assert ScoresOf([s[j]], aid) == [s[j]] && ScoresOf([x], aid) == [x];
    var pre, post := ScoresOf(s[..j], aid), ScoresOf(s[j + 1..], aid);
    WellbeingIgnoresDeleted(pre, s[j], post);
    WellbeingIgnoresDeleted(pre, x, post);
  }

  /** After `update_score` the cached value is the mean over the scores with
      the row replaced; editing a soft-deleted score changes no cached value. */
  lemma UpdateRecomputes(d: Db, sid: int, req: UpdateRequest)
    requires Consistent(d) && HasRow(d.scores, sid)
    ensures var aid := d.scores[sid - 1].assessmentId;
      var r := ApplyUpdate(d, sid, req);
      && r.scores == d.scores[sid - 1 := UpdatedRow(d.scores[sid - 1], req)]
      && r.assessments[aid - 1].wellbeingScore == Wellbeing(ScoresOf(r.scores, aid))
    ensures var aid := d.scores[sid - 1].assessmentId;
      d.scores[sid - 1].deletedAt.Some? && d.assessments[aid - 1].deletedAt.None? ==>
        ApplyUpdate(d, sid, req).assessments == d.assessments
  {
    var row := d.scores[sid - 1];
    var aid := row.assessmentId;
    assert ScoreLinked(d, row);
    if row.deletedAt.Some? && d.assessments[aid - 1].deletedAt.None? {
      var x := UpdatedRow(row, req);
      EditDeletedKeepsMean(d.scores, sid - 1, x);
      assert d.assessments[aid - 1].wellbeingScore == Wellbeing(ScoresOf(d.scores, aid)) by {
        assert aid == (aid - 1) + 1;
      }
      assert d.assessments[aid - 1 := d.assessments[aid - 1].(wellbeingScore := Wellbeing(ScoresOf(d.scores[sid - 1 := x], aid)))] == d.assessments;
    }
  }

  /** After `delete_score` the score no longer counts: its pair loses one live
      score if it had been live, and the cached value is the mean with the row
      left out altogether. */
  lemma DeleteScoreRetires(d: Db, sid: int, now: Timestamp)
    requires Linked(d) && HasRow(d.scores, sid)
    ensures var row := d.scores[sid - 1];
      var r := TombstoneScore(d, sid, now);
      && r.scores[sid - 1].deletedAt == Some(now)
      && PairCount(r.scores, row.assessmentId, row.clientHabitId) + (if row.deletedAt.None? then 1 else 0)
         == PairCount(d.scores, row.assessmentId, row.clientHabitId)
      && r.assessments[row.assessmentId - 1].wellbeingScore
         == Wellbeing(ScoresOf(d.scores[..sid - 1] + d.scores[sid..], row.assessmentId))
  {
    var row := d.scores[sid - 1];
    var aid := row.assessmentId;
    assert ScoreLinked(d, row);
    var x := row.(deletedAt := Some(now));
    var t := d.scores[sid - 1 := x];
    ScoresOfSplit(d.scores, sid - 1, aid);
    ScoresOfSplit(t, sid - 1, aid);
    assert t[..sid - 1] == d.scores[..sid - 1] && t[sid..] == d.scores[sid..];
    assert ScoresOf([x], aid) == [x];
    assert PairCount([x], aid, row.clientHabitId) == 0;
    var pre, post := ScoresOf(d.scores[..sid - 1], aid), ScoresOf(d.scores[sid..], aid);
    WellbeingIgnoresDeleted(pre, x, post);
    ScoresOfConcat(d.scores[..sid - 1], d.scores[sid..], aid);
  }

  /** `update_score`: returns the updated row. */
  method UpdateScore(store: Store, caller: Principal, sid: int, req: UpdateRequest) returns (r: Result<HabitScore>)
    requires Linked(store.State())
    modifies store
    ensures r.Err? <==> UpdateFailure(old(store.State()), caller, sid, req).Some?
    ensures r.Err? ==> r.error == UpdateFailure(old(store.State()), caller, sid, req).value && store.State() == old(store.State())
    ensures r.Ok? ==> store.State() == ApplyUpdate(old(store.State()), sid, req) && r.value == store.scores[sid - 1]
    ensures old(store.Valid()) ==> store.Valid()
  {
    if !HasRow(store.scores, sid) {
      return Err(ScoreNotFound);
    }
    var score := store.scores[sid - 1];
    assert ScoreLinked(store.State(), score);
    var aid := score.assessmentId;
    if !CanAccessAssessment(caller, store.assessments[aid - 1]) {
      return Err(Forbidden);
    }
    if !req.score.ScoreAbsent? {
      if !req.score.Numeric? {
        return Err(ScoreNotNumeric);
      }
      var newScore := req.score.tenths;
      if newScore < 0 || newScore > 100 {
        return Err(ScoreOutOfRange);
      }
      score := score.(score := newScore);
    }
    if !req.note.NoteAbsent? {
      score := score.(note := SanitizedNote(req.note));
    }
    ghost var d := store.State();
    if store.Valid() {
      UpdateKeepsConsistent(d, sid, req);
    }
    store.scores := store.scores[sid - 1 := score];
    store.ComputeWellbeingScore(aid);
    r := Ok(store.scores[sid - 1]);
  }

  /** `delete_score`. */
  method DeleteScore(store: Store, caller: Principal, sid: int, now: Timestamp) returns (r: Result<()>)
    requires Linked(store.State())
    modifies store
    ensures r.Err? <==> DeleteScoreFailure(old(store.State()), caller, sid).Some?
    ensures r.Err? ==> r.error == DeleteScoreFailure(old(store.State()), caller, sid).value && store.State() == old(store.State())
    ensures r.Ok? ==> store.State() == TombstoneScore(old(store.State()), sid, now)
    ensures old(store.Valid()) ==> store.Valid()
  {
    if !HasRow(store.scores, sid) {
      return Err(ScoreNotFound);
    }
    var score := store.scores[sid - 1];
    assert ScoreLinked(store.State(), score);
    if !CanAccessAssessment(caller, store.assessments[score.assessmentId - 1]) {
      return Err(Forbidden);
    }
    ghost var d := store.State();
    if store.Valid() {
      DeleteScoreKeepsConsistent(d, sid, now);
    }
    store.scores := store.scores[sid - 1 := score.(deletedAt := Some(now))];
    store.ComputeWellbeingScore(score.assessmentId);
    r := Ok(());
  }

  // ---------------------------------------------------------------------
  // Routes on one live assessment
  // ---------------------------------------------------------------------

  /** The lookup and guard shared by `get_assessment`, `update_assessment`,
      `delete_assessment` and `list_assessment_scores`: the assessment must
      exist and be live, then the caller must have access. */
  function LiveAssessmentFailure(d: Db, caller: Principal, aid: int): (f: Option<Failure>)
    ensures f.None? <==>
      HasRow(d.assessments, aid) && d.assessments[aid - 1].deletedAt.None? &&
      CanAccessAssessment(caller, d.assessments[aid - 1])
    ensures f == Some(AssessmentNotFound) <==> !(HasRow(d.assessments, aid) && d.assessments[aid - 1].deletedAt.None?)
    ensures f == Some(Forbidden) <==>
      HasRow(d.assessments, aid) && d.assessments[aid - 1].deletedAt.None? &&
      !CanAccessAssessment(caller, d.assessments[aid - 1])
  {
    if !(HasRow(d.assessments, aid) && d.assessments[aid - 1].deletedAt.None?) then Some(AssessmentNotFound)
    else if !CanAccessAssessment(caller, d.assessments[aid - 1]) then Some(Forbidden)
    else None
  }

  /** `list_assessment_scores`: the live scores of the assessment, in id order. */
  function ListAssessmentScores(d: Db, caller: Principal, aid: int): (r: Result<seq<HabitScore>>)
    ensures r.Err? <==> LiveAssessmentFailure(d, caller, aid).Some?
    ensures r.Err? ==> r.error == LiveAssessmentFailure(d, caller, aid).value
    ensures r.Ok? ==> forall k :: 0 <= k < |r.value| ==> r.value[k].assessmentId == aid && r.value[k].deletedAt.None?
    ensures r.Ok? ==> forall s ::
      multiset(r.value)[s] == (if s.assessmentId == aid && s.deletedAt.None? then multiset(d.scores)[s] else 0)
  {
    match LiveAssessmentFailure(d, caller, aid)
    case Some(f) => Err(f)
    case None =>
      ScoresOfComplete(d.scores, aid);
      LiveComplete(ScoresOf(d.scores, aid));
      Ok(Live(ScoresOf(d.scores, aid)))
  }

  /** In a consistent store the listed scores are exactly the ones the cached
      value averages: it is 0 for an empty list and otherwise within half a
      tenth of their mean. */
  lemma ListedScoresMatchCache(d: Db, caller: Principal, aid: int)
    requires Consistent(d) && ListAssessmentScores(d, caller, aid).Ok?
    ensures var listed := ListAssessmentScores(d, caller, aid).value;
      var cached := d.assessments[aid - 1].wellbeingScore;
      (|listed| == 0 ==> cached == 0) && (|listed| > 0 ==> WithinHalf(cached, Total(listed), |listed|))
  {
    assert aid == (aid - 1) + 1;
  }

  /** `update_assessment`: only `overall_comment` changes, and only when it was sent. */
  function SetComment(d: Db, aid: int, comment: NoteInput): (r: Db)
    requires HasRow(d.assessments, aid)
    ensures r.users == d.users && r.clientHabits == d.clientHabits && r.scores == d.scores
    ensures |r.assessments| == |d.assessments|
    ensures forall i :: 0 <= i < |d.assessments| && i != aid - 1 ==> r.assessments[i] == d.assessments[i]
    ensures r.assessments[aid - 1] == d.assessments[aid - 1].(overallComment := r.assessments[aid - 1].overallComment)
    ensures comment.NoteAbsent? ==> r == d
    ensures var c := r.assessments[aid - 1].overallComment;
      !comment.NoteAbsent? ==> (c.Some? <==> comment.NoteText? && comment.text != "") && (c.Some? ==> TagFree(c.value))
  {
    if comment.NoteAbsent? then d
    else d.(assessments := d.assessments[aid - 1 := d.assessments[aid - 1].(overallComment := SanitizedNote(comment))])
  }

  /** Rewriting an assessment row without touching its client, week, cached
      score or `deleted_at` keeps the store consistent. */
  lemma EditAssessmentKeepsConsistent(d: Db, aid: int, a: WeeklyAssessment)
    requires Consistent(d) && HasRow(d.assessments, aid)
    requires a == d.assessments[aid - 1].(overallComment := a.overallComment)
    ensures Consistent(d.(assessments := d.assessments[aid - 1 := a]))
  {
    var r := d.(assessments := d.assessments[aid - 1 := a]);
    forall j | 0 <= j < |r.scores| ensures ScoreLinked(r, r.scores[j]) {
      assert ScoreLinked(d, d.scores[j]);
    }
    assert AssessmentsUnique(r.assessments) by {
      forall i, k | 0 <= i < k < |r.assessments| && r.assessments[i].clientId == r.assessments[k].clientId
        ensures r.assessments[i].weekStart != r.assessments[k].weekStart
      {
        assert d.assessments[i].weekStart == r.assessments[i].weekStart;
        assert d.assessments[k].weekStart == r.assessments[k].weekStart;
      }
    }
  }

  /** The stored comment is tag-free, NULL exactly for a null or empty value,
      and the store stays consistent. */
  lemma SetCommentKeepsConsistent(d: Db, aid: int, comment: NoteInput)
    requires Consistent(d) && HasRow(d.assessments, aid)
    ensures Consistent(SetComment(d, aid, comment))
  {
    if !comment.NoteAbsent? {
      EditAssessmentKeepsConsistent(d, aid, d.assessments[aid - 1].(overallComment := SanitizedNote(comment)));
    }
  }

  /** `update_assessment`: returns the updated assessment. */
  method UpdateAssessment(store: Store, caller: Principal, aid: int, comment: NoteInput) returns (r: Result<WeeklyAssessment>)
    modifies store
    ensures r.Err? <==> LiveAssessmentFailure(old(store.State()), caller, aid).Some?
    ensures r.Err? ==> r.error == LiveAssessmentFailure(old(store.State()), caller, aid).value && store.State() == old(store.State())
    ensures r.Ok? ==> store.State() == SetComment(old(store.State()), aid, comment) && r.value == store.assessments[aid - 1]
    ensures old(store.Valid()) ==> store.Valid()
  {
    if !(HasRow(store.assessments, aid) && store.assessments[aid - 1].deletedAt.None?) {
      return Err(AssessmentNotFound);
    }
    if !CanAccessAssessment(caller, store.assessments[aid - 1]) {
      return Err(Forbidden);
    }
    if store.Valid() {
      SetCommentKeepsConsistent(store.State(), aid, comment);
    }
    if !comment.NoteAbsent? {
      store.assessments := store.assessments[aid - 1 := store.assessments[aid - 1].(overallComment := SanitizedNote(comment))];
    }
    r := Ok(store.assessments[aid - 1]);
  }

  /** The store after `delete_assessment`: `now` on the assessment and on every
      score of it, live or not. The cached value is not recomputed. */
  function TombstoneAssessment(d: Db, aid: int, now: Timestamp): (r: Db)
    requires HasRow(d.assessments, aid)
    ensures r.users == d.users && r.clientHabits == d.clientHabits
    ensures |r.assessments| == |d.assessments| && |r.scores| == |d.scores|
    ensures forall i :: 0 <= i < |d.assessments| && i != aid - 1 ==> r.assessments[i] == d.assessments[i]
    ensures r.assessments[aid - 1] == d.assessments[aid - 1].(deletedAt := Some(now))
    ensures forall j :: 0 <= j < |d.scores| ==>
      r.scores[j] == d.scores[j].(deletedAt := if d.scores[j].assessmentId == aid then Some(now) else d.scores[j].deletedAt)
  {
    d.(assessments := d.assessments[aid - 1 := d.assessments[aid - 1].(deletedAt := Some(now))],
       scores := seq(|d.scores|, j requires 0 <= j < |d.scores| =>
         if d.scores[j].assessmentId == aid then d.scores[j].(deletedAt := Some(now)) else d.scores[j]))
  }

  lemma {:induction false} NoLiveScoresLeft(s: seq<HabitScore>, t: seq<HabitScore>, aid: int, now: Timestamp)
    requires |s| == |t|
    requires forall j :: 0 <= j < |s| ==> t[j] == if s[j].assessmentId == aid then s[j].(deletedAt := Some(now)) else s[j]
    ensures Live(ScoresOf(t, aid)) == []
    ensures forall chid :: PairCount(t, aid, chid) == 0
  {
    if |t| > 0 {
      var n := |t| - 1;
      NoLiveScoresLeft(s[..n], t[..n], aid, now);
      var last := t[n];
      LiveConcat(ScoresOf(t[..n], aid), if last.assessmentId == aid then [last] else []);
      if last.assessmentId == aid {
        LiveAppend([], last);
      }
    }
  }

  /** The assessment and each of its scores carry `now`; it has no live score
      left for any habit; every other row is unchanged. Its cached value is
      not recomputed, so it keeps the old mean while its scores now give 0. */
  lemma TombstoneAssessmentCoverage(d: Db, aid: int, now: Timestamp)
    requires HasRow(d.assessments, aid)
    ensures var r := TombstoneAssessment(d, aid, now);
      && r.assessments[aid - 1].deletedAt == Some(now)
      && |r.scores| == |d.scores|
      && (forall j :: 0 <= j < |d.scores| && d.scores[j].assessmentId == aid ==> r.scores[j].deletedAt == Some(now))
      && (forall j :: 0 <= j < |d.scores| && d.scores[j].assessmentId != aid ==> r.scores[j] == d.scores[j])
      && (forall i :: 0 <= i < |d.assessments| && i != aid - 1 ==> r.assessments[i] == d.assessments[i])
      && Live(ScoresOf(r.scores, aid)) == []
      && (forall chid :: PairCount(r.scores, aid, chid) == 0)
      && r.assessments[aid - 1].wellbeingScore == d.assessments[aid - 1].wellbeingScore
      && Wellbeing(ScoresOf(r.scores, aid)) == 0
  {
    var r := TombstoneAssessment(d, aid, now);
    NoLiveScoresLeft(d.scores, r.scores, aid, now);
  }

  lemma DeleteAssessmentKeepsConsistent(d: Db, aid: int, now: Timestamp)
    requires Consistent(d) && HasRow(d.assessments, aid)
    ensures Consistent(TombstoneAssessment(d, aid, now))
  {
    var r := TombstoneAssessment(d, aid, now);
    forall j | 0 <= j < |r.scores| ensures ScoreLinked(r, r.scores[j]) {
      assert ScoreLinked(d, d.scores[j]);
    }
    assert OnlyRetired(d.scores, r.scores);
    PairCountMono(d.scores, r.scores);
    forall i | 0 <= i < |r.assessments| && r.assessments[i].deletedAt.None?
      ensures r.assessments[i].wellbeingScore == Wellbeing(ScoresOf(r.scores, i + 1))
    {
      ScoresOfFrame(d.scores, r.scores, i + 1);
    }
    assert AssessmentsUnique(r.assessments) by {
      forall i, k | 0 <= i < k < |r.assessments| && r.assessments[i].clientId == r.assessments[k].clientId
        ensures r.assessments[i].weekStart != r.assessments[k].weekStart
      {
        assert d.assessments[i].weekStart == r.assessments[i].weekStart;
        assert d.assessments[k].weekStart == r.assessments[k].weekStart;
      }
    }
  }

  /** `delete_assessment`: the loop over `assessment.scores` stamps each one. */
  method DeleteAssessment(store: Store, caller: Principal, aid: int, now: Timestamp) returns (r: Result<()>)
    modifies store
    ensures r.Err? <==> LiveAssessmentFailure(old(store.State()), caller, aid).Some?
    ensures r.Err? ==> r.error == LiveAssessmentFailure(old(store.State()), caller, aid).value && store.State() == old(store.State())
    ensures r.Ok? ==> store.State() == TombstoneAssessment(old(store.State()), aid, now)
    ensures old(store.Valid()) ==> store.Valid()
  {
    if !(HasRow(store.assessments, aid) && store.assessments[aid - 1].deletedAt.None?) {
      return Err(AssessmentNotFound);
    }
    if !CanAccessAssessment(caller, store.assessments[aid - 1]) {
      return Err(Forbidden);
    }
    ghost var d := store.State();
    if store.Valid() {
      DeleteAssessmentKeepsConsistent(d, aid, now);
    }
    store.assessments := store.assessments[aid - 1 := store.assessments[aid - 1].(deletedAt := Some(now))];
    var j := 0;
    while j < |store.scores|
      invariant 0 <= j <= |store.scores| == |d.scores|
      invariant store.users == d.users && store.clientHabits == d.clientHabits
      invariant store.assessments == TombstoneAssessment(d, aid, now).assessments
      invariant forall k :: 0 <= k < |d.scores| ==>
        store.scores[k] == (if k < j && d.scores[k].assessmentId == aid then d.scores[k].(deletedAt := Some(now)) else d.scores[k])
    {
      if store.scores[j].assessmentId == aid {
        store.scores := store.scores[j := store.scores[j].(deletedAt := Some(now))];
      }
      j := j + 1;
    }
    r := Ok(());
  }
}
