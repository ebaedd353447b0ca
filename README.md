# Resilience tracker: score aggregation core in Dafny

This project models the score-aggregation core of the resilience tracker, a
Flask service in which counsellors follow their clients' weekly wellbeing
assessments. Each weekly assessment holds per-habit scores from 0.0 to 10.0
with one decimal. The assessment caches a `wellbeing_score`, which is the
rounded mean of the scores that are not soft-deleted. Every row carries an
optional `deleted_at`. Deletion sets it; the row is never removed.

The model covers:

- **Store** (`models.dfy`, module `Models`). The class `Store` holds four
  tables: users, client habits, weekly assessments and habit scores.
  - A row with primary key `k` sits at index `k - 1`. A relationship list
    such as `assessment.scores` is the set of rows whose foreign key names
    the parent, in id order.
  - Scores are integers in tenths, so 7.3 is 73.
  - `Consistent` gathers the invariants:
    - foreign keys;
    - a score's client habit and its assessment belong to the same client;
    - the unique constraints;
    - at most 7 live scores per (assessment, client habit) pair;
    - every live assessment's cache equals the aggregate of its scores.
  - `compute_wellbeing_score` is the method `Store.ComputeWellbeingScore`. It
    is proved equal to the function `Recompute`.
- **Wellbeing service** (`wellbeing_service.dfy`): `compute_wellbeing` and
  `compute_trend`.
- **Insights route** (`insights.dfy`): the access guard, the last-four window
  and the "no assessments" answer of `latest_insights`.
- **Soft-delete cascade** (`soft_delete_service.dfy`). The method
  `SoftDeleteClient` keeps the nested loops of `soft_delete_client`. It is
  proved equal to the order-free function `CascadeClient`.
- **Assessment routes** (`assessments.dfy`):
  - `create_score`, `update_score` and `delete_score` each pair a failure
    function with a store transformer.
  - `delete_assessment`, `update_assessment` and `list_assessment_scores`
    share the live-assessment lookup.
  - Each handler that writes (`create_score`, `update_score`,
    `delete_score`, `update_assessment`, `delete_assessment`) is a method on
    the store. On failure the store is unchanged. On success the new store
    equals the transformer's result, and `Store.Valid()` is preserved.
  - `list_assessment_scores` reads only, so it is the function
    `ListAssessmentScores`; `get_assessment` is its lookup and guard,
    `LiveAssessmentFailure`.
- **`strip_tags`** (`sanitization.dfy`): a left-to-right scan that removes each
  `<`, non-empty run of non-`>` characters, `>`, followed by Python's
  `str.strip()` whitespace set.
- **Access** (`access.dfy`): `_is_counsellor`, `_is_self_client` and
  `_can_access_assessment`. What they mean for the routes is stated by
  `AssessmentRoutes.ForeignCallerRefused`.
- **Scenarios** (`scenarios.dfy`): concrete stores for:
  - the mean 7.0 of 8.0 and 6.0, which becomes 6.3 after adding 5.0;
  - a single 9.0 that is deleted, leaving 0.0;
  - a trend from 6.8 to 7.3, giving a delta of 0.5;
  - an eighth score for one pair, which is refused.

Inputs the program takes from the environment are parameters:
- `datetime.utcnow()` is the `now: Timestamp` parameter.
- The JWT claims are a `Principal`: the role claim, and the identity as an
  integer or none.
- The JSON body fields are `ScoreInput`, `NoteInput` and an optional
  client-habit id. Absent and null are distinguished, as `"score" in data` does.
- `float(...)` parsing is abstracted as either "numeric, in tenths" or
  "not numeric".
- `latest_insights` receives the client's live assessments already sorted
  by week, oldest first.

Behaviours of the code that the model keeps as written:

- **Uniqueness constraints.** The constraints at app/models.py:115-118 and
  app/models.py:147-149 cover all rows, soft-deleted ones included, so the
  model states them over all rows.
- **The cached score.** `delete_assessment` and `soft_delete_client` do not
  recompute. So a soft-deleted assessment keeps its old cached value while
  its scores now average 0 (`TombstoneAssessmentCoverage`). `CachesCurrent`
  is therefore stated for live assessments only.
- **Repeated cascade.** The cascade overwrites every timestamp, live or not.
  Running it twice equals one run with the second timestamp
  (`CascadeTwice`). Only liveness is idempotent (`CascadeLivenessIdempotent`).
- **Weekly limit status.** Reaching the weekly limit is answered with 400,
  like the validation errors (`StatusCode`).
- **Deleted rows in `create_score`.** `create_score` looks up the assessment
  and the client habit without a `deleted_at` filter, so soft-deleted rows
  are accepted (`CreateAcceptsDeletedRows`).

## Model

| member | source | states |
|---|---|---|
| Models.Live | app/models.py:161 | every row it keeps has `deleted_at` unset and comes from the relationship list; never more rows than the list |
| Models.LiveComplete | app/models.py:161 | the filter keeps exactly the live scores: each occurs as often as in the list, and no soft-deleted score occurs |
| Models.RoundedMean | app/models.py:168 | the rounded quotient lies within half a tenth of the exact mean |
| Models.Wellbeing | app/models.py:161-168 | no live score gives 0.0; otherwise within half a tenth of the sum of live scores over their count |
| Models.WellbeingIgnoresDeleted | app/models.py:161 | inserting or removing a soft-deleted score anywhere in the list leaves the aggregate unchanged |
| Models.WellbeingIgnoresDeletedEdit | app/models.py:161 | changing a soft-deleted score into another soft-deleted score leaves the aggregate unchanged |
| Models.WellbeingBetween | app/models.py:165-168 | the aggregate lies between any lower and upper bound of the live scores, so between their minimum and maximum |
| Models.WellbeingInRange | app/models.py:132-133 | with every live score in 0.0..10.0 the stored value is in 0.0..10.0 |
| Models.WellbeingOrderIndependent | app/models.py:165-166 | two lists with the same scores in any order give the same value |
| Models.ScoresOf | app/models.py:142-144 | the `scores` relationship holds only rows whose `assessment_id` names the assessment |
| Models.ScoresOfComplete | app/models.py:142-144 | the relationship holds exactly the rows whose `assessment_id` names the assessment, each as often as in the table, and no other row |
| Models.PairCount | app/routes/assessments.py:145-149 | the count of live scores of one (assessment, client habit) pair never exceeds the number of rows |
| Models.PairCountPositive | app/routes/assessments.py:145-149 | the count is zero exactly when no live score of the pair exists |
| Models.Recompute | app/models.py:151-168 | only the assessment's `wellbeing_score` changes; it becomes 0.0 when no score of the assessment is live and otherwise lies within half a tenth of the live scores' mean |
| Models.RecomputeRepairs | app/models.py:151-168 | recomputing one assessment makes its cache the aggregate of its scores and leaves every other cache as it was |
| Models.InsertClientHabitKeepsConsistent | app/models.py:113-118 | an assignment that `uix_client_habit` and `uix_client_order` admit (NULL orders never clash) keeps the store consistent |
| Models.InsertAssessmentKeepsConsistent | app/models.py:146-149 | an assessment that `uix_client_week` admits, with the default cache 0.0, keeps the store consistent |
| Models.Store.ComputeWellbeingScore | app/models.py:151-168 | writes only the assessment's `wellbeing_score`, setting it to the aggregate of its scores; every table and every other field is unchanged |
| Sanitization.RemoveTags | app/util/sanitization.py:29 | the tag substitution only deletes characters: the result is no longer than the input and draws every character from it |
| Sanitization.TrimStart | app/util/sanitization.py:30 | a suffix of the input that does not start with whitespace; everything removed before it is whitespace |
| Sanitization.TrimEnd | app/util/sanitization.py:30 | a prefix of the input that does not end with whitespace; everything removed after it is whitespace |
| Sanitization.Strip | app/util/sanitization.py:30 | a slice of the input with only whitespace before and after it, and no whitespace at either of its ends |
| Sanitization.StripTags | app/util/sanitization.py:27-30 | empty input gives ""; otherwise the tag-free text with only whitespace removed at its ends, and no whitespace left at either end |
| Sanitization.StripTagsTagFree | app/util/sanitization.py:11-30 | the result contains no `<`, non-empty run of non-`>` characters, `>` |
| Sanitization.StripTagsSubsequence | app/util/sanitization.py:29-30 | the result is a subsequence of the input |
| Sanitization.StripTagsPlainText | app/util/sanitization.py:29-30 | an input without `<` is only trimmed |
| Sanitization.StripTagsIdempotent | app/util/sanitization.py:14-30 | applying it twice equals applying it once |
| WellbeingService.ComputeWellbeing | app/services/wellbeing_service.py:19-46 | 0.0 when no score of the assessment is live; otherwise within half a tenth of the live scores' mean |
| WellbeingService.ComputeWellbeingMatchesCache | app/services/wellbeing_service.py:42-46 | in a consistent store `compute_wellbeing` of a live assessment equals its stored `wellbeing_score` |
| WellbeingService.ComputeWellbeingMatchesRecompute | app/services/wellbeing_service.py:42-46 | after `compute_wellbeing_score`, `compute_wellbeing` returns exactly the stored value, deleted assessments included |
| WellbeingService.ComputeTrend | app/services/wellbeing_service.py:78-86 | None exactly for the empty list; latest is the last element's aggregate; delta is absent for one element, else latest minus the second-to-last's aggregate |
| WellbeingService.TrendUsesLastTwo | app/services/wellbeing_service.py:80-84 | dropping any prefix that leaves two elements does not change the trend |
| WellbeingService.TrendIgnoresWindow | app/services/wellbeing_service.py:49 | the `window` argument has no effect |
| WellbeingService.TrendIgnoresCache | app/services/wellbeing_service.py:81-84 | two lists whose assessments have the same scores give the same trend, whatever their cached values |
| WellbeingService.TrendBounds | app/services/wellbeing_service.py:84-86 | with scores in range the latest is in 0.0..10.0 and the delta in -10.0..10.0; the delta is negative exactly when the score fell |
| InsightsRoutes.Window | app/routes/insights.py:50-51 | at most 4 elements, a suffix of the list; lists of 4 or fewer are kept whole |
| InsightsRoutes.WindowKeepsTrend | app/routes/insights.py:50-52 | the trend of the window equals the trend of the whole list |
| InsightsRoutes.LatestInsights | app/routes/insights.py:40-55 | forbidden exactly when the caller is neither a counsellor nor the client; the no-assessments message exactly for an empty list; otherwise the trend of the whole list |
| SoftDeleteService.CascadeClient | app/services/soft_delete_service.py:22-51 | no row is added or removed, and only `deleted_at` changes, so keys and relationships stay as they were |
| SoftDeleteService.CascadeCoverage | app/services/soft_delete_service.py:36-50 | the client, its client habits, its assessments and every score reached through either carry the same `now`; none of its assessments or habits keeps a live score |
| SoftDeleteService.CascadeFrame | app/services/soft_delete_service.py:22-51 | rows not reachable from the client, and other users, are unchanged |
| SoftDeleteService.CascadeTwice | app/services/soft_delete_service.py:39-50 | running the cascade again equals running it once with the second timestamp |
| SoftDeleteService.CascadeLivenessIdempotent | app/services/soft_delete_service.py:39-50 | a second run changes no row's liveness, but with a new timestamp it changes the stored state |
| SoftDeleteService.CascadeKeepsConsistent | app/services/soft_delete_service.py:22-51 | the cascade keeps every store invariant, including the caches of live assessments |
| SoftDeleteService.SoftDeleteClient | app/services/soft_delete_service.py:36-51 | the nested loops, in source order, produce exactly the order-free cascade; a score reached twice gets the same stamp |
| AssessmentRoutes.StatusCode | app/routes/assessments.py:150-151 | lookups that fail give 404, access denial 403, every validation failure including the weekly limit 400 |
| AssessmentRoutes.SanitizedNote | app/routes/assessments.py:157 | a missing, null or empty note is stored as NULL; any other is stored tag-free and as a subsequence of the input |
| AssessmentRoutes.CreateFailure | app/routes/assessments.py:119-151 | accepted exactly when every check holds; each of the nine failures is reported exactly when every earlier check holds and its own check fails |
| AssessmentRoutes.AddScore | app/routes/assessments.py:153-163 | the table gains the new row at its end; only the assessment's cached score changes otherwise, to the mean of its live scores including the new one |
| AssessmentRoutes.CreateBoundsInclusive | app/routes/assessments.py:138-139 | scores 0.0 and 10.0 are never out of range; out of range means below 0 or above 10 |
| AssessmentRoutes.CreateIgnoresDeletedScores | app/routes/assessments.py:145-151 | a soft-deleted score never changes the outcome of the checks |
| AssessmentRoutes.CreateAcceptsDeletedRows | app/routes/assessments.py:119-130 | soft-deleting the assessment or the client habit never changes the outcome |
| AssessmentRoutes.CreateAddsOneScore | app/routes/assessments.py:153-163 | success appends exactly one live score to the pair, which stays at or below 7, and the cache is the aggregate including it |
| AssessmentRoutes.CreateKeepsConsistent | app/routes/assessments.py:145-163 | an accepted creation keeps every store invariant, the weekly limit included |
| AssessmentRoutes.CreateScore | app/routes/assessments.py:109-164 | fails with the first failing check and writes nothing; otherwise appends the row, recomputes, returns the new id and keeps the store valid |
| AssessmentRoutes.UpdateFailure | app/routes/assessments.py:176-187 | accepted exactly when the score exists, the caller has access, and a sent score is numeric and in range; "not found", "forbidden", "not a number" (a null score included) and "out of range" each exactly when the earlier checks hold and its own fails |
| AssessmentRoutes.UpdatedRow | app/routes/assessments.py:181-192 | sets the score only when sent and the note only when sent; keys and `deleted_at` unchanged |
| AssessmentRoutes.ApplyUpdate | app/routes/assessments.py:181-195 | only the score row is replaced, by the updated row; only the cached score of its assessment changes, to the mean of the live scores after the edit |
| AssessmentRoutes.UpdateRecomputes | app/routes/assessments.py:188-195 | after the update the cache is the aggregate with the row replaced; editing a soft-deleted score of a live assessment changes no cached value |
| AssessmentRoutes.UpdateKeepsConsistent | app/routes/assessments.py:167-196 | an update keeps every store invariant |
| AssessmentRoutes.UpdateScore | app/routes/assessments.py:167-196 | rejects before any write; otherwise sets score and/or note, recomputes and keeps the store valid |
| AssessmentRoutes.DeleteScoreFailure | app/routes/assessments.py:207-210 | accepted exactly when the score exists and the caller has access; "not found" exactly for a missing score, deleted ones being found; "forbidden" exactly when it exists and access is denied |
| AssessmentRoutes.ForeignCallerRefused | app/routes/assessments.py:22-35 | a caller who is neither a counsellor nor the owning client gets 403 from every score route on an existing row (404 for a deleted assessment), so the store is left as it was; a counsellor or the owner never gets 403 |
| AssessmentRoutes.TombstoneScore | app/routes/assessments.py:212-218 | only the score's `deleted_at` changes, to `now`; only the cached score of its assessment changes, to the mean of the remaining live scores |
| AssessmentRoutes.DeleteScoreRetires | app/routes/assessments.py:212-218 | the score carries `now`; its pair loses one live score if it was live; the cache is the aggregate with the row left out |
| AssessmentRoutes.DeleteScoreKeepsConsistent | app/routes/assessments.py:199-219 | a deletion keeps every store invariant |
| AssessmentRoutes.DeleteScore | app/routes/assessments.py:199-219 | rejects before any write; otherwise stamps the score, recomputes and keeps the store valid |
| AssessmentRoutes.LiveAssessmentFailure | app/routes/assessments.py:80-84 | accepted exactly for an existing, live assessment the caller may access; "not found" exactly for a missing or deleted one; "forbidden" exactly for a live one the caller may not access |
| AssessmentRoutes.ListAssessmentScores | app/routes/assessments.py:95-106 | fails exactly when the lookup fails, with its error; otherwise lists exactly the live scores of that assessment, each as often as in the table, and nothing else |
| AssessmentRoutes.ListedScoresMatchCache | app/routes/assessments.py:104-106 | in a consistent store the cached value is 0.0 for an empty listing and otherwise within half a tenth of the listed scores' mean |
| AssessmentRoutes.SetComment | app/routes/assessments.py:64-69 | only the assessment's `overall_comment` changes, and only when it was sent; it is NULL exactly for a null or empty value and tag-free otherwise |
| AssessmentRoutes.SetCommentKeepsConsistent | app/routes/assessments.py:64-69 | the store stays consistent |
| AssessmentRoutes.UpdateAssessment | app/routes/assessments.py:50-70 | rejects before any write; otherwise changes only `overall_comment`, and only when it was sent |
| AssessmentRoutes.TombstoneAssessment | app/routes/assessments.py:86-91 | the assessment and exactly the scores of it carry `now`; no other field and no other row changes |
| AssessmentRoutes.TombstoneAssessmentCoverage | app/routes/assessments.py:86-91 | the assessment and every one of its scores carry the same `now`; no live score is left; other rows unchanged; the cache is not recomputed |
| AssessmentRoutes.DeleteAssessmentKeepsConsistent | app/routes/assessments.py:73-92 | deleting an assessment keeps every store invariant |
| AssessmentRoutes.DeleteAssessment | app/routes/assessments.py:73-92 | rejects before any write; otherwise the loop over the scores produces exactly the tombstoned store, which stays valid |
| Scenarios.ScenarioTwoScores | app/models.py:161-168 | scores 8.0 and 6.0 give 7.0 |
| Scenarios.ScenarioCreateThird | app/routes/assessments.py:145-163 | adding 5.0 to 8.0 and 6.0 is accepted and stores 6.3 |
| Scenarios.ScenarioDeleteOnlyScore | app/routes/assessments.py:212-218 | deleting the only score, 9.0, stores 0.0 |
| Scenarios.ScenarioTrend | app/services/wellbeing_service.py:78-86 | means 6.8 then 7.3 give latest 7.3 and delta 0.5 |
| Scenarios.ScenarioEighthScore | app/routes/assessments.py:145-151 | with seven live scores for a pair the eighth is refused, also when a deleted eighth exists |

## Left out

- Floating point. `round(float(total) / count, 1)` rounds an IEEE double. The model rounds the exact rational half-to-even, and its contracts promise only "within half a tenth" of the exact mean. How the source breaks ties at .x5 is not modelled.
- Models.RoundedMean: promises only "within half a tenth", which is weaker than a particular rounding of a double, for the reason above.
- Score values with more than one decimal, NaN and infinity. A `Numeric` input is already in tenths. NaN, which passes the source's range check, is not representable.
- Non-integer `client_habit_id` values, which `.get` would look up by string, are not modelled. The id is an optional integer, and 0 counts as missing, like Python's falsy check.
- HTTP and JWT plumbing is not modelled: blueprints, `get_jwt`, `request.get_json`, schema dumping and the response bodies. `get_assessment` is only its lookup and guard (`LiveAssessmentFailure`).
- The database query of `latest_insights` (filter on client and liveness, sort by week) is not modelled. Its result is an input.
- Transactions are not modelled. The two commits in the score handlers and the flush in the cascade are treated as one atomic step, with no concurrency.
- The `Habit` table is not modelled. Nor are users' names, e-mail and password hashing, or custom labels beyond being stored.
- Handlers in app/routes/clients.py, app/routes/habits.py and app/routes/client_habits.py are not part of this model. The invariants they rely on are `InsertClientHabitKeepsConsistent` and `InsertAssessmentKeepsConsistent`.
- AssessmentRoutes.UpdateScore, AssessmentRoutes.DeleteScore, AssessmentRoutes.UpdateFailure and AssessmentRoutes.DeleteScoreFailure require every foreign key to name an existing row (`Linked`). The default database is SQLite (app/__init__.py:53), which does not enforce foreign keys. What keeps the keys intact is that no modelled handler creates a dangling key: each preserves `Consistent`, of which `Linked` is part. Without it, the source's `score.assessment` would be None.
- `delete_client_habit` (app/routes/client_habits.py:56-68) hard-deletes the client habit, and the ORM cascade (app/models.py:109-111) deletes its scores without recomputing any cached score. This breaks `CachesCurrent` and removes rows, which the index-addressed store cannot represent. It is not modelled.
- The trend delta is a difference of two rounded floats (app/services/wellbeing_service.py:84-85). The model subtracts exact tenths, so the float error of that subtraction is not modelled.
- A note or comment that is truthy but not a string (a number, a list) makes `strip_tags` call the regular-expression substitution on it (app/util/sanitization.py:29), which raises `TypeError`; the routes at app/routes/assessments.py:68, 157 and 192 then answer 500. `NoteInput` has only text, so this crash is not modelled.
