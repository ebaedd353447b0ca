/** The authorisation predicates of the assessment and insight routes:
    `_is_counsellor`, `_is_self_client` and `_can_access_assessment`. Both
    route files define the first two identically; they are defined once here. */
module Access {
  import opened Models

  /** The caller's token claims: the `role` claim, if it names a role, and
      the identity read as an integer (`None` when `int(...)` raises). */
  datatype Principal = Principal(roleClaim: Option<Role>, identity: Option<int>)

  predicate IsCounsellor(p: Principal) {
    p.roleClaim == Some(Counsellor)
  }

  predicate IsSelfClient(p: Principal, userId: int) {
    p.identity == Some(userId)
  }

  /** The guard of `latest_insights`. */
  predicate CanAccessClient(p: Principal, clientId: int) {
    IsCounsellor(p) || IsSelfClient(p, clientId)
  }

  /** `_can_access_assessment`. */
  predicate CanAccessAssessment(p: Principal, a: WeeklyAssessment) {
    CanAccessClient(p, a.clientId)
  }
}
