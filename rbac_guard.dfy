/**
 * The other `RBACGuard` (`rbac.guard.ts`, not registered): the same role
 * comparison, but a refusal is an exception with its own message instead
 * of `false`.
 */
module RbacGuard {
  import opened Wrappers
  import Http
  import RbacGaurd

  const NoRoleMessage := "권한이 부여되지 않은 계정입니다."
  const WeakRoleMessage := "권한이 부족합니다."

  /**
   * `canActivate`: Unauthorized when there is no user or its role is not a
   * number; Forbidden when `user.role > role` (false against a role name,
   * which compares as NaN); otherwise `true`.
   */
  function CanActivate(role: Option<RbacGaurd.Metadata>, user: Option<Http.Payload>): (r: Http.Outcome<bool>)
    ensures r.Ok? ==> r.value
    ensures !RbacGaurd.IsRoleValue(role) ==> r == Ok(true)
    ensures RbacGaurd.IsRoleValue(role) && (user.None? || user.value.role.None?) ==> r == Err(Http.Unauthorized(NoRoleMessage))
    ensures RbacGaurd.IsRoleValue(role) && user.Some? && user.value.role.Some? ==>
      (r == Err(Http.Forbidden(WeakRoleMessage)) <==> role.value.Num? && user.value.role.value > role.value.n)
  {
    if !RbacGaurd.IsRoleValue(role) then Ok(true)
    else if user.None? || user.value.role.None? then Err(Http.Unauthorized(NoRoleMessage))
    else if role.value.Num? && user.value.role.value > role.value.n then Err(Http.Forbidden(WeakRoleMessage))
    else Ok(true)
  }

  /**
   * For numeric metadata and a user with a role, both guards admit the same
   * requests; they part on a role name, which this guard admits and the
   * registered one refuses.
   */
  lemma AgreesWithRegisteredGuard(role: Option<RbacGaurd.Metadata>, p: Http.Payload)
    requires p.role.Some?
    ensures role.Some? && role.value.Num? ==> (CanActivate(role, Some(p)).Ok? <==> RbacGaurd.CanActivate(role, Some(p)))
    ensures RbacGaurd.IsRoleValue(role) && role.value.Name? ==> CanActivate(role, Some(p)).Ok? && !RbacGaurd.CanActivate(role, Some(p))
  {
  }

  /** Where the registered guard refuses, this one throws instead. */
  lemma RefusalBecomesException(role: Option<RbacGaurd.Metadata>, user: Option<Http.Payload>)
    requires !RbacGaurd.CanActivate(role, user)
    requires role.Some? && role.value.Num?
    ensures CanActivate(role, user).Err?
  {
  }
}
