/**
 * `RBACGuard` as registered for every route (the file spelt `rbac.gaurd.ts`):
 * a handler marked with a role admits a user whose role is that role or a
 * stronger one. Roles are the numeric enum `admin = 0`, `paidUser = 1`,
 * `user = 2`: a smaller number is a stronger role.
 */
module RbacGaurd {
  import opened Wrappers
  import Http

  const Admin := 0
  const PaidUser := 1
  const User := 2

  /** The value the `RBAC` decorator attached to the handler, if any. */
  datatype Metadata = Num(n: int) | Name(s: string)

  /**
   * `Object.values(Role).includes(role)`: a numeric enum also maps its
   * names, so the values are the three numbers and the three names.
   */
  predicate IsRoleValue(role: Option<Metadata>)
  {
    match role
    case None => false
    case Some(Num(n)) => n == Admin || n == PaidUser || n == User
    case Some(Name(s)) => s == "admin" || s == "paidUser" || s == "user"
  }

  /**
   * `user.role <= role`. A missing role, or a name in the metadata, makes
   * JavaScript compare with NaN, which is false.
   */
  predicate AtMost(userRole: Option<int>, role: Metadata)
  {
    userRole.Some? && role.Num? && userRole.value <= role.n
  }

  /** `canActivate`. */
  function CanActivate(role: Option<Metadata>, user: Option<Http.Payload>): (allowed: bool)
    ensures !IsRoleValue(role) ==> allowed
    ensures IsRoleValue(role) && user.None? ==> !allowed
    ensures IsRoleValue(role) && user.Some? ==> (allowed <==> user.value.role.Some? && role.value.Num? && user.value.role.value <= role.value.n)
  {
    if !IsRoleValue(role) then true
    else if user.None? then false
    else AtMost(user.value.role, role.value)
  }

  /** A user admitted at one role is admitted at every weaker role. */
  lemma Monotone(r: int, r': int, user: Option<Http.Payload>)
    requires Admin <= r <= r' <= User
    requires CanActivate(Some(Num(r)), user)
    ensures CanActivate(Some(Num(r')), user)
  {
  }

  /** An admin is admitted everywhere. */
  lemma AdminAdmittedEverywhere(role: Option<Metadata>, p: Http.Payload)
    requires p.role == Some(Admin)
    requires role.Some? ==> role.value.Num?
    ensures CanActivate(role, Some(p))
  {
  }

  /** A handler marked with a role name (`'admin'`) admits nobody, not even an admin. */
  lemma NamedRoleAdmitsNobody(name: string, user: Option<Http.Payload>)
    requires name == "admin" || name == "paidUser" || name == "user"
    ensures !CanActivate(Some(Name(name)), user)
  {
  }
}
