/**
 * `AuthGuard`: lets a request through only when the middleware put the
 * claims of an access token on it.
 */
module AuthGuard {
  import opened Wrappers
  import Http
  import AuthService

  /** `canActivate`: `!(!user || !user.type || user.type !== 'access')`. */
  function CanActivate(user: Option<Http.Payload>): (allowed: bool)
    ensures allowed <==> user.Some? && user.value.tokenType == Some("access")
    ensures user.Some? && user.value.tokenType == Some("refresh") ==> !allowed
  {
    !(user.None? || user.value.tokenType.None? || user.value.tokenType.value == "" || user.value.tokenType.value != "access")
  }

  /**
   * The claims of a token `issueToken` asked for pass the guard exactly when
   * it is an access token.
   */
  lemma IssuedTokenPassesIffAccess(sub: int, role: int, isRefreshToken: Option<bool>, exp: Option<int>)
    ensures var req := AuthService.IssueToken(sub, role, isRefreshToken);
      CanActivate(Some(Http.Payload(Some(sub), Some(role), Some(req.tokenType), exp))) <==> isRefreshToken == Some(false)
  {
  }
}
