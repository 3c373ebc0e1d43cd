/**
 * `BearerTokenMiddleware`: puts the claims of a bearer token on the request.
 * A payload verified once is kept in the cache under `TOKEN_<token>` until
 * 30 seconds before the token expires; a cached payload is taken as it is,
 * without decoding or verifying the token again.
 *
 * `decode` (payload without checking the signature) and `verify` (payload
 * once signature and expiry are checked) are the JWT library's; `now` is the
 * current time in epoch milliseconds.
 */
module BearerTokenMiddleware {
  import opened Wrappers
  import Text
  import Http
  import CacheStore
  import AuthService

  const FormatMessage := "토큰 포맷이 잘못되었습니다."
  const InvalidTokenMessage := "잘못된 토큰입니다."
  const ExpiredMessage := "토큰이 만료되었습니다."
  const UnverifiedMessage := "유효하지 않은 토큰입니다."

  /** What `verifyAsync` does: resolve with the payload, or reject with `TokenExpiredError` or another error. */
  datatype Verification = Verified(payload: Http.Payload) | Expired | Invalid

  /* ---------- validateBearerToken ---------- */

  /**
   * `validateBearerToken`: the second space-separated piece of the header
   * (`None` is `undefined`, when there is no space). The first piece must be
   * `bearer` in any case. A header without a second piece is not refused:
   * the exception for it is built and never thrown.
   */
  function ValidateBearerToken(raw: string): (r: Http.Outcome<Option<string>>)
    ensures r.Err? <==> Text.LowerAscii(Text.Split(raw, ' ')[0]) != "bearer"
    ensures r.Err? ==> r.error == Http.BadRequest(FormatMessage)
    ensures r.Ok? ==> (r.value.None? <==> ' ' !in raw)
    ensures r.Ok? && r.value.Some? ==> ' ' !in r.value.value && Text.Split(raw, ' ')[0] + " " + r.value.value <= raw
  {
    var parts := Text.Split(raw, ' ');
    Text.SplitCountsSeparator(raw, ' ');
    if Text.LowerAscii(parts[0]) != "bearer" then Err(Http.BadRequest(FormatMessage))
    else if |parts| < 2 then Ok(None)
    else
      Text.SplitPiecesAvoidSeparator(raw, ' ');
      Text.SplitFirstTwo(raw, ' ');
      Ok(Some(parts[1]))
  }

  /** A header of the scheme, a space and a token without spaces gives that token. */
  lemma ValidateBearerTokenRoundTrip(scheme: string, token: string)
    requires Text.LowerAscii(scheme) == "bearer" && ' ' !in scheme && ' ' !in token
    ensures ValidateBearerToken(scheme + " " + token) == Ok(Some(token))
  {
    assert scheme + " " + token == scheme + [' '] + token;
    Text.SplitAtFirstSeparator(scheme, ' ', token);
    Text.SplitWithoutSeparator(token, ' ');
  }

  /** As written: the scheme alone passes validation, with no token. */
  lemma SchemeAloneIsNotRefused(scheme: string)
    requires Text.LowerAscii(scheme) == "bearer" && ' ' !in scheme
    ensures ValidateBearerToken(scheme) == Ok(None)
  {
    Text.SplitWithoutSeparator(scheme, ' ');
  }

  /** As evidently intended: a header without a second piece is refused as malformed. */
  function ValidateBearerTokenStrict(raw: string): (r: Http.Outcome<string>)
    ensures r.Err? ==> r.error == Http.BadRequest(FormatMessage)
    ensures r.Ok? <==> ValidateBearerToken(raw).Ok? && ' ' in raw
    ensures r.Ok? ==> ValidateBearerToken(raw) == Ok(Some(r.value))
  {
    match ValidateBearerToken(raw)
    case Ok(Some(token)) => Ok(token)
    case _ => Err(Http.BadRequest(FormatMessage))
  }

  /** With it, the scheme alone is refused with the format message. */
  lemma StrictRefusesSchemeAlone(scheme: string)
    requires Text.LowerAscii(scheme) == "bearer" && ' ' !in scheme
    ensures ValidateBearerTokenStrict(scheme) == Err(Http.BadRequest(FormatMessage))
  {
    SchemeAloneIsNotRefused(scheme);
  }

  /* ---------- use / parseBearerToken ---------- */

  /** The token as the template literal renders it: a missing one is `undefined`. */
  function TokenText(token: Option<string>): string
  {
    if token.Some? then token.value else "undefined"
  }

  function TokenKey(token: Option<string>): string
  {
    "TOKEN_" + TokenText(token)
  }

  /** The cache never mistakes a blocked-token entry for a verified-token entry. */
  lemma TokenKeyIsNotBlockKey(token: Option<string>, blocked: string)
    ensures TokenKey(token) != AuthService.BlockKey(blocked)
  {
    assert TokenKey(token)[0] == 'T';
    assert AuthService.BlockKey(blocked)[0] == 'B';
  }

  /** The secret a token of that type is verified with. */
  function SecretFor(tokenType: string): (k: AuthService.SecretKey)
    ensures k == AuthService.RefreshTokenSecret <==> tokenType == "refresh"
  {
    if tokenType == "refresh" then AuthService.RefreshTokenSecret else AuthService.AccessTokenSecret
  }

  /** Every token `issueToken` asks to sign is verified with the secret it was signed with. */
  lemma IssuedTokenVerifiesWithItsSecret(sub: int, role: int, isRefreshToken: Option<bool>)
    ensures var req := AuthService.IssueToken(sub, role, isRefreshToken);
      (req.tokenType == "refresh" || req.tokenType == "access") && SecretFor(req.tokenType) == req.secret
  {
  }

  /**
   * The cache entry's time to live in milliseconds: 30 seconds less than
   * what is left until `exp` (epoch seconds), but at least 1. Without an
   * `exp` the source computes NaN; `None` stands for it.
   */
  function CacheTtl(exp: Option<int>, now: int): (ttl: Option<int>)
    ensures ttl.Some? <==> exp.Some?
    ensures exp.Some? ==> ttl.value >= 1 && ttl.value >= exp.value * 1000 - now - 30000
    ensures exp.Some? && exp.value * 1000 - now - 30000 > 1 ==> ttl.value == exp.value * 1000 - now - 30000
  {
    if exp.None? then None
    else if exp.value * 1000 - now - 30000 > 1 then Some(exp.value * 1000 - now - 30000) else Some(1)
  }

  /** The cached payload under the token's key, if the entry is one (`if (cachePayload)`). */
  function CachedPayload(entries: map<string, CacheStore.Entry>, key: string): Option<Http.Payload>
  {
    if key in entries && entries[key].value.Claims? then Some(entries[key].value.payload) else None
  }

  /** What `use` does with a request. */
  datatype Step =
    | Pass
    | FromCache(payload: Http.Payload)
    | Fresh(payload: Http.Payload, ttl: Option<int>)
    | Refuse(error: Http.Exception)

  /**
   * The decision of `use`: pass a request without the header; refuse a
   * malformed header; take a cached payload; otherwise decode the token,
   * require the type `refresh` or `access`, and verify it with that type's
   * secret.
   */
  function Decide(header: Option<string>, entries: map<string, CacheStore.Entry>, decode: string -> Option<Http.Payload>,
    verify: (string, AuthService.SecretKey) -> Verification, now: int): (s: Step)
    ensures header.None? || header.value == "" ==> s == Pass
    ensures s.Pass? ==> header.None? || header.value == ""
    ensures s.FromCache? ==>
      && header.Some? && ValidateBearerToken(header.value).Ok?
      && CachedPayload(entries, TokenKey(ValidateBearerToken(header.value).value)) == Some(s.payload)
    ensures s.Fresh? ==> header.Some? && ValidateBearerToken(header.value).Ok?
    ensures s.Fresh? && header.Some? && ValidateBearerToken(header.value).Ok? ==>
      var token := ValidateBearerToken(header.value).value;
      && token.Some? && CachedPayload(entries, TokenKey(token)).None?
      && decode(token.value).Some?
      && decode(token.value).value.tokenType in {Some("refresh"), Some("access")}
      && verify(token.value, SecretFor(decode(token.value).value.tokenType.value)) == Verified(s.payload)
      && s.ttl == CacheTtl(s.payload.exp, now)
    ensures s.Refuse? ==> s.error in {Http.BadRequest(FormatMessage), Http.BadRequest(InvalidTokenMessage),
      Http.Unauthorized(ExpiredMessage), Http.Unauthorized(UnverifiedMessage)}
  {
    if header.None? || header.value == "" then Pass
    else match ValidateBearerToken(header.value)
      case Err(e) => Refuse(e)
      case Ok(token) =>
        match CachedPayload(entries, TokenKey(token))
        case Some(p) => FromCache(p)
        case None =>
          var decoded := if token.Some? then decode(token.value) else None;
          if decoded.None? then Refuse(Http.BadRequest(InvalidTokenMessage))
          else if decoded.value.tokenType != Some("refresh") && decoded.value.tokenType != Some("access") then
            Refuse(Http.BadRequest(InvalidTokenMessage))
          else match verify(token.value, SecretFor(decoded.value.tokenType.value))
            case Verified(p) => Fresh(p, CacheTtl(p.exp, now))
            case Expired => Refuse(Http.Unauthorized(ExpiredMessage))
            case Invalid => Refuse(Http.Unauthorized(UnverifiedMessage))
  }

  /**
   * Why `use` refuses: a scheme other than `bearer`; with no cached payload,
   * a token that does not decode or has another type; a verification that
   * fails, telling an expired token from any other failure.
   */
  lemma RefusalReasons(header: string, entries: map<string, CacheStore.Entry>, decode: string -> Option<Http.Payload>,
    verify: (string, AuthService.SecretKey) -> Verification, now: int)
    requires header != ""
    ensures var s := Decide(Some(header), entries, decode, verify, now);
      && (ValidateBearerToken(header).Err? ==> s == Refuse(Http.BadRequest(FormatMessage)))
      && (ValidateBearerToken(header).Ok? && CachedPayload(entries, TokenKey(ValidateBearerToken(header).value)).None? ==>
            var token := ValidateBearerToken(header).value;
            && (token.None? ==> s == Refuse(Http.BadRequest(InvalidTokenMessage)))
            && (token.Some? && decode(token.value).None? ==> s == Refuse(Http.BadRequest(InvalidTokenMessage)))
            && (token.Some? && decode(token.value).Some? && decode(token.value).value.tokenType !in {Some("refresh"), Some("access")} ==>
                  s == Refuse(Http.BadRequest(InvalidTokenMessage)))
            && (token.Some? && decode(token.value).Some? && decode(token.value).value.tokenType in {Some("refresh"), Some("access")} ==>
                  var v := verify(token.value, SecretFor(decode(token.value).value.tokenType.value));
                  && (v == Expired ==> s == Refuse(Http.Unauthorized(ExpiredMessage)))
                  && (v == Invalid ==> s == Refuse(Http.Unauthorized(UnverifiedMessage)))))
  {
  }

  /** A cached payload is used whatever the JWT library would say about the token. */
  lemma CacheHitSkipsVerification(header: string, entries: map<string, CacheStore.Entry>, now: int,
    decode: string -> Option<Http.Payload>, verify: (string, AuthService.SecretKey) -> Verification,
    decode': string -> Option<Http.Payload>, verify': (string, AuthService.SecretKey) -> Verification)
    requires header != "" && ValidateBearerToken(header).Ok?
    requires CachedPayload(entries, TokenKey(ValidateBearerToken(header).value)).Some?
    ensures Decide(Some(header), entries, decode, verify, now) == Decide(Some(header), entries, decode', verify', now)
    ensures Decide(Some(header), entries, decode, verify, now).FromCache?
  {
  }

  /** Blocking a token writes a key `use` never reads, so a blocked token is still accepted. */
  lemma BlockingDoesNotAffectUse(header: string, entries: map<string, CacheStore.Entry>, blocked: string, e: CacheStore.Entry,
    decode: string -> Option<Http.Payload>, verify: (string, AuthService.SecretKey) -> Verification, now: int)
    ensures Decide(Some(header), entries[AuthService.BlockKey(blocked) := e], decode, verify, now)
         == Decide(Some(header), entries, decode, verify, now)
  {
    if header != "" && ValidateBearerToken(header).Ok? {
      TokenKeyIsNotBlockKey(ValidateBearerToken(header).value, blocked);
    }
  }

  /** An access token `issueToken` asked for, once verified, puts its claims on the request. */
  lemma IssuedAccessTokenIsAccepted(scheme: string, token: string, entries: map<string, CacheStore.Entry>,
    decode: string -> Option<Http.Payload>, verify: (string, AuthService.SecretKey) -> Verification, now: int, claims: Http.Payload)
    requires Text.LowerAscii(scheme) == "bearer" && ' ' !in scheme && ' ' !in token
    requires CachedPayload(entries, TokenKey(Some(token))).None?
    requires decode(token).Some? && decode(token).value.tokenType == Some("access")
    requires verify(token, AuthService.AccessTokenSecret) == Verified(claims)
    ensures Decide(Some(scheme + " " + token), entries, decode, verify, now) == Fresh(claims, CacheTtl(claims.exp, now))
  {
    ValidateBearerTokenRoundTrip(scheme, token);
  }

  /**
   * `use`: carries out the decision. On `Pass` and on a refusal the request
   * and the cache are left alone; a cached payload becomes `req.user`; a
   * freshly verified one becomes `req.user` and is cached under the token's
   * key with its time to live (the module default when it has no `exp`).
   */
  method Use(req: Http.Request, cache: CacheStore.Cache, decode: string -> Option<Http.Payload>,
    verify: (string, AuthService.SecretKey) -> Verification, now: int) returns (r: Http.Outcome<()>)
    modifies req, cache
    ensures var s := Decide(req.authorization, old(cache.entries), decode, verify, now);
      && (s.Pass? ==> r == Ok(()) && req.user == old(req.user) && cache.entries == old(cache.entries))
      && (s.FromCache? ==> r == Ok(()) && req.user == Some(s.payload) && cache.entries == old(cache.entries))
      && (s.Fresh? ==>
            && r == Ok(()) && req.user == Some(s.payload)
            && cache.entries == old(cache.entries)[TokenKey(ValidateBearerToken(req.authorization.value).value)
                 := CacheStore.Entry(CacheStore.Claims(s.payload), s.ttl.GetOr(CacheStore.DefaultTtl))])
      && (s.Refuse? ==> r == Err(s.error) && req.user == old(req.user) && cache.entries == old(cache.entries))
    ensures req.queryRunner == old(req.queryRunner) && req.isTransactionSuccess == old(req.isTransactionSuccess)
  {
    var s := Decide(req.authorization, cache.entries, decode, verify, now);
    match s
    case Pass =>
      r := Ok(());
    case FromCache(p) =>
      req.user := Some(p);
      r := Ok(());
    case Fresh(p, ttl) =>
      var token := ValidateBearerToken(req.authorization.value).value;
      cache.Set(TokenKey(token), CacheStore.Claims(p), ttl);
      req.user := Some(p);
      r := Ok(());
    case Refuse(e) =>
      r := Err(e);
  }
}
