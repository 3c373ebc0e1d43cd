/**
 * `ThrottleInterceptor`: counts a signed-in user's requests to a handler
 * marked with `Throttle({ count, unit })` per method, path and minute of the
 * hour, and refuses a request once the count has reached the limit. The
 * count grows after the handler has produced its response.
 *
 * The minute (`new Date().getMinutes()`) is a parameter; the handler's
 * response is the parameter `handler`, which is only used when the request
 * gets through.
 */
module ThrottleInterceptor {
  import opened Wrappers
  import Text
  import Http
  import CacheStore

  const LimitMessage := "요청 가능 횟수를 넘어섰습니다."

  /** The `Throttle` decorator's options. */
  datatype ThrottleOptions = ThrottleOptions(count: int, unit: string)

  /** `${req.method}_${req.path}_${userId}_${minute}` */
  function ThrottleKey(httpMethod: string, path: string, userId: int, minute: int): string
  {
    httpMethod + "_" + path + "_" + Text.IntToString(userId) + "_" + Text.IntToString(minute)
  }

  /** The entry's lifetime: a minute for `minutes`, an hour for anything else. */
  function WindowMs(unit: string): (ms: int)
    ensures unit == "minutes" ==> ms == 60 * 1000
    ensures unit != "minutes" ==> ms == 60 * 60 * 1000
  {
    if unit == "minutes" then 60 * 1000 else 60 * 60 * 1000
  }

  /** The count stored under a key (`undefined` when there is none). */
  function StoredCount(v: Option<CacheStore.Value>): Option<int>
  {
    if v.Some? && v.value.Count? then Some(v.value.n) else None
  }

  /** `count && count >= limit`: an absent count and 0 never refuse. */
  predicate Refused(count: Option<int>, limit: int)
  {
    count.Some? && count.value != 0 && count.value >= limit
  }

  /** `(count ?? 0) + 1` */
  function CountAfter(count: Option<int>): int
  {
    count.GetOr(0) + 1
  }

  /** `!userId`: no user, no `sub`, or `sub` 0. */
  predicate Anonymous(user: Option<Http.Payload>)
  {
    user.None? || user.value.sub.None? || user.value.sub.value == 0
  }

  /**
   * `intercept`: an anonymous request or an unmarked handler passes without
   * counting; a counted request over the limit is refused before the
   * handler runs; otherwise the handler's response is returned and, if it
   * produced one, the key's count goes up by one with the unit's lifetime.
   */
  method Intercept(req: Http.Request, cache: CacheStore.Cache, options: Option<ThrottleOptions>, minute: int,
    handler: Http.Outcome<string>) returns (r: Http.Outcome<string>)
    modifies cache
    ensures Anonymous(req.user) || options.None? ==> r == handler && cache.entries == old(cache.entries)
    ensures !Anonymous(req.user) && options.Some? ==>
      var key := ThrottleKey(req.httpMethod, req.path, req.user.value.sub.value, minute);
      var count := StoredCount(old(cache.Get(key)));
      && (Refused(count, options.value.count) ==> r == Err(Http.Forbidden(LimitMessage)) && cache.entries == old(cache.entries))
      && (!Refused(count, options.value.count) ==> r == handler)
      && (!Refused(count, options.value.count) && handler.Err? ==> cache.entries == old(cache.entries))
      && (!Refused(count, options.value.count) && handler.Ok? ==>
            cache.entries == old(cache.entries)[key := CacheStore.Entry(CacheStore.Count(CountAfter(count)), WindowMs(options.value.unit))])
  {
    if Anonymous(req.user) || options.None? {
      return handler;
    }
    var key := ThrottleKey(req.httpMethod, req.path, req.user.value.sub.value, minute);
    var count := StoredCount(cache.Get(key));
    if Refused(count, options.value.count) {
      return Err(Http.Forbidden(LimitMessage));
    }
    var window := WindowMs(options.value.unit);
    r := handler;
    if handler.Ok? {
      var current := StoredCount(cache.Get(key));
      cache.Set(key, CacheStore.Count(CountAfter(current)), Some(window));
    }
  }

  /**
   * The count under one key after `n` requests in the same window, each
   * answered by the handler, starting from no entry: a request that is let
   * through adds one, a refused one changes nothing.
   */
  function CountAfterRequests(n: nat, limit: int): Option<int>
  {
    if n == 0 then None
    else
      var c := CountAfterRequests(n - 1, limit);
      if Refused(c, limit) then c else Some(CountAfter(c))
  }

  function Max(a: int, b: int): int
  {
    if a >= b then a else b
  }

  function Min(a: int, b: int): int
  {
    if a <= b then a else b
  }

  /**
   * Within one window exactly `max(limit, 1)` requests get through: the
   * first always does, since there is no count yet, and the count stops at
   * the limit, after which every request is refused.
   */
  lemma {:induction false} AdmitsUpToLimit(n: nat, limit: int)
    requires n >= 1
    ensures CountAfterRequests(n, limit) == Some(Min(n, Max(limit, 1)))
    ensures Refused(CountAfterRequests(n, limit), limit) <==> n >= Max(limit, 1)
  {
    if n > 1 {
      AdmitsUpToLimit(n - 1, limit);
    }
  }
}
