/**
 * `CacheInterceptor`: remembers, in a map of its own, the first response
 * produced for each method and path, and answers every later request for
 * them with it, without running the handler. Entries are never removed.
 */
module CacheInterceptor {
  import opened Wrappers
  import Http

  /** `${req.method}-${req.path}` */
  function CacheKey(httpMethod: string, path: string): string
  {
    httpMethod + "-" + path
  }

  /**
   * One request against a memo: the stored response on a hit; on a miss the
   * handler's outcome, stored when it is a response.
   */
  function Serve(memo: map<string, string>, key: string, handler: Http.Outcome<string>): (result: (map<string, string>, Http.Outcome<string>))
    ensures key in memo ==> result == (memo, Ok(memo[key]))
    ensures key !in memo ==> result.1 == handler
    ensures key !in memo && handler.Ok? ==> result.0 == memo[key := handler.value]
    ensures key !in memo && handler.Err? ==> result.0 == memo
  {
    if key in memo then (memo, Ok(memo[key]))
    else if handler.Ok? then (memo[key := handler.value], handler)
    else (memo, handler)
  }

  /** A run of requests: each is a key and what the handler would answer. */
  function ServeAll(memo: map<string, string>, requests: seq<(string, Http.Outcome<string>)>): (result: (map<string, string>, seq<Http.Outcome<string>>))
    ensures |result.1| == |requests|
    decreases |requests|
  {
    if requests == [] then (memo, [])
    else
      var (memo', first) := Serve(memo, requests[0].0, requests[0].1);
      var (last, rest) := ServeAll(memo', requests[1..]);
      (last, [first] + rest)
  }

  /** Entries are never removed or changed. */
  lemma {:induction false} ServeAllKeepsEntries(memo: map<string, string>, requests: seq<(string, Http.Outcome<string>)>)
    ensures forall k :: k in memo ==> k in ServeAll(memo, requests).0 && ServeAll(memo, requests).0[k] == memo[k]
    decreases |requests|
  {
    if requests != [] {
      ServeAllKeepsEntries(Serve(memo, requests[0].0, requests[0].1).0, requests[1..]);
    }
  }

  /**
   * Once a response is stored under a key, every later request with that
   * key is answered with it, whatever the handler would say.
   */
  lemma {:induction false} StoredResponseIsStable(memo: map<string, string>, requests: seq<(string, Http.Outcome<string>)>, key: string)
    requires key in memo
    ensures forall i :: 0 <= i < |requests| && requests[i].0 == key ==> ServeAll(memo, requests).1[i] == Ok(memo[key])
    decreases |requests|
  {
    if requests != [] {
      var (memo', first) := Serve(memo, requests[0].0, requests[0].1);
      StoredResponseIsStable(memo', requests[1..], key);
      var out := ServeAll(memo, requests).1;
      forall i | 0 <= i < |requests| && requests[i].0 == key ensures out[i] == Ok(memo[key]) {
        if i > 0 {
          assert requests[1..][i - 1] == requests[i];
          assert out[i] == ServeAll(memo', requests[1..]).1[i - 1];
        }
      }
    }
  }

  /** The interceptor, with its private `cache` map. */
  class Interceptor {
    var cache: map<string, string>

    constructor ()
      ensures cache == map[]
    {
      cache := map[];
    }

    /** `intercept` for a request with this method and path. */
    method Intercept(httpMethod: string, path: string, handler: Http.Outcome<string>) returns (r: Http.Outcome<string>)
      modifies this
      ensures (cache, r) == Serve(old(cache), CacheKey(httpMethod, path), handler)
      ensures forall k :: k in old(cache) ==> k in cache && cache[k] == old(cache)[k]
    {
      var key := CacheKey(httpMethod, path);
      if key in cache {
        return Ok(cache[key]);
      }
      r := handler;
      if handler.Ok? {
        cache := cache[key := handler.value];
      }
    }
  }
}
