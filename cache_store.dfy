/**
 * The `cache-manager` store behind `CACHE_MANAGER`: values by string key,
 * each stored with the time-to-live it was given. Entries are not expired in
 * this model; a TTL is only recorded.
 */
module CacheStore {
  import opened Wrappers
  import Http
  import Store

  /** The kinds of value the application caches. */
  datatype Value =
    | Count(n: int)
    | Claims(payload: Http.Payload)
    | Movies(movies: seq<Store.Movie>)

  /** JavaScript truthiness of a cached value: only the number 0 is falsy. */
  predicate Truthy(v: Value)
  {
    !(v.Count? && v.n == 0)
  }

  /** The module-wide TTL in milliseconds (`CacheModule.register({ ttl: 5000 })`). */
  const DefaultTtl := 5000

  datatype Entry = Entry(value: Value, ttl: int)

  class Cache {
    var entries: map<string, Entry>

    constructor ()
      ensures entries == map[]
    {
      entries := map[];
    }

    /** `get(key)`; `None` is `undefined`. */
    function Get(key: string): (r: Option<Value>)
      reads this
      ensures r.Some? <==> key in entries
      ensures r.Some? ==> r.value == entries[key].value
    {
      if key in entries then Some(entries[key].value) else None
    }

    /** `set(key, value, ttl)`; without a TTL the module default applies. */
    method Set(key: string, value: Value, ttl: Option<int>)
      modifies this
      ensures entries == old(entries)[key := Entry(value, ttl.GetOr(DefaultTtl))]
      ensures Get(key) == Some(value)
      ensures forall k :: k != key ==> Get(k) == old(Get(k))
    {
      entries := entries[key := Entry(value, ttl.GetOr(DefaultTtl))];
    }
  }
}
