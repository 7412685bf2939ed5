/** The shared cache the list views read and write (`cache.get` and
    `cache.set` of the framework's cache), as a map from key to the stored
    result and the moment that entry expires, with the clock passed in as
    `now` (whole seconds). */
module CacheStore {
  import opened Records

  datatype Option<T> = None | Some(value: T)

  /** A cached list result and the time at which it stops being served. */
  datatype Stored = Stored(value: seq<Record>, expiry: int)

  /** The time-to-live every list view passes to `cache.set`, in seconds. */
  const Timeout: int := 60

  /** `cache.get(key)`: the stored value if the entry exists and has not expired. */
  function Lookup(entries: map<string, Stored>, key: string, now: int): (o: Option<seq<Record>>)
    ensures o.Some? <==> key in entries && now < entries[key].expiry
    ensures o.Some? ==> o.value == entries[key].value
  {
    if key in entries && now < entries[key].expiry then Some(entries[key].value) else None
  }

  /** `cache.set(key, value, timeout)`: replaces whatever was stored under
      `key`, expiry included. The cache is unbounded here, so no other key
      is evicted. */
  function Store(entries: map<string, Stored>, key: string, value: seq<Record>, timeout: int, now: int): (e: map<string, Stored>)
    ensures e.Keys == entries.Keys + {key}
    ensures forall k :: k in entries && k != key ==> e[k] == entries[k]
    ensures e[key].value == value
  {
    entries[key := Stored(value, now + timeout)]
  }

  /** Round trip: a stored value is read back unchanged until its timeout
      has elapsed, and not from then on. */
  lemma LookupAfterStore(entries: map<string, Stored>, key: string, value: seq<Record>, timeout: int, now: int, later: int)
    ensures Lookup(Store(entries, key, value, timeout, now), key, later) == if later < now + timeout then Some(value) else None
  {
  }

  /** Storing under one key leaves every other key reading as before. */
  lemma LookupOtherAfterStore(entries: map<string, Stored>, key: string, value: seq<Record>, timeout: int, now: int, other: string, later: int)
    requires other != key
    ensures Lookup(Store(entries, key, value, timeout, now), other, later) == Lookup(entries, other, later)
  {
  }

  /** The cache backend. One object is shared by every view of the process. */
  class Cache {
    var entries: map<string, Stored>

    constructor ()
      ensures entries == map[]
    {
      entries := map[];
    }

    method Get(key: string, now: int) returns (v: Option<seq<Record>>)
      ensures v == Lookup(entries, key, now)
    {
      v := Lookup(entries, key, now);
    }

    method Set(key: string, value: seq<Record>, timeout: int, now: int)
      modifies this
      ensures entries == Store(old(entries), key, value, timeout, now)
    {
      entries := entries[key := Stored(value, now + timeout)];
    }
  }

  /** What one request does to the cache: the list it answers with, the
      cache afterwards, and whether the data source was queried. */
  datatype Outcome = Outcome(result: seq<Record>, entries: map<string, Stored>, queried: bool)

  /** A cached value counts only if present, unexpired and non-empty. */
  predicate IsHit(entries: map<string, Stored>, key: string, now: int): (b: bool)
    ensures b <==> key in entries && now < entries[key].expiry && entries[key].value != []
  {
    var cached := Lookup(entries, key, now);
    cached.Some? && cached.value != []
  }

  /** The cache-aside step of every list view. `computed` is what the filter
      would return if it ran; on a hit it is not used. */
  function Serve(entries: map<string, Stored>, key: string, now: int, computed: seq<Record>): (o: Outcome)
    ensures o.queried <==> !IsHit(entries, key, now)
    ensures !o.queried ==> key in entries && now < entries[key].expiry && o.result == entries[key].value && o.result != [] && o.entries == entries
    ensures o.queried ==> o.result == computed && key in o.entries && o.entries[key] == Stored(computed, now + Timeout)
    ensures forall k :: k in entries && k != key ==> k in o.entries && o.entries[k] == entries[k]
  {
    if IsHit(entries, key, now) then Outcome(Lookup(entries, key, now).value, entries, false)
    else Outcome(computed, Store(entries, key, computed, Timeout, now), true)
  }

  /** Hit path: a live non-empty cached value is returned unchanged, the
      cache is left alone and the data source is not read. */
  lemma ServeHit(entries: map<string, Stored>, key: string, now: int, computed: seq<Record>)
    requires key in entries && now < entries[key].expiry && entries[key].value != []
    ensures Serve(entries, key, now, computed) == Outcome(entries[key].value, entries, false)
  {
  }

  /** Miss path: an absent, expired or empty cached value makes the request
      run the filter once and store its result under the same key for
      `Timeout` seconds; no other entry changes. */
  lemma ServeMiss(entries: map<string, Stored>, key: string, now: int, computed: seq<Record>)
    requires key !in entries || now >= entries[key].expiry || entries[key].value == []
    ensures var o := Serve(entries, key, now, computed);
      && o.queried && o.result == computed
      && o.entries.Keys == entries.Keys + {key}
      && o.entries[key] == Stored(computed, now + Timeout)
      && (forall k :: k in entries && k != key ==> o.entries[k] == entries[k])
  {
  }

  /** Whatever happened, only the request's own key may have changed. */
  lemma ServeTouchesOnlyKey(entries: map<string, Stored>, key: string, now: int, computed: seq<Record>, other: string, later: int)
    requires other != key
    ensures Lookup(Serve(entries, key, now, computed).entries, other, later) == Lookup(entries, other, later)
  {
  }

  /** After a request that queried and got a non-empty list, an identical
      request within the next `Timeout` seconds is answered from the cache
      with the same list and does not query, whatever the table then holds. */
  lemma RepeatWithinTimeoutHits(entries: map<string, Stored>, key: string, now: int, computed: seq<Record>, later: int, recomputed: seq<Record>)
    requires Serve(entries, key, now, computed).queried && computed != []
    requires now <= later < now + Timeout
    ensures var first := Serve(entries, key, now, computed);
      Serve(first.entries, key, later, recomputed) == Outcome(computed, first.entries, false)
  {
  }

  /** An empty result is stored but never served: the next identical
      request queries again. */
  lemma EmptyResultQueriesAgain(entries: map<string, Stored>, key: string, now: int, later: int, recomputed: seq<Record>)
    requires Serve(entries, key, now, []).queried
    ensures var first := Serve(entries, key, now, []);
      Serve(first.entries, key, later, recomputed).queried
  {
  }

  /** Once its entry has expired, a request queries again. */
  lemma ExpiredQueriesAgain(entries: map<string, Stored>, key: string, now: int, computed: seq<Record>, later: int, recomputed: seq<Record>)
    requires Serve(entries, key, now, computed).queried
    requires later >= now + Timeout
    ensures var first := Serve(entries, key, now, computed);
      Serve(first.entries, key, later, recomputed).queried
  {
  }
}
