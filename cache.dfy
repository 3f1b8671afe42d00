/**
 * `InMemoryCache`: a dictionary from string keys to (value, expiry) pairs.
 * The clock `time.time()` is the explicit parameter `now` (seconds), and the
 * lock is left out: every operation runs alone.
 */
module Cache {
  import opened Wrappers
  import opened Strings

  /** A cached value and the instant, in seconds, at which it goes stale. */
  datatype Entry<V> = Entry(value: V, expiry: real)

  /** An entry is served strictly before its expiry instant. */
  predicate IsLive<V>(e: Entry<V>, now: real) {
    now < e.expiry
  }

  /** What `get` returns for `key` at `now`. */
  function Lookup<V>(entries: map<string, Entry<V>>, key: string, now: real): (r: Option<V>)
    ensures r.Some? <==> key in entries && IsLive(entries[key], now)
    ensures r.Some? ==> r.value == entries[key].value
  {
    if key in entries && IsLive(entries[key], now) then Some(entries[key].value) else None
  }

  /** The map `get` leaves behind: a stale entry for `key` is evicted, nothing else changes. */
  function AfterLookup<V>(entries: map<string, Entry<V>>, key: string, now: real): (m: map<string, Entry<V>>)
    ensures key in entries && !IsLive(entries[key], now) ==> m == entries - {key}
    ensures key !in entries || IsLive(entries[key], now) ==> m == entries
    ensures |m| <= |entries|
  {
    if key in entries && !IsLive(entries[key], now) then entries - {key} else entries
  }

  /** The keys `cleanup_expired` removes: exactly those whose expiry has been reached. */
  function ExpiredKeys<V>(entries: map<string, Entry<V>>, now: real): (ks: set<string>)
    ensures forall k :: k in ks <==> k in entries && !IsLive(entries[k], now)
  {
    set k | k in entries && !IsLive(entries[k], now)
  }

  /** The entries `cleanup_expired` keeps: the live ones, unchanged. */
  function LiveEntries<V>(entries: map<string, Entry<V>>, now: real): (m: map<string, Entry<V>>)
    ensures forall k :: k in m <==> k in entries && IsLive(entries[k], now)
    ensures forall k :: k in m ==> m[k] == entries[k]
  {
    map k | k in entries && IsLive(entries[k], now) :: entries[k]
  }

  /** The removed and the kept entries account for every entry. */
  lemma CleanupPartition<V>(entries: map<string, Entry<V>>, now: real)
    ensures LiveEntries(entries, now).Keys == entries.Keys - ExpiredKeys(entries, now)
    ensures |entries| == |LiveEntries(entries, now)| + |ExpiredKeys(entries, now)|
  {
    var live, expired := LiveEntries(entries, now).Keys, ExpiredKeys(entries, now);
    assert live == entries.Keys - expired;
    assert entries.Keys == live + expired;
    assert live * expired == {};
    DisjointUnionSize(live, expired);
  }

  lemma DisjointUnionSize(a: set<string>, b: set<string>)
    requires a * b == {}
    ensures |a + b| == |a| + |b|
  {
    if a != {} {
      var x :| x in a;
      assert (a - {x}) + b == (a + b) - {x};
      DisjointUnionSize(a - {x}, b);
    }
  }

  /**
   * `get` serves exactly the entries `cleanup_expired` keeps: the two
   * boundaries are complementary.
   */
  lemma LookupAgreesWithCleanup<V>(entries: map<string, Entry<V>>, key: string, now: real)
    ensures Lookup(entries, key, now).Some? <==> key in LiveEntries(entries, now)
    ensures key in entries ==> (Lookup(entries, key, now).None? <==> key in ExpiredKeys(entries, now))
  {
  }

  class InMemoryCache<V> {
    /** The time-to-live, in seconds, of an entry set without one. */
    var defaultTtl: int
    /** `self.cache`. */
    var entries: map<string, Entry<V>>

    constructor (defaultTtl: int)
      ensures this.defaultTtl == defaultTtl && entries == map[]
    {
      this.defaultTtl := defaultTtl;
      entries := map[];
    }

    /** `ttl or self.default_ttl`: a missing or zero time-to-live falls back to the default. */
    function EffectiveTtl(ttl: Option<int>): (t: int)
      reads this
      ensures ttl.Some? && ttl.value != 0 ==> t == ttl.value
      ensures ttl.None? || ttl.value == 0 ==> t == defaultTtl
    {
      if ttl.None? || ttl.value == 0 then defaultTtl else ttl.value
    }

    /** `get`: the value while it is live; a stale entry is evicted and reads as absent. */
    method Get(key: string, now: real) returns (r: Option<V>)
      modifies this`entries
      ensures r == Lookup(old(entries), key, now)
      ensures entries == AfterLookup(old(entries), key, now)
    {
      if key in entries {
        var entry := entries[key];
        if now < entry.expiry {
          return Some(entry.value);
        } else {
          entries := entries - {key};
        }
      }
      return None;
    }

    /** `set`: the entry for `key` is replaced; every other entry is kept. */
    method Set(key: string, value: V, ttl: Option<int>, now: real)
      modifies this`entries
      ensures entries == old(entries)[key := Entry(value, now + EffectiveTtl(ttl) as real)]
      ensures forall k :: k != key ==> (k in entries <==> k in old(entries))
      ensures forall k :: k != key && k in entries ==> entries[k] == old(entries)[k]
    {
      var t := if ttl.None? || ttl.value == 0 then defaultTtl else ttl.value;
      var expiry := now + t as real;
      entries := entries[key := Entry(value, expiry)];
    }

    /** `delete`: reports whether `key` was present, which it no longer is. */
    method Delete(key: string) returns (existed: bool)
      modifies this`entries
      ensures existed <==> key in old(entries)
      ensures entries == old(entries) - {key}
      ensures key !in entries
    {
      if key in entries {
        entries := entries - {key};
        return true;
      }
      return false;
    }

    /** `clear`: no entries are left. */
    method Clear()
      modifies this`entries
      ensures entries == map[]
      ensures |entries| == 0
    {
      entries := map[];
    }

    /** `size`: the number of keys held, live or stale. */
    method Size() returns (n: int)
      ensures n == |entries.Keys|
    {
      n := |entries|;
    }

    /** The first loop of `cleanup_expired`: the keys whose expiry has been reached, each once. */
    method CollectExpired(now: real) returns (expiredKeys: seq<string>)
      ensures forall k :: k in expiredKeys <==> k in entries && now >= entries[k].expiry
      ensures forall i, j :: 0 <= i < j < |expiredKeys| ==> expiredKeys[i] != expiredKeys[j]
    {
      expiredKeys := [];
      var unvisited := entries.Keys;
      while unvisited != {}
        invariant unvisited <= entries.Keys
        invariant forall k :: k in expiredKeys <==> k in entries && k !in unvisited && now >= entries[k].expiry
        invariant forall i, j :: 0 <= i < j < |expiredKeys| ==> expiredKeys[i] != expiredKeys[j]
        decreases |unvisited|
      {
        var key :| key in unvisited;
        if now >= entries[key].expiry {
          expiredKeys := expiredKeys + [key];
        }
        unvisited := unvisited - {key};
      }
    }

    /**
     * `cleanup_expired`: exactly the stale entries are removed, the live ones
     * are kept as they were, and the count returned is how many went.
     */
    method CleanupExpired(now: real) returns (removed: int)
      modifies this`entries
      ensures entries == LiveEntries(old(entries), now)
      ensures removed == |ExpiredKeys(old(entries), now)|
      ensures removed == |old(entries)| - |entries|
    {
      var expiredKeys := CollectExpired(now);
      var i := 0;
      while i < |expiredKeys|
        invariant 0 <= i <= |expiredKeys|
        invariant forall k :: k in entries <==> k in old(entries) && k !in expiredKeys[..i]
        invariant forall k :: k in entries ==> entries[k] == old(entries)[k]
        invariant |entries| == |old(entries)| - i
      {
        var key := expiredKeys[i];
        assert key !in expiredKeys[..i];
        assert key in entries;
        assert expiredKeys[..i + 1] == expiredKeys[..i] + [key];
        assert (entries - {key}).Keys == entries.Keys - {key};
        entries := entries - {key};
        i := i + 1;
      }
      assert expiredKeys[..i] == expiredKeys;
      assert entries == LiveEntries(old(entries), now);
      CleanupPartition(old(entries), now);
      return |expiredKeys|;
    }
  }

  // ---- the cache-aside wrapper ----

  /**
   * `cache_result(...)(func)(x)`: a stored value other than `None` is
   * returned without calling `func`; otherwise `func` runs (`called`) and its
   * result, `None` included, is stored under the key.
   */
  method CachedCall<A, R>(cache: InMemoryCache<Option<R>>, keyOf: A -> string, func: A -> Option<R>, x: A,
                          ttl: Option<int>, now: real)
    returns (result: Option<R>, called: bool)
    modifies cache`entries
    ensures var hit := Lookup(old(cache.entries), keyOf(x), now);
            && (hit.Some? && hit.value.Some? ==>
                  !called && result == hit.value && cache.entries == old(cache.entries))
            && (!(hit.Some? && hit.value.Some?) ==>
                  called && result == func(x)
                  && cache.entries == old(cache.entries)[keyOf(x) := Entry(func(x), now + cache.EffectiveTtl(ttl) as real)])
  {
    var key := keyOf(x);
    var cached := cache.Get(key, now);
    if cached.Some? && cached.value.Some? {
      return cached.value, false;
    }
    result := func(x);
    cache.Set(key, result, ttl, now);
    called := true;
  }

  /**
   * Two calls with a key the cache does not hold yet, the second before the
   * entry the first stores expires: a non-`None` result is served from the
   * cache the second time, while a `None` result is computed again.
   */
  method CachedCallTwice<A, R>(cache: InMemoryCache<Option<R>>, keyOf: A -> string, func: A -> Option<R>, x: A,
                               ttl: Option<int>, now1: real, now2: real)
    returns (first: Option<R>, second: Option<R>, calledAgain: bool)
    requires keyOf(x) !in cache.entries
    requires now1 <= now2 < now1 + cache.EffectiveTtl(ttl) as real
    modifies cache`entries
    ensures second == first
    ensures calledAgain <==> func(x).None?
  {
    var calledFirst;
    first, calledFirst := CachedCall(cache, keyOf, func, x, ttl, now1);
    assert cache.entries[keyOf(x)] == Entry(func(x), now1 + cache.EffectiveTtl(ttl) as real);
    second, calledAgain := CachedCall(cache, keyOf, func, x, ttl, now2);
  }

  // ---- cache keys ----

  /** `geocoding_key_func`: the location lowered and trimmed, after a "geocode:" prefix. */
  function GeocodingKey(location: string): (k: string)
    ensures StartsWith(k, "geocode:")
  {
    "geocode:" + Strip(Lower(location))
  }

  /** Two locations share a geocoding key exactly when they agree once lowered and trimmed. */
  lemma GeocodingKeyInjective(a: string, b: string)
    ensures GeocodingKey(a) == GeocodingKey(b) <==> Strip(Lower(a)) == Strip(Lower(b))
  {
    if GeocodingKey(a) == GeocodingKey(b) {
      assert Strip(Lower(a)) == GeocodingKey(a)[|"geocode:"|..];
      assert Strip(Lower(b)) == GeocodingKey(b)[|"geocode:"|..];
    }
  }

  /** Letter case and surrounding whitespace never change the normalised location. */
  lemma NormalisedIgnoresCaseAndPadding(w1: string, s: string, w2: string, t: string)
    requires AllSpace(w1) && AllSpace(w2) && Lower(s) == Lower(t)
    ensures Strip(Lower(w1 + s + w2)) == Strip(Lower(t))
  {
    LowerConcat(w1, s);
    LowerConcat(w1 + s, w2);
    LowerKeepsSpace(w1);
    LowerKeepsSpace(w2);
    StripPadded(w1, Lower(t), w2);
  }

  /** Locations that differ only in letter case or surrounding whitespace share a geocoding key. */
  lemma GeocodingKeyIgnoresCaseAndPadding(w1: string, s: string, w2: string, t: string)
    requires AllSpace(w1) && AllSpace(w2) && Lower(s) == Lower(t)
    ensures GeocodingKey(w1 + s + w2) == GeocodingKey(t)
  {
    NormalisedIgnoresCaseAndPadding(w1, s, w2, t);
  }

  /**
   * `airport_search_key_func`, with `str(location)` given as `location`:
   * "search:" then the lowered, trimmed location, the type and the radius,
   * separated by colons.
   */
  function AirportSearchKey(location: string, aircraftType: string, maxDistanceNm: int): (k: string)
    ensures StartsWith(k, "search:")
  {
    var head := "search:" + Strip(Lower(location));
    StartsWithAppend("search:", "search:", Strip(Lower(location)));
    StartsWithAppend(head, "search:", ":");
    StartsWithAppend(head + ":", "search:", aircraftType);
    StartsWithAppend(head + ":" + aircraftType, "search:", ":");
    StartsWithAppend(head + ":" + aircraftType + ":", "search:", IntToString(maxDistanceNm));
    head + ":" + aircraftType + ":" + IntToString(maxDistanceNm)
  }

  /** Requests that differ only in location case or surrounding whitespace share a search key. */
  lemma AirportSearchKeyIgnoresCaseAndPadding(w1: string, s: string, w2: string, t: string,
                                              aircraftType: string, maxDistanceNm: int)
    requires AllSpace(w1) && AllSpace(w2) && Lower(s) == Lower(t)
    ensures AirportSearchKey(w1 + s + w2, aircraftType, maxDistanceNm) == AirportSearchKey(t, aircraftType, maxDistanceNm)
  {
    NormalisedIgnoresCaseAndPadding(w1, s, w2, t);
  }

  /** Lower-case text that neither starts nor ends with whitespace. */
  predicate Plain(s: string) {
    s != [] && Lower(s) == s && !IsSpace(s[0]) && !IsSpace(s[|s| - 1])
  }

  /**
   * The separator can occur in the location or the type, so two different
   * requests can share a key: location "a:b" with type "c", and location
   * "a" with type "b:c".
   */
  lemma AirportSearchKeyCollides(a: string, b: string, c: string, maxDistanceNm: int)
    requires Plain(a) && Plain(b)
    ensures AirportSearchKey(a + ":" + b, c, maxDistanceNm) == AirportSearchKey(a, b + ":" + c, maxDistanceNm)
    ensures Strip(Lower(a + ":" + b)) != Strip(Lower(a))
  {
    var ab := a + ":" + b;
    assert Lower(ab) == ab by {
      LowerConcat(a, ":");
      LowerConcat(a + ":", b);
    }
    assert Strip(ab) == ab by {
      StripUnpadded(ab);
    }
    assert Strip(a) == a by {
      StripUnpadded(a);
    }
    var n := IntToString(maxDistanceNm);
    assert AirportSearchKey(ab, c, maxDistanceNm) == "search:" + ab + ":" + c + ":" + n;
    assert AirportSearchKey(a, b + ":" + c, maxDistanceNm) == "search:" + a + ":" + (b + ":" + c) + ":" + n;
    ConcatRegroup("search:", a, b, c, n, ":");
    assert |ab| > |a|;
  }

  lemma ConcatRegroup(p: string, a: string, b: string, c: string, n: string, sep: string)
    ensures p + (a + sep + b) + sep + c + sep + n == p + a + sep + (b + sep + c) + sep + n
  {
  }

  /** A field preceded by its length and a colon. */
  function Field(s: string): string {
    IntToString(|s|) + ":" + s
  }

  /**
   * A search key that cannot collide: the location and the type are each
   * preceded by their length, so the key can be read back unambiguously.
   */
  function SearchCacheKey(location: string, aircraftType: string, maxDistanceNm: int): (k: string)
    ensures StartsWith(k, "search:")
  {
    "search:" + (Field(Strip(Lower(location))) + (":" + (Field(aircraftType) + (":" + IntToString(maxDistanceNm)))))
  }

  /** `n` then a colon then `rest`: the number and the rest can be read back. */
  lemma LengthPrefixed(n1: int, rest1: string, n2: int, rest2: string)
    requires IntToString(n1) + ":" + rest1 == IntToString(n2) + ":" + rest2
    ensures n1 == n2 && rest1 == rest2
  {
    IntToStringHasNo(n1, ':');
    IntToStringHasNo(n2, ':');
    assert IntToString(n1) + ":" + rest1 == IntToString(n1) + [':'] + rest1;
    assert IntToString(n2) + ":" + rest2 == IntToString(n2) + [':'] + rest2;
    SplitAt(IntToString(n1), rest1, IntToString(n2), rest2, ':');
    IntToStringInjective(n1, n2);
  }

  /** A string of known length, then the rest: both can be read back. */
  lemma KnownLengthPrefix(a1: string, rest1: string, a2: string, rest2: string)
    requires |a1| == |a2| && a1 + rest1 == a2 + rest2
    ensures a1 == a2 && rest1 == rest2
  {
    assert a1 == (a1 + rest1)[..|a1|];
    assert a2 == (a2 + rest2)[..|a2|];
    assert rest1 == (a1 + rest1)[|a1|..];
    assert rest2 == (a2 + rest2)[|a2|..];
  }

  /** A field, then the rest: both can be read back. */
  lemma FieldPrefix(s1: string, rest1: string, s2: string, rest2: string)
    requires Field(s1) + rest1 == Field(s2) + rest2
    ensures s1 == s2 && rest1 == rest2
  {
    assert Field(s1) + rest1 == IntToString(|s1|) + ":" + (s1 + rest1);
    assert Field(s2) + rest2 == IntToString(|s2|) + ":" + (s2 + rest2);
    LengthPrefixed(|s1|, s1 + rest1, |s2|, s2 + rest2);
    KnownLengthPrefix(s1, rest1, s2, rest2);
  }

  /**
   * Two requests share a corrected key exactly when they are the same
   * request: same normalised location, same type, same radius.
   */
  lemma SearchCacheKeyInjective(loc1: string, type1: string, r1: int, loc2: string, type2: string, r2: int)
    ensures SearchCacheKey(loc1, type1, r1) == SearchCacheKey(loc2, type2, r2) <==>
              Strip(Lower(loc1)) == Strip(Lower(loc2)) && type1 == type2 && r1 == r2
  {
    if SearchCacheKey(loc1, type1, r1) == SearchCacheKey(loc2, type2, r2) {
      var l1, l2 := Strip(Lower(loc1)), Strip(Lower(loc2));
      var tail1, tail2 := ":" + IntToString(r1), ":" + IntToString(r2);
      KnownLengthPrefix("search:", Field(l1) + (":" + (Field(type1) + tail1)),
                        "search:", Field(l2) + (":" + (Field(type2) + tail2)));
      FieldPrefix(l1, ":" + (Field(type1) + tail1), l2, ":" + (Field(type2) + tail2));
      KnownLengthPrefix(":", Field(type1) + tail1, ":", Field(type2) + tail2);
      FieldPrefix(type1, tail1, type2, tail2);
      KnownLengthPrefix(":", IntToString(r1), ":", IntToString(r2));
      IntToStringInjective(r1, r2);
    }
  }
}
