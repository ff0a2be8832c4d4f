/**
 * The in-memory cache (backend/utils/cache.py): a dictionary from keys to
 * entries, each holding a value and, when the entry was stored with a
 * non-zero lifetime, the instant it expires. Reads and existence tests
 * drop an entry they find expired. The clock (`datetime.now()`) is the
 * parameter `now`, an instant in microseconds, the resolution of Python's
 * `datetime`. A stored value is an `Option`, `None` being Python's `None`,
 * which a caller cannot tell apart from a miss.
 */
module Caching {
  import opened Base

  const MicrosPerSecond := 1000000
  const SecondsPerDay := 24 * 60 * 60

  datatype Entry<V> = Entry(value: Option<V>, expiresAt: Option<int>)

  /** `now > entry["expires_at"]`: an entry without an expiry never expires. */
  predicate Expired<V>(e: Entry<V>, now: int)
  {
    e.expiresAt.Some? && now > e.expiresAt.value
  }

  /** `if expire_seconds:` a lifetime is set only when it is present and non-zero, negative ones included. */
  predicate Truthy(n: Option<int>)
  {
    n.Some? && n.value != 0
  }

  /** The entry `set(key, value, expire_seconds)` stores at instant `now`. */
  function NewEntry<V>(value: Option<V>, expireSeconds: Option<int>, now: int): (e: Entry<V>)
    ensures e.value == value
    ensures e.expiresAt.None? <==> !Truthy(expireSeconds)
    ensures Truthy(expireSeconds) ==> e.expiresAt.value == now + expireSeconds.value * MicrosPerSecond
  {
    Entry(value, if Truthy(expireSeconds) then Some(now + expireSeconds.value * MicrosPerSecond) else None)
  }

  /** What `get(key)` returns at `now`. */
  function Lookup<V>(entries: map<string, Entry<V>>, key: string, now: int): (r: Option<V>)
    ensures r.Some? ==> key in entries && !Expired(entries[key], now) && entries[key].value == r
  {
    if key !in entries || Expired(entries[key], now) then None else entries[key].value
  }

  /** The table after a read of `key` at `now`: an expired entry under that key is removed, nothing else changes. */
  function AfterRead<V>(entries: map<string, Entry<V>>, key: string, now: int): (r: map<string, Entry<V>>)
    ensures forall k :: k in r <==> k in entries && !(k == key && Expired(entries[k], now))
    ensures forall k :: k in r ==> r[k] == entries[k]
  {
    if key in entries && Expired(entries[key], now) then entries - {key} else entries
  }

  /** The keys whose entries have expired at `now`. */
  function ExpiredKeys<V>(entries: map<string, Entry<V>>, now: int): set<string>
  {
    set k | k in entries && Expired(entries[k], now)
  }

  /** The entries still live at `now`. */
  function Live<V>(entries: map<string, Entry<V>>, now: int): (r: map<string, Entry<V>>)
    ensures forall k :: k in r <==> k in entries && !Expired(entries[k], now)
    ensures forall k :: k in r ==> r[k] == entries[k]
  {
    map k | k in entries && !Expired(entries[k], now) :: entries[k]
  }

  /** `Cache.set`: a truthy `expire_days` replaces `expire_seconds` by that many days. */
  function Lifetime(expireSeconds: Option<int>, expireDays: Option<int>): (r: Option<int>)
    ensures Truthy(expireDays) ==> r == Some(expireDays.value * SecondsPerDay)
    ensures !Truthy(expireDays) ==> r == expireSeconds
  {
    if Truthy(expireDays) then Some(expireDays.value * SecondsPerDay) else expireSeconds
  }

  /** A value stored without a lifetime (none, or zero) is read back at any later instant. */
  lemma SetThenGet<V>(entries: map<string, Entry<V>>, key: string, value: Option<V>, expireSeconds: Option<int>, now: int, later: int)
    requires !Truthy(expireSeconds)
    ensures Lookup(entries[key := NewEntry(value, expireSeconds, now)], key, later) == value
  {
  }

  /**
   * A value stored with a lifetime is read back up to and including its
   * expiry instant and not after; a read after expiry removes it.
   */
  lemma ExpiryWindow<V>(entries: map<string, Entry<V>>, key: string, value: Option<V>, seconds: int, now: int, later: int)
    requires seconds != 0
    ensures var stored := entries[key := NewEntry(value, Some(seconds), now)];
            var deadline := now + seconds * MicrosPerSecond;
            && (later <= deadline ==> Lookup(stored, key, later) == value && AfterRead(stored, key, later) == stored)
            && (later > deadline ==> Lookup(stored, key, later).None? && key !in AfterRead(stored, key, later))
  {
  }

  /** Storing or deleting one key leaves what every other key reads unchanged. */
  lemma OtherKeysUnaffected<V>(entries: map<string, Entry<V>>, key: string, other: string, e: Entry<V>, now: int)
    requires other != key
    ensures Lookup(entries[key := e], other, now) == Lookup(entries, other, now)
    ensures Lookup(entries - {key}, other, now) == Lookup(entries, other, now)
  {
  }

  /** `MemoryCacheBackend`. */
  class MemoryCacheBackend<V> {
    var entries: map<string, Entry<V>>

    constructor()
      ensures entries == map[]
    {
      entries := map[];
    }

    /** `get`: the live value, or `None`; an expired entry under the key is dropped. */
    method Get(key: string, now: int) returns (r: Option<V>)
      modifies this
      ensures r == Lookup(old(entries), key, now)
      ensures entries == AfterRead(old(entries), key, now)
    {
      if key !in entries {
        return None;
      }
      var entry := entries[key];
      if entry.expiresAt.Some? {
        if now > entry.expiresAt.value {
          entries := entries - {key};
          return None;
        }
      }
      return entry.value;
    }

    /** `set`: replaces whatever was stored under the key. */
    method Set(key: string, value: Option<V>, expireSeconds: Option<int>, now: int)
      modifies this
      ensures entries == old(entries)[key := NewEntry(value, expireSeconds, now)]
    {
      var entry := Entry(value, None);
      if expireSeconds.Some? && expireSeconds.value != 0 {
        entry := entry.(expiresAt := Some(now + expireSeconds.value * MicrosPerSecond));
      }
      entries := entries[key := entry];
    }

    /** `delete`: removes only the key, and nothing when it is absent. */
    method Delete(key: string)
      modifies this
      ensures entries == old(entries) - {key}
      ensures key !in old(entries) ==> entries == old(entries)
    {
      if key in entries {
        entries := entries - {key};
      }
    }

    /** `clear`. */
    method Clear()
      modifies this
      ensures entries == map[]
    {
      entries := map[];
    }

    /** `exists`: the key is present and live; an expired entry under it is dropped. */
    method Exists(key: string, now: int) returns (b: bool)
      modifies this
      ensures b <==> key in old(entries) && !Expired(old(entries)[key], now)
      ensures entries == AfterRead(old(entries), key, now)
    {
      if key !in entries {
        return false;
      }
      var entry := entries[key];
      if entry.expiresAt.Some? {
        if now > entry.expiresAt.value {
          entries := entries - {key};
          return false;
        }
      }
      return true;
    }

    /**
     * `clear_expired`: collects the expired keys in one pass over the
     * table, deletes them in a second, and returns how many there were.
     */
    method ClearExpired(now: int) returns (n: nat)
      modifies this
      ensures entries == Live(old(entries), now)
      ensures n == |ExpiredKeys(old(entries), now)|
    {
      var expiredKeys := CollectExpired(now);
      DeleteKeys(expiredKeys);
      n := |expiredKeys|;
    }

    /** The first pass of `clear_expired`: every expired key, once each. */
    method CollectExpired(now: int) returns (expiredKeys: seq<string>)
      ensures |expiredKeys| == |ExpiredKeys(entries, now)|
      ensures forall k :: k in expiredKeys <==> k in ExpiredKeys(entries, now)
    {
      expiredKeys := [];
      ghost var found: set<string> := {};
      var todo := entries.Keys;
      while todo != {}
        invariant todo <= entries.Keys
        invariant found == set k | k in entries && k !in todo && Expired(entries[k], now)
        invariant |expiredKeys| == |found| && forall k :: k in expiredKeys <==> k in found
        decreases |todo|
      {
        var key :| key in todo;
        if entries[key].expiresAt.Some? && now > entries[key].expiresAt.value {
          assert key !in found;
          expiredKeys := expiredKeys + [key];
          found := found + {key};
        }
        todo := todo - {key};
      }
      assert found == ExpiredKeys(entries, now);
    }

    /** The second pass of `clear_expired`: `del self._cache[key]` for each key. */
    method DeleteKeys(keys: seq<string>)
      modifies this
      requires forall k :: k in keys ==> k in entries
      ensures entries == map k | k in old(entries) && k !in keys :: old(entries)[k]
    {
      var i := 0;
      while i < |keys|
        invariant 0 <= i <= |keys|
        invariant entries == map k | k in old(entries) && k !in keys[..i] :: old(entries)[k]
      {
        assert keys[..i + 1] == keys[..i] + [keys[i]];
        entries := entries - {keys[i]};
        i := i + 1;
      }
      assert keys[..i] == keys;
    }
  }

  /** `Cache`, the front over a backend. */
  class Cache<V> {
    const backend: MemoryCacheBackend<V>

    constructor()
      ensures fresh(backend) && backend.entries == map[]
    {
      backend := new MemoryCacheBackend();
    }

    /** `Cache.set`: days override seconds, then the backend stores. */
    method Set(key: string, value: Option<V>, expireSeconds: Option<int>, expireDays: Option<int>, now: int)
      modifies backend
      ensures backend.entries == old(backend.entries)[key := NewEntry(value, Lifetime(expireSeconds, expireDays), now)]
    {
      var seconds := expireSeconds;
      if expireDays.Some? && expireDays.value != 0 {
        seconds := Some(expireDays.value * 24 * 60 * 60);
      }
      backend.Set(key, value, seconds, now);
    }

    /**
     * `get_or_set`: a cached value other than `None` is returned as is;
     * otherwise the computed value (the result of calling `default`) is
     * stored and returned.
     */
    method GetOrSet(key: string, computed: Option<V>, expireSeconds: Option<int>, expireDays: Option<int>, now: int)
      returns (r: Option<V>)
      modifies backend
      ensures var cached := Lookup(old(backend.entries), key, now);
              var afterRead := AfterRead(old(backend.entries), key, now);
              && (cached.Some? ==> r == cached && backend.entries == afterRead)
              && (cached.None? ==>
                    r == computed
                    && backend.entries == afterRead[key := NewEntry(computed, Lifetime(expireSeconds, expireDays), now)])
    {
      r := backend.Get(key, now);
      if r.Some? {
        return;
      }
      r := computed;
      Set(key, r, expireSeconds, expireDays, now);
    }
  }
}
