/**
 * The per-key URL-count store behind `MaxUrlsCacheService`: a Redis
 * database seen as a table from string keys to signed 64-bit counters.
 * The table is modelled by pure functions on `map<string, int64>`
 * (`Stored`, `Decreased`, `Lookup`) and by a class whose methods update a
 * `store` field exactly as those functions say.
 */
module MaxUrlsCache {
  import opened Wrappers
  import opened MachineInts

  type Store = map<string, int64>

  /**
   * What `DecreaseUrlCount` hands back: null for a missing key, the
   * counter after the decrement, or the error Redis raises when the
   * decrement would leave the signed 64-bit range.
   */
  datatype Reply = Nil | Count(value: int64) | RedisError

  /** The store after `SetMaxUrls(key, maxurls)`. */
  function Stored(m: Store, key: string, maxurls: int32): (r: Store)
    ensures r.Keys == m.Keys + {key}
    ensures r[key] as int == Sub32(maxurls, 1) as int
    ensures maxurls as int > INT32_MIN ==> r[key] as int == maxurls as int - 1
    ensures forall k :: k in m && k != key ==> r[k] == m[k]
  {
    m[key := Sub32(maxurls, 1) as int64]
  }

  /** The store and the reply after `DecreaseUrlCount(key)`. */
  function Decreased(m: Store, key: string): (r: (Store, Reply))
    ensures r.1.Nil? <==> key !in m
    ensures !r.1.Count? ==> r.0 == m
    ensures r.1.RedisError? <==> key in m && m[key] as int == INT64_MIN
    ensures r.1.Count? ==> r.1.value as int == m[key] as int - 1 && r.0 == m[key := r.1.value]
  {
    if key !in m then (m, Nil)
    else if m[key] as int == INT64_MIN then (m, RedisError)
    else
      var v := m[key] - 1;
      (m[key := v], Count(v))
  }

  /** What `GetMaxUrls(key)` reads. */
  function Lookup(m: Store, key: string): (r: Option<int64>)
    ensures r.None? <==> key !in m
    ensures r.Some? ==> r.value == m[key]
  {
    if key in m then Some(m[key]) else None
  }

  /** The store after `k` calls of `DecreaseUrlCount(key)`. */
  function DecreasedTimes(m: Store, key: string, k: nat): Store
  {
    if k == 0 then m else DecreasedTimes(Decreased(m, key).0, key, k - 1)
  }

  class MaxUrlsCacheService {
    /** The Redis database the service is connected to. */
    var store: Store

    /** Connects to a database that may already hold counters. */
    constructor (existing: Store)
      ensures store == existing
    {
      store := existing;
    }

    /** Stores `maxurls - 1` under `key`, overwriting any earlier value. */
    method SetMaxUrls(key: string, maxurls: int32)
      modifies this
      ensures store == Stored(old(store), key, maxurls)
    {
      var value := Sub32(maxurls, 1);
      store := store[key := value as int64];
    }

    /**
     * Decrements the counter under `key` when the key exists and returns
     * the new value; returns null, and changes nothing, when it does not.
     * There is no lower bound: a counter at 0 becomes -1.
     */
    method DecreaseUrlCount(key: string) returns (reply: Reply)
      modifies this
      ensures (store, reply) == Decreased(old(store), key)
    {
      var keyExists := key in store;
      if keyExists {
        var current := store[key];
        if current as int == INT64_MIN {
          reply := RedisError;
        } else {
          var data := current - 1;
          store := store[key := data];
          reply := Count(data);
        }
        return;
      }
      reply := Nil;
    }

    /** Reads the counter under `key`, or null when the key is absent. */
    method GetMaxUrls(key: string) returns (r: Option<int64>)
      ensures r.None? <==> key !in store
      ensures r.Some? ==> r.value == store[key]
    {
      var keyExists := key in store;
      if keyExists {
        return Some(store[key]);
      }
      return None;
    }

    /** The one-day time-to-live running out: Redis drops the key. */
    method Expire(key: string)
      modifies this
      ensures store == old(store) - {key}
    {
      store := store - {key};
    }
  }

  /** A second `SetMaxUrls` on the same key replaces the first. */
  lemma SetOverwrites(m: Store, key: string, a: int32, b: int32)
    ensures Stored(Stored(m, key, a), key, b) == Stored(m, key, b)
  {
  }

  /** `SetMaxUrls` and `DecreaseUrlCount` leave every other key as it was. */
  lemma OtherKeysUnchanged(m: Store, key: string, other: string, n: int32)
    requires other != key
    ensures Lookup(Stored(m, key, n), other) == Lookup(m, other)
    ensures Lookup(Decreased(m, key).0, other) == Lookup(m, other)
  {
  }

  /** Reading after `SetMaxUrls(key, n)` gives `n - 1` (wrapped as a C# int). */
  lemma GetAfterSet(m: Store, key: string, n: int32)
    ensures Lookup(Stored(m, key, n), key) == Some(Sub32(n, 1) as int64)
  {
  }

  /** There is no lower bound: decrementing a counter at 0 gives -1. */
  lemma DecreaseBelowZero(m: Store, key: string)
    requires key in m && m[key] == 0
    ensures Decreased(m, key).1 == Count(-1)
    ensures Lookup(Decreased(m, key).0, key) == Some(-1)
  {
  }

  /**
   * `k` decrements of a present counter `v` leave `v - k` under the key,
   * as long as the counter stays in the signed 64-bit range.
   */
  lemma {:induction false} DecreasedTimesValue(m: Store, key: string, k: nat)
    requires key in m && m[key] as int - k >= INT64_MIN
    ensures DecreasedTimes(m, key, k) == m[key := (m[key] as int - k) as int64]
    decreases k
  {
    if k == 0 {
      assert m[key := m[key]] == m;
    } else {
      var m' := Decreased(m, key).0;
      DecreasedTimesValue(m', key, k - 1);
      assert m'[key := (m'[key] as int - (k - 1)) as int64] == m[key := (m[key] as int - k) as int64];
    }
  }

  /**
   * After `SetMaxUrls(key, n)` and `k` calls of `DecreaseUrlCount(key)`,
   * `GetMaxUrls(key)` reads `n - 1 - k`.
   */
  lemma SetThenDecrease(m: Store, key: string, n: int32, k: nat)
    requires Sub32(n, 1) as int - k >= INT64_MIN
    ensures Lookup(DecreasedTimes(Stored(m, key, n), key, k), key)
      == Some((Sub32(n, 1) as int - k) as int64)
  {
    DecreasedTimesValue(Stored(m, key, n), key, k);
  }
}
