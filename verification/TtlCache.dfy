/** The class of abridgeai/core/ttl_cache.py, updated in place. */
module TtlCache {
  import opened Prelude
  import opened TtlCacheSpec
  import opened TtlCacheTheorems

  /** `TTLCache`; the lock makes each method one step.  `now` is the clock reading the method makes. */
  class TTLCache<K(==), V> {
    const maxEntries: nat
    const ttlSeconds: real
    var store: Store<K, V>

    ghost predicate Valid()
      reads this
    {
      DistinctKeys(store) && |store| <= maxEntries
    }

    constructor (maxEntries: nat, ttlSeconds: real)
      ensures Valid() && store == []
      ensures this.maxEntries == maxEntries && this.ttlSeconds == ttlSeconds
    {
      this.maxEntries := maxEntries;
      this.ttlSeconds := ttlSeconds;
      store := [];
    }

    /** `del self._store[key]`, or `pop(key, None)`. */
    method Delete(key: K)
      requires DistinctKeys(store)
      modifies this`store
      ensures store == Without(old(store), Only(key))
    {
      var i := 0;
      while i < |store| && store[i].key != key
        invariant i <= |store|
        invariant store == old(store)
        invariant forall j :: 0 <= j < i ==> store[j].key != key
      {
        i := i + 1;
      }
      WithoutAt(store, key, i);
      if i < |store| {
        store := store[..i] + store[i + 1..];
      }
    }

    method Get(key: K, now: real) returns (value: Option<V>)
      requires Valid()
      modifies this`store
      ensures Valid()
      ensures value == Answer(old(store), key, now)
      ensures store == After(old(store), Op.Get(key), now, maxEntries, ttlSeconds)
    {
      WithoutFacts(store, Only(key));
      match Lookup(store, key) {
        case None =>
          return None;
        case Some(entry) =>
          PromoteFacts(store, entry);
          Delete(key);
          if entry.expiresAt <= now {
            return None;
          }
          store := store + [entry];
          return Some(entry.value);
      }
    }

    method Put(key: K, value: V, now: real)
      requires Valid()
      modifies this`store
      ensures Valid()
      ensures store == After(old(store), Op.Put(key, value), now, maxEntries, ttlSeconds)
    {
      var entry := Slot(key, value, now + ttlSeconds);
      PromoteFacts(store, entry);
      Delete(key);
      store := store + [entry];
      ghost var full := store;
      ghost var evicted := 0;
      while |store| > maxEntries
        invariant 0 <= evicted <= |full|
        invariant store == full[evicted..]
        invariant evicted > 0 ==> |full| - evicted >= maxEntries
      {
        store := store[1..];
        evicted := evicted + 1;
      }
    }

    method Invalidate(key: K)
      requires Valid()
      modifies this`store
      ensures Valid()
      ensures store == After(old(store), Op.Invalidate(key), 0.0, maxEntries, ttlSeconds)
    {
      WithoutFacts(store, Only(key));
      Delete(key);
    }

    /** Drops every entry whose key satisfies `drop` and says how many went. */
    method InvalidateWhere(drop: K -> bool) returns (dropped: nat)
      requires Valid()
      modifies this`store
      ensures Valid()
      ensures store == After(old(store), Op.InvalidateWhere(drop), 0.0, maxEntries, ttlSeconds)
      ensures dropped == |old(store)| - |store|
    {
      WithoutFacts(store, drop);
      var kept: Store<K, V> := [];
      dropped := 0;
      for i := 0 to |store|
        invariant store == old(store)
        invariant kept + Without(store[i..], drop) == Without(store, drop)
        invariant dropped + |kept| == i
      {
        WithoutFrom(store, i, drop, kept);
        if drop(store[i].key) {
          dropped := dropped + 1;
        } else {
          kept := kept + [store[i]];
        }
      }
      assert kept == Without(store, drop);
      store := kept;
    }

    method Clear()
      modifies this`store
      ensures Valid()
      ensures store == After(old(store), Op.Clear, 0.0, maxEntries, ttlSeconds)
    {
      store := [];
    }
  }

  /** With distinct keys, dropping a key removes the one position that holds it. */
  lemma {:induction false} WithoutAt<K, V>(s: Store<K, V>, key: K, i: nat)
    requires DistinctKeys(s) && i <= |s|
    requires forall j :: 0 <= j < i ==> s[j].key != key
    requires i < |s| ==> s[i].key == key
    ensures Without(s, Only(key)) == if i < |s| then s[..i] + s[i + 1..] else s
  {
    if i == |s| {
      WithoutAbsent(s, key);
    } else if i == 0 {
      WithoutAbsent(s[1..], key);
    } else {
      WithoutAt(s[1..], key, i - 1);
      assert s[1..][..i - 1] == s[1..i] && s[1..][i..] == s[i + 1..];
    }
  }
}
