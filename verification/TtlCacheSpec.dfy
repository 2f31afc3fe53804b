/** The bounded LRU cache with expiry of abridgeai/core/ttl_cache.py, on values. */
module TtlCacheSpec {
  import opened Prelude

  /** One item of the OrderedDict: a key and its `_Entry`. */
  datatype Slot<K, V> = Slot(key: K, value: V, expiresAt: real)

  /** The OrderedDict, least recently used first. */
  type Store<K, V> = seq<Slot<K, V>>

  function Keys<K, V>(s: Store<K, V>): set<K> {
    set i | 0 <= i < |s| :: s[i].key
  }

  ghost predicate DistinctKeys<K, V>(s: Store<K, V>) {
    forall i, j :: 0 <= i < j < |s| ==> s[i].key != s[j].key
  }

  function Lookup<K(==), V>(s: Store<K, V>, k: K): (r: Option<Slot<K, V>>)
    ensures r.Some? <==> k in Keys(s)
    ensures r.Some? ==> r.value in s && r.value.key == k
  {
    if s == [] then None
    else
      assert Keys(s) == {s[0].key} + Keys(s[1..]) by {
        assert forall i :: 1 <= i < |s| ==> s[1..][i - 1] == s[i];
      }
      if s[0].key == k then Some(s[0]) else Lookup(s[1..], k)
  }

  /** The slots whose key fails `drop`, in order. */
  function Without<K, V>(s: Store<K, V>, drop: K -> bool): Store<K, V> {
    if s == [] then []
    else if drop(s[0].key) then Without(s[1..], drop)
    else [s[0]] + Without(s[1..], drop)
  }

  function Only<K(==)>(k: K): K -> bool {
    x => x == k
  }

  /** `move_to_end`, or insertion at the end: the slot becomes the most recently used. */
  function Promote<K(==), V>(s: Store<K, V>, slot: Slot<K, V>): Store<K, V> {
    Without(s, Only(slot.key)) + [slot]
  }

  /** `popitem(last=False)` while there is more than the bound. */
  function Evict<K, V>(s: Store<K, V>, maxEntries: nat): Store<K, V> {
    if |s| > maxEntries then s[|s| - maxEntries..] else s
  }

  datatype Op<!K, V> =
    | Get(key: K)
    | Put(key: K, value: V)
    | Invalidate(key: K)
    | InvalidateWhere(drop: K -> bool)
    | Clear

  /** What `get` answers. */
  function Answer<K(==), V>(s: Store<K, V>, k: K, now: real): Option<V> {
    match Lookup(s, k)
    case None => None
    case Some(slot) => if slot.expiresAt <= now then None else Some(slot.value)
  }

  /** What an operation leaves behind. */
  function After<K(==), V>(s: Store<K, V>, op: Op<K, V>, now: real, maxEntries: nat, ttl: real): Store<K, V> {
    match op
    case Get(k) =>
      (match Lookup(s, k)
       case None => s
       case Some(slot) => if slot.expiresAt <= now then Without(s, Only(k)) else Promote(s, slot))
    case Put(k, v) => Evict(Promote(s, Slot(k, v, now + ttl)), maxEntries)
    case Invalidate(k) => Without(s, Only(k))
    case InvalidateWhere(drop) => Without(s, drop)
    case Clear => []
  }

  /** One call and the reading of the monotonic clock it made. */
  datatype Call<!K, V> = Call(op: Op<K, V>, now: real)

  /** The store after a history of calls on an empty cache. */
  function Run<K(==), V>(h: seq<Call<K, V>>, maxEntries: nat, ttl: real): Store<K, V> {
    if h == [] then []
    else
      var last := h[|h| - 1];
      After(Run(h[..|h| - 1], maxEntries, ttl), last.op, last.now, maxEntries, ttl)
  }
}
