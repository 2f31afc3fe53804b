/** What any history of calls can and cannot do to the cache. */
module TtlCacheTheorems {
  import opened Prelude
  import opened TtlCacheSpec

  // ---------------------------------------------------------------------------
  // The operations on slot lists
  // ---------------------------------------------------------------------------

  lemma KeysCons<K, V>(s: Store<K, V>)
    requires s != []
    ensures Keys(s) == {s[0].key} + Keys(s[1..])
  {
    assert forall i :: 1 <= i < |s| ==> s[1..][i - 1] == s[i];
  }

  lemma KeysSnoc<K, V>(s: Store<K, V>, slot: Slot<K, V>)
    ensures Keys(s + [slot]) == Keys(s) + {slot.key}
  {
    assert forall i :: 0 <= i < |s| ==> (s + [slot])[i] == s[i];
    assert (s + [slot])[|s|] == slot;
  }

  lemma {:induction false} WithoutFacts<K, V>(s: Store<K, V>, drop: K -> bool)
    ensures Keys(Without(s, drop)) == set k | k in Keys(s) && !drop(k)
    ensures DistinctKeys(s) ==> DistinctKeys(Without(s, drop))
    ensures |Without(s, drop)| <= |s|
  {
    if s != [] {
      WithoutFacts(s[1..], drop);
      KeysCons(s);
      if !drop(s[0].key) {
        KeysCons(Without(s, drop));
        if DistinctKeys(s) {
          assert s[0].key !in Keys(s[1..]);
        }
      }
    }
  }

  /** One element further, whether it is kept or not. */
  lemma WithoutFrom<K, V>(s: Store<K, V>, i: nat, drop: K -> bool, kept: Store<K, V>)
    requires i < |s|
    ensures kept + Without(s[i..], drop) ==
              if drop(s[i].key) then kept + Without(s[i + 1..], drop) else (kept + [s[i]]) + Without(s[i + 1..], drop)
  {
    assert s[i..][1..] == s[i + 1..];
    if !drop(s[i].key) {
      assert kept + ([s[i]] + Without(s[i + 1..], drop)) == (kept + [s[i]]) + Without(s[i + 1..], drop);
    }
  }

  lemma {:induction false} WithoutMember<K, V>(s: Store<K, V>, drop: K -> bool, slot: Slot<K, V>)
    ensures slot in Without(s, drop) <==> slot in s && !drop(slot.key)
  {
    if s != [] {
      WithoutMember(s[1..], drop, slot);
    }
  }

  lemma {:induction false} WithoutAbsent<K, V>(s: Store<K, V>, k: K)
    requires k !in Keys(s)
    ensures Without(s, Only(k)) == s
  {
    if s != [] {
      KeysCons(s);
      WithoutAbsent(s[1..], k);
    }
  }

  lemma {:induction false} WithoutPresent<K, V>(s: Store<K, V>, k: K)
    requires DistinctKeys(s) && k in Keys(s)
    ensures |Without(s, Only(k))| == |s| - 1
  {
    KeysCons(s);
    if s[0].key == k {
      assert k !in Keys(s[1..]);
      WithoutAbsent(s[1..], k);
    } else {
      WithoutPresent(s[1..], k);
    }
  }

  lemma PromoteFacts<K, V>(s: Store<K, V>, slot: Slot<K, V>)
    requires DistinctKeys(s)
    ensures DistinctKeys(Promote(s, slot))
    ensures Keys(Promote(s, slot)) == Keys(s) + {slot.key}
    ensures |Promote(s, slot)| == if slot.key in Keys(s) then |s| else |s| + 1
  {
    WithoutFacts(s, Only(slot.key));
    KeysSnoc(Without(s, Only(slot.key)), slot);
    if slot.key in Keys(s) {
      WithoutPresent(s, slot.key);
    } else {
      WithoutAbsent(s, slot.key);
    }
  }

  /** Keys stay distinct and the bound is never exceeded, whatever the calls. */
  lemma {:induction false} RunBounded<K, V>(h: seq<Call<K, V>>, maxEntries: nat, ttl: real)
    ensures DistinctKeys(Run(h, maxEntries, ttl))
    ensures |Run(h, maxEntries, ttl)| <= maxEntries
  {
    if h != [] {
      var last := h[|h| - 1];
      var s := Run(h[..|h| - 1], maxEntries, ttl);
      RunBounded(h[..|h| - 1], maxEntries, ttl);
      match last.op
      case Get(k) =>
        WithoutFacts(s, Only(k));
        if Lookup(s, k).Some? {
          PromoteFacts(s, Lookup(s, k).value);
        }
      case Put(k, v) => PromoteFacts(s, Slot(k, v, last.now + ttl));
      case Invalidate(k) => WithoutFacts(s, Only(k));
      case InvalidateWhere(drop) => WithoutFacts(s, drop);
      case Clear =>
    }
  }

  // ---------------------------------------------------------------------------
  // LRU inclusion
  // ---------------------------------------------------------------------------

  /** `a` is what is left of `b` after striking out some slots. */
  ghost predicate Embeds<K, V>(a: Store<K, V>, b: Store<K, V>)
    decreases b
  {
    if b == [] then a == []
    else (a != [] && a[0] == b[0] && Embeds(a[1..], b[1..])) || Embeds(a, b[1..])
  }

  lemma {:induction false} EmbedsWithout<K, V>(a: Store<K, V>, b: Store<K, V>, drop: K -> bool)
    requires Embeds(a, b)
    ensures Embeds(Without(a, drop), Without(b, drop))
    ensures |Without(b, drop)| - |Without(a, drop)| <= |b| - |a|
    decreases b
  {
    if b != [] {
      if a != [] && a[0] == b[0] && Embeds(a[1..], b[1..]) {
        EmbedsWithout(a[1..], b[1..], drop);
      } else {
        EmbedsWithout(a, b[1..], drop);
      }
    }
  }

  lemma {:induction false} EmbedsSnoc<K, V>(a: Store<K, V>, b: Store<K, V>, slot: Slot<K, V>)
    requires Embeds(a, b)
    ensures Embeds(a + [slot], b + [slot]) && Embeds(a, b + [slot])
    decreases b
  {
    if b == [] {
      assert ([slot])[1..] == [] && a + [slot] == [slot];
    } else {
      assert (b + [slot])[1..] == b[1..] + [slot];
      if a != [] && a[0] == b[0] && Embeds(a[1..], b[1..]) {
        assert (a + [slot])[1..] == a[1..] + [slot];
        EmbedsSnoc(a[1..], b[1..], slot);
      } else {
        EmbedsSnoc(a, b[1..], slot);
      }
    }
  }

  lemma {:induction false} EmbedsTail<K, V>(a: Store<K, V>, b: Store<K, V>)
    requires Embeds(a, b) && a != []
    ensures b != [] && Embeds(a[1..], b[1..]) && Embeds(a[1..], b)
    decreases b
  {
    if !(a[0] == b[0] && Embeds(a[1..], b[1..])) {
      EmbedsTail(a, b[1..]);
    }
  }

  /** Striking out more at the front of the smaller list than of the larger one. */
  lemma {:induction false} EmbedsDrop<K, V>(a: Store<K, V>, b: Store<K, V>, m: nat, n: nat)
    requires Embeds(a, b) && n <= m <= |a| && n <= |b|
    ensures Embeds(a[m..], b[n..])
  {
    if m != 0 {
      EmbedsTail(a, b);
      if n == 0 {
        EmbedsDrop(a[1..], b, m - 1, 0);
        assert a[1..][m - 1..] == a[m..];
      } else {
        EmbedsDrop(a[1..], b[1..], m - 1, n - 1);
        assert a[1..][m - 1..] == a[m..] && b[1..][n - 1..] == b[n..];
      }
    } else {
      assert a[0..] == a && b[0..] == b;
    }
  }

  /** Two slots of the smaller list occur in the larger one in the same order. */
  lemma {:induction false} EmbedsPositions<K, V>(a: Store<K, V>, b: Store<K, V>, i: nat, j: nat)
      returns (p: nat, q: nat)
    requires Embeds(a, b) && i < |a| && j < |a|
    ensures p < |b| && q < |b| && b[p] == a[i] && b[q] == a[j]
    ensures i < j ==> p < q
    ensures j < i ==> q < p
    ensures i == j ==> p == q
    decreases b
  {
    if a[0] == b[0] && Embeds(a[1..], b[1..]) {
      if i == 0 && j == 0 {
        p, q := 0, 0;
      } else if i == 0 {
        p, q := EmbedsPositions(a[1..], b[1..], j - 1, j - 1);
        p, q := 0, q + 1;
      } else if j == 0 {
        p, q := EmbedsPositions(a[1..], b[1..], i - 1, i - 1);
        p, q := p + 1, 0;
      } else {
        p, q := EmbedsPositions(a[1..], b[1..], i - 1, j - 1);
        p, q := p + 1, q + 1;
      }
    } else {
      p, q := EmbedsPositions(a, b[1..], i, j);
      p, q := p + 1, q + 1;
    }
  }

  lemma EmbedsLookup<K, V>(a: Store<K, V>, b: Store<K, V>, k: K)
    requires Embeds(a, b) && DistinctKeys(b) && k in Keys(a)
    ensures Lookup(b, k) == Lookup(a, k)
  {
    var slot := Lookup(a, k).value;
    var i :| 0 <= i < |a| && a[i] == slot;
    var p, _ := EmbedsPositions(a, b, i, i);
    assert b[p].key == k;
    var other := Lookup(b, k).value;
    var q :| 0 <= q < |b| && b[q] == other;
    assert p == q;
  }

  /** The invariant of inclusion: `a` of capacity `small` against `b` of capacity `large`. */
  ghost predicate Included<K, V>(a: Store<K, V>, b: Store<K, V>, small: nat, large: nat) {
    Embeds(a, b) && |b| - |a| <= large - small
  }

  lemma InclusionGet<K, V>(a: Store<K, V>, b: Store<K, V>, k: K, now: real, small: nat, large: nat, ttl: real)
    requires DistinctKeys(b) && Included(a, b, small, large)
    ensures Included(After(a, Get(k), now, small, ttl), After(b, Get(k), now, large, ttl), small, large)
  {
    EmbedsWithout(a, b, Only(k));
    if k in Keys(a) {
      EmbedsLookup(a, b, k);
      EmbedsSnoc(Without(a, Only(k)), Without(b, Only(k)), Lookup(a, k).value);
    } else {
      WithoutAbsent(a, k);
      if k in Keys(b) {
        WithoutPresent(b, k);
        EmbedsSnoc(a, Without(b, Only(k)), Lookup(b, k).value);
      }
    }
  }

  lemma InclusionEvict<K, V>(a: Store<K, V>, b: Store<K, V>, small: nat, large: nat)
    requires small <= large && Included(a, b, small, large)
    ensures Included(Evict(a, small), Evict(b, large), small, large)
  {
    var m := if |a| > small then |a| - small else 0;
    var n := if |b| > large then |b| - large else 0;
    EmbedsDrop(a, b, m, n);
    assert Evict(a, small) == a[m..] && Evict(b, large) == b[n..];
  }

  lemma InclusionPut<K, V>(a: Store<K, V>, b: Store<K, V>, slot: Slot<K, V>, small: nat, large: nat)
    requires small <= large && Included(a, b, small, large)
    ensures Included(Evict(Promote(a, slot), small), Evict(Promote(b, slot), large), small, large)
  {
    EmbedsWithout(a, b, Only(slot.key));
    EmbedsSnoc(Without(a, Only(slot.key)), Without(b, Only(slot.key)), slot);
    InclusionEvict(Promote(a, slot), Promote(b, slot), small, large);
  }

  /** One call keeps the small cache inside the large one. */
  lemma InclusionStep<K, V>(a: Store<K, V>, b: Store<K, V>, call: Call<K, V>, small: nat, large: nat, ttl: real)
    requires small <= large && DistinctKeys(b) && Included(a, b, small, large)
    ensures Included(After(a, call.op, call.now, small, ttl), After(b, call.op, call.now, large, ttl), small, large)
  {
    match call.op
    case Get(k) => InclusionGet(a, b, k, call.now, small, large, ttl);
    case Put(k, v) => InclusionPut(a, b, Slot(k, v, call.now + ttl), small, large);
    case Invalidate(k) => EmbedsWithout(a, b, Only(k));
    case InvalidateWhere(drop) => EmbedsWithout(a, b, drop);
    case Clear =>
  }

  /** `k` is used less recently than `l`. */
  ghost predicate Before<K, V>(s: Store<K, V>, k: K, l: K) {
    exists i, j :: 0 <= i < j < |s| && s[i].key == k && s[j].key == l
  }

  lemma {:induction false} InclusionKept<K, V>(h: seq<Call<K, V>>, small: nat, large: nat, ttl: real)
    requires small <= large
    ensures Included(Run(h, small, ttl), Run(h, large, ttl), small, large)
  {
    if h != [] {
      var before := h[..|h| - 1];
      InclusionKept(before, small, large, ttl);
      RunBounded(before, large, ttl);
      InclusionStep(Run(before, small, ttl), Run(before, large, ttl), h[|h| - 1], small, large, ttl);
    }
  }

  /** LRU inclusion with expiry.  Fed the same calls at the same instants, the larger cache has
      every slot of the smaller with equal value and expiry, in the same order of use, at most
      `large - small` further ones, and repeats each of its hits. */
  lemma {:induction false} LruInclusion<K, V>(h: seq<Call<K, V>>, small: nat, large: nat, ttl: real)
    requires small <= large
    ensures var a, b := Run(h, small, ttl), Run(h, large, ttl);
      && (forall slot :: slot in a ==> slot in b)
      && (forall k, l :: k in Keys(a) && l in Keys(a) ==> (Before(a, k, l) <==> Before(b, k, l)))
      && |Keys(b) - Keys(a)| <= large - small
      && (forall k, now :: Answer(a, k, now).Some? ==> Answer(b, k, now) == Answer(a, k, now))
  {
    InclusionKept(h, small, large, ttl);
    RunBounded(h, small, ttl);
    RunBounded(h, large, ttl);
    InclusionMeans(Run(h, small, ttl), Run(h, large, ttl), small, large);
  }

  lemma InclusionMeans<K, V>(a: Store<K, V>, b: Store<K, V>, small: nat, large: nat)
    requires Included(a, b, small, large) && DistinctKeys(a) && DistinctKeys(b)
    ensures forall slot :: slot in a ==> slot in b
    ensures forall k, l :: k in Keys(a) && l in Keys(a) ==> (Before(a, k, l) <==> Before(b, k, l))
    ensures |Keys(b) - Keys(a)| <= large - small
    ensures forall k, now :: Answer(a, k, now).Some? ==> Answer(b, k, now) == Answer(a, k, now)
  {
    forall slot | slot in a ensures slot in b {
      var i :| 0 <= i < |a| && a[i] == slot;
      var p, q := EmbedsPositions(a, b, i, i);
    }
    forall k, l | k in Keys(a) && l in Keys(a) ensures Before(a, k, l) <==> Before(b, k, l) {
      SameOrder(a, b, k, l);
    }
    ExtraKeys(a, b);
    forall k, now | Answer(a, k, now).Some? ensures Answer(b, k, now) == Answer(a, k, now) {
      EmbedsLookup(a, b, k);
    }
  }

  lemma {:induction false} ExtraKeys<K, V>(a: Store<K, V>, b: Store<K, V>)
    requires Embeds(a, b) && DistinctKeys(a) && DistinctKeys(b)
    ensures |Keys(b) - Keys(a)| == |b| - |a|
  {
    forall k | k in Keys(a) ensures k in Keys(b) {
      EmbedsLookup(a, b, k);
    }
    KeyCount(a);
    KeyCount(b);
    assert Keys(b) == Keys(a) + (Keys(b) - Keys(a));
  }

  lemma SameOrder<K, V>(a: Store<K, V>, b: Store<K, V>, k: K, l: K)
    requires Embeds(a, b) && DistinctKeys(a) && DistinctKeys(b) && k in Keys(a) && l in Keys(a)
    ensures Before(a, k, l) <==> Before(b, k, l)
  {
    var i :| 0 <= i < |a| && a[i].key == k;
    var j :| 0 <= j < |a| && a[j].key == l;
    var p, q := EmbedsPositions(a, b, i, j);
    assert b[p].key == k && b[q].key == l;
    assert Before(a, k, l) <==> i < j;
    assert Before(b, k, l) <==> p < q;
  }

  lemma {:induction false} KeyCount<K, V>(s: Store<K, V>)
    requires DistinctKeys(s)
    ensures |Keys(s)| == |s|
  {
    if s == [] {
      assert Keys(s) == {};
    } else {
      KeysCons(s);
      assert s[0].key !in Keys(s[1..]);
      KeyCount(s[1..]);
    }
  }

  // ---------------------------------------------------------------------------
  // The cache only forgets, never lies
  // ---------------------------------------------------------------------------

  /** The most recent put of `k` that has not been invalidated since, with its instant. */
  function LatestPut<K(==), V>(h: seq<Call<K, V>>, k: K): Option<(V, real)> {
    if h == [] then None
    else
      var before, last := h[..|h| - 1], h[|h| - 1];
      match last.op
      case Get(_) => LatestPut(before, k)
      case Put(k', v) => if k' == k then Some((v, last.now)) else LatestPut(before, k)
      case Invalidate(k') => if k' == k then None else LatestPut(before, k)
      case InvalidateWhere(drop) => if drop(k) then None else LatestPut(before, k)
      case Clear => None
  }

  lemma GetAddsNothing<K, V>(s: Store<K, V>, k: K, now: real, maxEntries: nat, ttl: real)
    ensures forall slot :: slot in After(s, Get(k), now, maxEntries, ttl) ==> slot in s
  {
    match Lookup(s, k)
    case None =>
    case Some(hit) =>
      var t := After(s, Get(k), now, maxEntries, ttl);
      assert t == Without(s, Only(k)) || t == Without(s, Only(k)) + [hit];
      forall slot | slot in t ensures slot in s {
        WithoutMember(s, Only(k), slot);
        assert slot in Without(s, Only(k)) || slot == hit;
      }
  }

  lemma PutAddsOne<K, V>(s: Store<K, V>, k: K, v: V, now: real, maxEntries: nat, ttl: real)
    ensures forall slot :: slot in After(s, Put(k, v), now, maxEntries, ttl) ==>
              slot == Slot(k, v, now + ttl) || (slot in s && slot.key != k)
  {
    var p := Promote(s, Slot(k, v, now + ttl));
    forall slot | slot in Evict(p, maxEntries)
      ensures slot == Slot(k, v, now + ttl) || (slot in s && slot.key != k)
    {
      assert slot in p;
      WithoutMember(s, Only(k), slot);
      assert slot in Without(s, Only(k)) || slot == Slot(k, v, now + ttl);
    }
  }

  /** Every slot is the latest put of its key. */
  lemma {:induction false} SlotsAreLatest<K, V>(h: seq<Call<K, V>>, maxEntries: nat, ttl: real)
    ensures forall slot :: slot in Run(h, maxEntries, ttl) ==>
              var put := LatestPut(h, slot.key);
              put.Some? && slot.value == put.value.0 && slot.expiresAt == put.value.1 + ttl
  {
    if h != [] {
      var before, last := h[..|h| - 1], h[|h| - 1];
      var s, t := Run(before, maxEntries, ttl), Run(h, maxEntries, ttl);
      SlotsAreLatest(before, maxEntries, ttl);
      forall slot | slot in t
        ensures var put := LatestPut(h, slot.key);
          put.Some? && slot.value == put.value.0 && slot.expiresAt == put.value.1 + ttl
      {
        match last.op
        case Get(k) => GetAddsNothing(s, k, last.now, maxEntries, ttl);
        case Put(k, v) => PutAddsOne(s, k, v, last.now, maxEntries, ttl);
        case Invalidate(k) => WithoutMember(s, Only(k), slot);
        case InvalidateWhere(drop) => WithoutMember(s, drop, slot);
        case Clear =>
      }
    }
  }

  /** A hit is the latest put of that key, less than `ttl` old and not invalidated since. */
  lemma CacheNeverLies<K, V>(h: seq<Call<K, V>>, maxEntries: nat, ttl: real, k: K, now: real)
    requires Answer(Run(h, maxEntries, ttl), k, now).Some?
    ensures var put := LatestPut(h, k);
      && put.Some?
      && Answer(Run(h, maxEntries, ttl), k, now) == Some(put.value.0)
      && now < put.value.1 + ttl
  {
    SlotsAreLatest(h, maxEntries, ttl);
  }

  /** The key a call put, or hit. */
  function Touched<K(==), V>(s: Store<K, V>, call: Call<K, V>): Option<K> {
    match call.op
    case Get(k) => if Answer(s, k, call.now).Some? then Some(k) else None
    case Put(k, _) => Some(k)
    case _ => None
  }

  function SinceAfter<K(==), V>(s: Store<K, V>, call: Call<K, V>, k: K, since: set<K>): set<K> {
    match Touched(s, call)
    case None => since
    case Some(l) => if l == k then {} else since + {l}
  }

  /** The other keys put or hit since `k` was last put or hit. */
  function TouchedSince<K(==), V>(h: seq<Call<K, V>>, maxEntries: nat, ttl: real, k: K): set<K> {
    if h == [] then {}
    else
      var before := h[..|h| - 1];
      SinceAfter(Run(before, maxEntries, ttl), h[|h| - 1], k, TouchedSince(before, maxEntries, ttl, k))
  }

  /** The keys used more recently than `k`. */
  function KeysAfter<K(==), V>(s: Store<K, V>, k: K): set<K> {
    if s == [] then {}
    else if s[0].key == k then Keys(s[1..])
    else KeysAfter(s[1..], k)
  }

  lemma {:induction false} KeysAfterWithout<K, V>(s: Store<K, V>, drop: K -> bool, k: K)
    requires !drop(k)
    ensures KeysAfter(Without(s, drop), k) <= KeysAfter(s, k)
  {
    if s != [] {
      KeysAfterWithout(s[1..], drop, k);
      WithoutFacts(s[1..], drop);
      if !drop(s[0].key) {
        assert Without(s, drop)[1..] == Without(s[1..], drop);
      }
    }
  }

  lemma {:induction false} KeysAfterSnoc<K, V>(s: Store<K, V>, slot: Slot<K, V>, k: K)
    ensures k in Keys(s) ==> KeysAfter(s + [slot], k) == KeysAfter(s, k) + {slot.key}
    ensures k !in Keys(s) ==> KeysAfter(s + [slot], k) == {}
  {
    if s == [] {
      assert (s + [slot])[1..] == [];
    } else {
      KeysCons(s);
      assert (s + [slot])[1..] == s[1..] + [slot];
      KeysSnoc(s[1..], slot);
      KeysAfterSnoc(s[1..], slot, k);
    }
  }

  /** Promotion moves one key behind all others and leaves the rest in order. */
  lemma KeysAfterPromote<K, V>(s: Store<K, V>, slot: Slot<K, V>, k: K)
    requires DistinctKeys(s) && (k in Keys(s) || slot.key == k)
    ensures k in Keys(Promote(s, slot))
    ensures KeysAfter(Promote(s, slot), k) <= if slot.key == k then {} else KeysAfter(s, k) + {slot.key}
  {
    PromoteFacts(s, slot);
    WithoutFacts(s, Only(slot.key));
    KeysAfterSnoc(Without(s, Only(slot.key)), slot, k);
    if slot.key != k {
      KeysAfterWithout(s, Only(slot.key), k);
    }
  }

  /** Taking slots off the front: either `k` is still there, or all that is left was used after it. */
  lemma {:induction false} KeysAfterDrop<K, V>(s: Store<K, V>, n: nat, k: K)
    requires DistinctKeys(s) && n <= |s| && k in Keys(s)
    ensures if k in Keys(s[n..]) then KeysAfter(s[n..], k) == KeysAfter(s, k)
            else Keys(s[n..]) <= KeysAfter(s, k)
  {
    if n == 0 {
      assert s[0..] == s;
    } else {
      KeysCons(s);
      assert s[n..] == s[1..][n - 1..];
      if s[0].key == k {
        assert forall x :: x in s[n..] ==> x in s[1..];
        assert k !in Keys(s[1..]);
      } else {
        KeysAfterDrop(s[1..], n - 1, k);
      }
    }
  }

  /** A live key is either cached, with only keys touched since behind it, or was pushed out by
      at least `maxEntries` others. */
  ghost predicate CachedOrDisplaced<K, V>(s: Store<K, V>, since: set<K>, maxEntries: nat, k: K) {
    (k in Keys(s) && KeysAfter(s, k) <= since) || |since| >= maxEntries
  }

  /** A call that does not take `k` away on purpose: not an invalidation of it, nor the `get` that
      finds it expired. */
  ghost predicate Spares<K, V>(s: Store<K, V>, call: Call<K, V>, k: K) {
    match call.op
    case Get(l) => l == k && k in Keys(s) ==> Answer(s, k, call.now).Some?
    case Put(_, _) => true
    case Invalidate(l) => l != k
    case InvalidateWhere(drop) => !drop(k)
    case Clear => false
  }

  /** Some `get` of `k` since its latest put read the clock at its expiry or later.  Threads read the
      clock before they take the lock, so an earlier call can have the later reading. */
  predicate SeenExpired<K(==), V>(h: seq<Call<K, V>>, ttl: real, k: K) {
    h != [] &&
    var before, last := h[..|h| - 1], h[|h| - 1];
    match last.op
    case Put(l, _) => l != k && SeenExpired(before, ttl, k)
    case Get(l) =>
      SeenExpired(before, ttl, k)
      || (l == k && LatestPut(before, k).Some? && last.now >= LatestPut(before, k).value.1 + ttl)
    case _ => SeenExpired(before, ttl, k)
  }

  lemma {:induction false} LiveKeyAccounted<K, V>(h: seq<Call<K, V>>, maxEntries: nat, ttl: real, k: K)
    requires LatestPut(h, k).Some? && !SeenExpired(h, ttl, k)
    ensures CachedOrDisplaced(Run(h, maxEntries, ttl), TouchedSince(h, maxEntries, ttl, k), maxEntries, k)
  {
    var before, last := h[..|h| - 1], h[|h| - 1];
    var s, since := Run(before, maxEntries, ttl), TouchedSince(before, maxEntries, ttl, k);
    RunBounded(before, maxEntries, ttl);
    if !(last.op.Put? && last.op.key == k) {
      LiveKeyAccounted(before, maxEntries, ttl, k);
      SlotsAreLatest(before, maxEntries, ttl);
      assert Lookup(s, k).Some? ==> Lookup(s, k).value in s;
    }
    CallKeepsAccount(s, since, last, maxEntries, ttl, k);
  }

  lemma CallKeepsAccount<K, V>(s: Store<K, V>, since: set<K>, call: Call<K, V>, maxEntries: nat, ttl: real, k: K)
    requires DistinctKeys(s) && Spares(s, call, k)
    requires (call.op.Put? && call.op.key == k) || CachedOrDisplaced(s, since, maxEntries, k)
    ensures CachedOrDisplaced(After(s, call.op, call.now, maxEntries, ttl), SinceAfter(s, call, k, since), maxEntries, k)
  {
    match call.op
    case Put(l, v) =>
      if l == k || (k in Keys(s) && KeysAfter(s, k) <= since) {
        PutKeepsAccount(s, Slot(l, v, call.now + ttl), maxEntries, k, since);
      } else {
        GrowsBy(since, l);
      }
    case Get(l) =>
      if k in Keys(s) && (l == k || KeysAfter(s, k) <= since) {
        KeysAfterGet(s, l, call.now, maxEntries, ttl, k);
      } else {
        GrowsBy(since, l);
      }
    case Invalidate(l) =>
      KeysAfterWithout(s, Only(l), k);
      WithoutFacts(s, Only(l));
    case InvalidateWhere(drop) =>
      KeysAfterWithout(s, drop, k);
      WithoutFacts(s, drop);
  }

  /** A `put` of `l` keeps `k` accounted for, with `l` joining what was touched since. */
  lemma PutKeepsAccount<K, V>(s: Store<K, V>, slot: Slot<K, V>, maxEntries: nat, k: K, since: set<K>)
    requires DistinctKeys(s)
    requires slot.key == k || (k in Keys(s) && KeysAfter(s, k) <= since)
    ensures var since' := if slot.key == k then {} else since + {slot.key};
      CachedOrDisplaced(Evict(Promote(s, slot), maxEntries), since', maxEntries, k)
  {
    PromoteFacts(s, slot);
    KeysAfterPromote(s, slot, k);
    EvictAccounted(Promote(s, slot), maxEntries, k, if slot.key == k then {} else since + {slot.key});
  }

  /** Eviction takes `k` only once at least `maxEntries` keys are behind it. */
  lemma EvictAccounted<K, V>(p: Store<K, V>, maxEntries: nat, k: K, since: set<K>)
    requires DistinctKeys(p) && k in Keys(p) && KeysAfter(p, k) <= since
    ensures CachedOrDisplaced(Evict(p, maxEntries), since, maxEntries, k)
  {
    if |p| > maxEntries {
      var n := |p| - maxEntries;
      KeysAfterDrop(p, n, k);
      KeyCount(p[n..]);
      if k !in Keys(p[n..]) {
        SubsetCount(Keys(p[n..]), since);
      }
    }
  }

  /** A `get` moves `l` behind everything and leaves the rest in order; only an expired `l` goes. */
  lemma KeysAfterGet<K, V>(s: Store<K, V>, l: K, now: real, maxEntries: nat, ttl: real, k: K)
    requires DistinctKeys(s) && k in Keys(s)
    requires l == k ==> Answer(s, l, now).Some?
    ensures var t := After(s, Get(l), now, maxEntries, ttl);
      && k in Keys(t)
      && KeysAfter(t, k) <= if l == k then {} else if Answer(s, l, now).Some? then KeysAfter(s, k) + {l} else KeysAfter(s, k)
  {
    if Answer(s, l, now).Some? {
      KeysAfterPromote(s, Lookup(s, l).value, k);
    } else if l in Keys(s) {
      WithoutFacts(s, Only(l));
      KeysAfterWithout(s, Only(l), k);
    }
  }

  lemma GrowsBy<K>(s: set<K>, l: K)
    ensures |s + {l}| >= |s|
  {
    SubsetCount(s, s + {l});
  }

  lemma SubsetCount<K>(s: set<K>, t: set<K>)
    requires s <= t
    ensures |s| <= |t|
  {
    assert t == s + (t - s);
  }

  /** A key that was put, not invalidated since, and is missing at `now`: it is expired at `now`, or
      an earlier `get` already found it expired, or it was displaced, at least `maxEntries` distinct
      other keys having been put or hit since it was last put or hit. */
  lemma MissingMeansDisplaced<K, V>(h: seq<Call<K, V>>, maxEntries: nat, ttl: real, k: K, now: real)
    requires LatestPut(h, k).Some? && Answer(Run(h, maxEntries, ttl), k, now) == None
    ensures now >= LatestPut(h, k).value.1 + ttl
            || SeenExpired(h, ttl, k)
            || (k !in TouchedSince(h, maxEntries, ttl, k) && |TouchedSince(h, maxEntries, ttl, k)| >= maxEntries)
  {
    if !SeenExpired(h, ttl, k) {
      LiveKeyAccounted(h, maxEntries, ttl, k);
      SlotsAreLatest(h, maxEntries, ttl);
      SinceExcludesSelf(h, maxEntries, ttl, k);
    }
  }

  /** When no call read the clock later than `now`, the second cause implies the first: an unexpired
      key is missing only by displacement. */
  lemma {:induction false} SeenExpiredMeansExpired<K, V>(h: seq<Call<K, V>>, ttl: real, k: K, now: real)
    requires forall i :: 0 <= i < |h| ==> h[i].now <= now
    requires SeenExpired(h, ttl, k) && LatestPut(h, k).Some?
    ensures now >= LatestPut(h, k).value.1 + ttl
  {
    var before, last := h[..|h| - 1], h[|h| - 1];
    if SeenExpired(before, ttl, k) {
      SeenExpiredMeansExpired(before, ttl, k, now);
    }
  }

  /** And a key found expired stays missing until it is put again. */
  lemma {:induction false} SeenExpiredMeansMissing<K, V>(h: seq<Call<K, V>>, maxEntries: nat, ttl: real, k: K)
    requires SeenExpired(h, ttl, k)
    ensures k !in Keys(Run(h, maxEntries, ttl))
  {
    var before, last := h[..|h| - 1], h[|h| - 1];
    var s, t := Run(before, maxEntries, ttl), Run(h, maxEntries, ttl);
    RunBounded(before, maxEntries, ttl);
    if SeenExpired(before, ttl, k) {
      SeenExpiredMeansMissing(before, maxEntries, ttl, k);
      match last.op
      case Get(l) =>
        WithoutFacts(s, Only(l));
        if Lookup(s, l).Some? {
          PromoteFacts(s, Lookup(s, l).value);
        }
      case Put(l, v) =>
        PromoteFacts(s, Slot(l, v, last.now + ttl));
        assert forall slot :: slot in t ==> slot in Promote(s, Slot(l, v, last.now + ttl));
      case Invalidate(l) => WithoutFacts(s, Only(l));
      case InvalidateWhere(drop) => WithoutFacts(s, drop);
      case Clear =>
    } else {
      SlotsAreLatest(before, maxEntries, ttl);
      WithoutFacts(s, Only(k));
    }
  }

  lemma {:induction false} SinceExcludesSelf<K, V>(h: seq<Call<K, V>>, maxEntries: nat, ttl: real, k: K)
    ensures k !in TouchedSince(h, maxEntries, ttl, k)
  {
    if h != [] {
      SinceExcludesSelf(h[..|h| - 1], maxEntries, ttl, k);
    }
  }
}
