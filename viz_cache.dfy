/**
 * `MemoryTTLCache`, the keyed store with expiry, victim eviction and memoised
 * compute, and `CacheClient`, its on/off facade. The run is sequential: the
 * per-key compute locks are only the set of keys that have one.
 */
module VizCache {
  import opened Wrappers
  import opened Text
  import opened CachePolicy

  /** The `reason` passed to `_evict`; only `"expiration"` is told apart. */
  datatype EvictReason = Expiration | Capacity | Manual

  /** What calling `compute_fn` did: returned a value after some milliseconds, or raised. */
  datatype Computed<V> = Returned(value: Option<V>, elapsedMs: real) | Raised(error: string)

  /** The dictionary `get_entry_info` returns. */
  datatype EntryInfo = EntryInfo(
    key: string,
    createdAt: int,
    expiresAt: int,
    ageSeconds: int,
    ttlRemaining: int,
    accessCount: nat,
    lastAccessed: int,
    metadata: Metadata)

  class MemoryTTLCache<V> {
    const capacity: int
    const defaultTtl: int
    const jitterRatio: real
    const maxValueBytes: Option<int>
    const policy: Policy<V>
    const maintainLru: bool
    /** The UTF-8 length of `json.dumps(value, default=str)`, or None when that raises. */
    const estimateSize: Option<V> -> Option<nat>

    /** `_data`: the entries ... */
    var data: map<string, Entry<V>>
    /** ... and the order in which the dictionary iterates them (insertion order). */
    var keys: seq<string>
    /** `_order`: the recency list, least recent first; kept only when `maintainLru`. */
    var order: seq<string>
    var stats: Stats
    /** The keys of `_key_locks`. */
    var keyLocks: set<string>

    /**
     * `keys` lists the entries once each; the recency list lists them too when it is
     * kept and is empty otherwise; every entry is stored under its own key.
     */
    ghost predicate Valid()
      reads this
    {
      WellFormed(data, keys, order, maintainLru)
    }

    constructor (capacity: int, defaultTtl: int, jitterRatio: real, maxValueBytes: Option<int>,
                 evictionPolicy: Option<Policy<V>>, maintainLru: Option<bool>,
                 estimateSize: Option<V> -> Option<nat>)
      ensures Valid()
      ensures this.capacity == capacity && this.defaultTtl == defaultTtl
      ensures this.jitterRatio == jitterRatio && this.maxValueBytes == maxValueBytes
      ensures this.policy == if evictionPolicy.Some? then evictionPolicy.value else LRU
      ensures this.maintainLru == if maintainLru.Some? then maintainLru.value else this.policy.LRU?
      ensures this.estimateSize == estimateSize
      ensures data == map[] && keys == [] && order == [] && keyLocks == {} && stats == ZeroStats
    {
      this.capacity := capacity;
      this.defaultTtl := defaultTtl;
      this.jitterRatio := jitterRatio;
      this.maxValueBytes := maxValueBytes;
      var p := if evictionPolicy.Some? then evictionPolicy.value else LRU;
      this.policy := p;
      this.maintainLru := if maintainLru.Some? then maintainLru.value else p.LRU?;
      this.estimateSize := estimateSize;
      data := map[];
      keys := [];
      order := [];
      stats := ZeroStats;
      keyLocks := {};
    }

    /** `_apply_ttl_jitter`: the random offset is any whole number within `delta`. */
    method ApplyTtlJitter(ttl: int) returns (r: int)
      ensures JitteredTtl(ttl, jitterRatio, r)
    {
      if jitterRatio <= 0.0 {
        return ttl;
      }
      var delta := JitterDelta(ttl, jitterRatio);
      if delta <= 0 {
        return ttl;
      }
      var offset :| -delta <= offset <= delta;
      r := ttl + offset;
    }

    /** `_value_size_ok`. */
    predicate SizeOk(value: Option<V>) {
      ValueSizeOk(maxValueBytes, estimateSize(value))
    }

    /** `peek`: the live value, with no effect on order, counters or entries. */
    function Peek(key: string, now: int): Option<V>
      reads this
    {
      if key !in data || Expired(data[key], now) then None else data[key].value
    }

    /** Once a key's value is no longer visible, it stays invisible later on while nothing writes it. */
    lemma PeekExpiresForGood(key: string, t1: int, t2: int)
      requires t1 <= t2
      ensures Peek(key, t1).None? ==> Peek(key, t2).None?
      ensures Peek(key, t2).Some? ==> Peek(key, t1) == Peek(key, t2)
    {
    }

    /** `_touch`: one more access for the entry, and the key moves to the end of the recency list. */
    method Touch(key: string, now: int)
      modifies this
      ensures data == if key in old(data) then old(data)[key := Touched(old(data)[key], now)] else old(data)
      ensures order == if maintainLru then MoveToEnd(old(order), key) else old(order)
      ensures keys == old(keys) && stats == old(stats) && keyLocks == old(keyLocks)
    {
      if key in data {
        data := data[key := Touched(data[key], now)];
      }
      if maintainLru {
        order := RemoveFirst(order, key);
        order := order + [key];
      }
    }

    /** `_cleanup_key_locks`: drops the lock of every key that has no entry. */
    method CleanupKeyLocks()
      modifies this
      ensures keyLocks == old(keyLocks) * data.Keys
      ensures data == old(data) && keys == old(keys) && order == old(order) && stats == old(stats)
    {
      var stale := set k | k in keyLocks && k !in data;
      ghost var all := stale;
      while stale != {}
        invariant stale <= all
        invariant keyLocks == old(keyLocks) - (all - stale)
        invariant data == old(data) && keys == old(keys) && order == old(order) && stats == old(stats)
        decreases stale
      {
        var k :| k in stale;
        keyLocks := keyLocks - {k};
        stale := stale - {k};
      }
    }

    /**
     * `_evict`: removes the entry, its place in the dictionary order and in the recency
     * list, counts an expiration or else an eviction, and drops stale key locks.
     */
    method Evict(key: string, reason: EvictReason)
      requires Valid()
      modifies this
      ensures Valid()
      ensures data == old(data) - {key}
      ensures keys == RemoveFirst(old(keys), key) && keys == Without(old(keys), {key})
      ensures order == if maintainLru then RemoveFirst(old(order), key) else old(order)
      ensures maintainLru ==> order == Without(old(order), {key})
      ensures stats == if reason == Expiration then old(stats).(expirations := old(stats).expirations + 1)
                       else old(stats).(evictions := old(stats).evictions + 1)
      ensures keyLocks == old(keyLocks) * data.Keys
    {
      RemoveFirstIsWithout(keys, key);
      WithoutListing(keys, data.Keys, {key});
      data := data - {key};
      keys := RemoveFirst(keys, key);
      if maintainLru {
        RemoveFirstIsWithout(order, key);
        WithoutListing(order, old(data).Keys, {key});
        order := RemoveFirst(order, key);
      }
      if reason == Expiration {
        stats := stats.(expirations := stats.expirations + 1);
      } else {
        stats := stats.(evictions := stats.evictions + 1);
      }
      CleanupKeyLocks();
    }

    /**
     * `get`: a live entry's value, counted as a hit that touches the entry and credits its
     * recorded compute time; an expired entry is evicted and, like a missing key, counted
     * as a miss. The result is what `peek` would have returned.
     */
    method Get(key: string, now: int) returns (r: Option<V>)
      requires Valid()
      modifies this
      ensures Valid()
      ensures r == old(Peek(key, now))
      ensures Got(old(State()), key, now, maintainLru, State())
    {
      if key !in data {
        stats := stats.(misses := stats.misses + 1);
        return None;
      }
      var entry := data[key];
      if Expired(entry, now) {
        ExpireOnGet(key, now);
        return None;
      }
      HitOnGet(key, now);
      r := entry.value;
    }

    /** The expired-entry branch of `get`: the entry is evicted as expired, and a miss counted. */
    method ExpireOnGet(key: string, now: int)
      requires Valid() && key in data && Expired(data[key], now)
      modifies this
      ensures Valid()
      ensures Got(old(State()), key, now, maintainLru, State())
    {
      ghost var s0 := State();
      Evict(key, Expiration);
      stats := stats.(misses := stats.misses + 1);
      assert order == if maintainLru then Without(s0.order, {key}) else [];
      assert stats == s0.stats.(misses := s0.stats.misses + 1, expirations := s0.stats.expirations + 1);
    }

    /** The hit branch of `get`: the entry is touched, a hit counted and its compute time credited. */
    method HitOnGet(key: string, now: int)
      requires Valid() && key in data && !Expired(data[key], now)
      modifies this
      ensures Valid()
      ensures Got(old(State()), key, now, maintainLru, State())
    {
      ghost var s0 := State();
      var entry := data[key];
      StoreWellFormed(data, keys, order, key, Touched(entry, now), maintainLru);
      Touch(key, now);
      assert order == if maintainLru then MoveToEnd(s0.order, key) else [];
      stats := stats.(hits := stats.hits + 1, savedMs := stats.savedMs + Credit(entry.metadata));
      GotHit(s0, key, now, maintainLru, State());
    }

    /**
     * `_evict_victim`: evicts the policy's victim when it is a non-empty key (an absent
     * key still counts an eviction). `removed` tells whether an entry went away.
     */
    method EvictVictim() returns (removed: bool)
      requires Valid()
      modifies this
      ensures Valid()
      ensures var v := old(SelectVictim(policy, data, keys, order));
        && (v.Some? && v.value != "" ==>
              && data == old(data) - {v.value} && keys == Without(old(keys), {v.value})
              && order == (if maintainLru then Without(old(order), {v.value}) else old(order))
              && stats == old(stats).(evictions := old(stats).evictions + 1)
              && keyLocks == old(keyLocks) * data.Keys)
        && (!(v.Some? && v.value != "") ==>
              data == old(data) && keys == old(keys) && order == old(order) && stats == old(stats)
              && keyLocks == old(keyLocks))
        && removed == (v.Some? && v.value != "" && v.value in old(data))
      ensures Shrunk(old(data), old(keys), old(order), old(keyLocks), data, keys, order, keyLocks, maintainLru)
      ensures removed ==> |data| == |old(data)| - 1
      ensures !removed ==> data == old(data)
      ensures SelfEvicting() && old(data) != map[] && "" !in old(data) ==> removed
      ensures removed ==> stats == old(stats).(evictions := old(stats).evictions + 1)
      ensures !removed ==>
        stats == old(stats).(evictions := stats.evictions)
        && old(stats).evictions <= stats.evictions <= old(stats).evictions + 1
    {
      var victim := SelectVictim(policy, data, keys, order);
      removed := victim.Some? && victim.value != "" && victim.value in data;
      ShrunkNothing(data, keys, order, keyLocks, maintainLru);
      if victim.Some? && victim.value != "" {
        ghost var before := data;
        ghost var keysBefore := keys;
        ghost var orderBefore := order;
        ghost var locksBefore := keyLocks;
        Evict(victim.value, Capacity);
        if removed {
          ShrunkStep(before, keysBefore, orderBefore, locksBefore, before, keysBefore, orderBefore, locksBefore,
                     victim.value, data, keys, order, keyLocks, maintainLru);
        } else {
          NothingRemoved(before, data, victim.value, keysBefore, orderBefore, maintainLru);
        }
      }
    }

    /** The built-in policies that always name a live entry of a non-empty cache. */
    predicate SelfEvicting() {
      (policy.LRU? && maintainLru) || policy.LFU? || policy.TTL?
    }

    /** The state after `_evict(v, reason="capacity")` in state `s`. */
    ghost function EvictedBy(s: Snapshot<V>, v: string): (r: Snapshot<V>)
      requires WellFormed(s.data, s.keys, s.order, maintainLru)
      ensures WellFormed(r.data, r.keys, r.order, maintainLru)
      ensures v in s.data ==> |r.data| == |s.data| - 1
    {
      WithoutListing(s.keys, s.data.Keys, {v});
      assert maintainLru ==> Listing(Without(s.order, {v}), s.data.Keys - {v}) by {
        if maintainLru {
          WithoutListing(s.order, s.data.Keys, {v});
        }
      }
      assert v in s.data ==> |s.data - {v}| == |s.data| - 1 by {
        if v in s.data {
          MapRemoveSize(s.data, v);
        }
      }
      var d := s.data - {v};
      assert d.Keys == s.data.Keys - {v};
      Snapshot(d, Without(s.keys, {v}), if maintainLru then Without(s.order, {v}) else s.order,
               s.keyLocks * d.Keys, s.stats.(evictions := s.stats.evictions + 1))
    }

    /**
     * The eviction loop of `set`, run from state `s`: while a capacity is set and exceeded,
     * the policy's victim is evicted. The flag tells that the loop hangs, because the
     * victim is None or the empty key (nothing changes), or is absent (only the eviction is
     * counted); the state is then the one after that last attempt.
     */
    ghost function EvictionLoop(s: Snapshot<V>): (Snapshot<V>, bool)
      requires WellFormed(s.data, s.keys, s.order, maintainLru)
      decreases |s.data|
    {
      if capacity == 0 || |s.data| <= capacity then (s, false)
      else
        var v := SelectVictim(policy, s.data, s.keys, s.order);
        if v.None? || v.value == "" then (s, true)
        else if v.value !in s.data then (EvictedBy(s, v.value), true)
        else EvictionLoop(EvictedBy(s, v.value))
    }

    /**
     * Under LRU with a recency list, the eviction loop never takes the most recently used
     * key: it stays, with its entry unchanged, and the loop ends.
     */
    lemma {:induction false} LruKeepsNewest(s: Snapshot<V>, key: string)
      requires WellFormed(s.data, s.keys, s.order, maintainLru)
      requires policy.LRU? && maintainLru && capacity > 0 && "" !in s.data
      requires |s.order| > 0 && s.order[|s.order| - 1] == key
      ensures !EvictionLoop(s).1 && key in EvictionLoop(s).0.data && EvictionLoop(s).0.data[key] == s.data[key]
      decreases |s.data|
    {
      assert key in s.data;
      if |s.data| > capacity {
        var v := SelectVictim(policy, s.data, s.keys, s.order);
        ListingSize(s.order, s.data.Keys);
        FirstNotLast(s.order);
        LastSurvives(s.order, v.value, key);
        var s' := EvictedBy(s, v.value);
        assert EvictionLoop(s) == EvictionLoop(s');
        assert s'.data[key] == s.data[key];
        LruKeepsNewest(s', key);
      }
    }

    /**
     * `r`, the outcome of the eviction loop run from `s`, did not hang, and its recency
     * list is exactly the newest `capacity` keys of `s`'s (all of them when there are no
     * more), listing the entries that are left.
     */
    ghost predicate KeepsNewest(s: Snapshot<V>, r: (Snapshot<V>, bool))
      requires capacity > 0
    {
      && !r.1 && WellFormed(r.0.data, r.0.keys, r.0.order, maintainLru)
      && r.0.order == s.order[if |s.order| > capacity then |s.order| - capacity else 0..]
    }

    /**
     * Under LRU with a recency list, the eviction loop takes exactly the least recently
     * used keys, oldest first, until the cache is within capacity: the recency list keeps
     * its newest `capacity` keys, and the entries are those it lists.
     */
    lemma {:induction false} LruEvictsOldest(s: Snapshot<V>)
      requires WellFormed(s.data, s.keys, s.order, maintainLru)
      requires policy.LRU? && maintainLru && capacity > 0 && "" !in s.data
      ensures KeepsNewest(s, EvictionLoop(s))
      decreases |s.data|
    {
      if |s.data| > capacity {
        LruStep(s);
        var s' := EvictedBy(s, s.order[0]);
        LruEvictsOldest(s');
        KeepsNewestStep(s, s', EvictionLoop(s'));
      } else {
        ListingSize(s.order, s.data.Keys);
        assert EvictionLoop(s) == (s, false);
        assert s.order[0..] == s.order;
      }
    }

    /** One LRU round over capacity, from `s` to `s'`, passes `KeepsNewest` back to `s`. */
    lemma KeepsNewestStep(s: Snapshot<V>, s': Snapshot<V>, r: (Snapshot<V>, bool))
      requires capacity > 0 && |s.order| > capacity
      requires s'.order == s.order[1..] && KeepsNewest(s', r)
      ensures KeepsNewest(s, r)
    {
      NewestAfterHead(s.order, s'.order, capacity);
    }

    /** One round of the eviction loop under LRU takes the head of the recency list. */
    lemma LruStep(s: Snapshot<V>)
      requires WellFormed(s.data, s.keys, s.order, maintainLru)
      requires policy.LRU? && maintainLru && capacity > 0 && "" !in s.data && |s.data| > capacity
      ensures |s.order| == |s.data|
      ensures var s' := EvictedBy(s, s.order[0]);
        && EvictionLoop(s) == EvictionLoop(s') && s'.order == s.order[1..] && |s'.data| == |s.data| - 1
        && "" !in s'.data
    {
      ListingSize(s.order, s.data.Keys);
      WithoutHead(s.order);
    }

    /**
     * Under LRU with a recency list, `set` never evicts the entry it writes (given keys
     * that are not empty): the loop ends and the entry is stored as written.
     */
    lemma LruSetKeepsWritten(s0: Snapshot<V>, key: string, value: Option<V>, ttlSeconds: Option<int>,
                             metadata: Metadata, now: int, stored: Entry<V>, hung: bool)
      requires WellFormed(s0.data, s0.keys, s0.order, maintainLru)
      requires WroteEntry(s0, key, value, ttlSeconds, metadata, now, stored, hung) && SizeOk(value)
      requires policy.LRU? && maintainLru && capacity > 0 && "" !in s0.data && key != ""
      ensures !hung && key in data && data[key] == stored
    {
      LruKeepsNewest(Written(s0, stored), key);
    }

    /**
     * The eviction loop of `set`: while a capacity is set and the cache holds more entries
     * than it, one victim is evicted. It stops when the cache is within capacity; `hung` reports the state in which the
     * source would spin forever, because the victim is None, the empty key or absent and
     * so leaves the entries unchanged. Only whole entries go, with their places in both
     * lists, each counted as an eviction.
     */
    method EvictOverCapacity() returns (hung: bool)
      requires Valid()
      modifies this
      ensures Valid()
      ensures !hung ==> capacity == 0 || |data| <= capacity
      ensures capacity == 0 || |old(data)| <= capacity ==>
        !hung && data == old(data) && keys == old(keys) && order == old(order)
        && stats == old(stats) && keyLocks == old(keyLocks)
      ensures capacity > 0 && SelfEvicting() && "" !in old(data) ==> !hung
      ensures capacity < 0 ==> hung
      ensures (State(), hung) == old(EvictionLoop(State()))
      ensures Shrunk(old(data), old(keys), old(order), old(keyLocks), data, keys, order, keyLocks, maintainLru)
      ensures !hung ==> stats == old(stats).(evictions := old(stats).evictions + (|old(data)| - |data|))
      ensures hung ==>
        stats == old(stats).(evictions := stats.evictions)
        && stats.evictions >= old(stats).evictions + (|old(data)| - |data|)
    {
      hung := false;
      ShrunkNothing(data, keys, order, keyLocks, maintainLru);
      if capacity == 0 || |data| <= capacity {
        return;
      }
      ghost var s0 := State();
      while capacity != 0 && |data| > capacity
        invariant Valid() && !hung
        invariant Shrunk(old(data), old(keys), old(order), old(keyLocks), data, keys, order, keyLocks, maintainLru)
        invariant stats == old(stats).(evictions := old(stats).evictions + (|old(data)| - |data|))
        invariant EvictionLoop(State()) == old(EvictionLoop(State()))
        decreases |data|
      {
        var removed := EvictRound(s0);
        if !removed {
          hung := true;
          return;
        }
      }
    }

    /**
     * One round of the eviction loop of `set`, which started in state `s0`: the victim
     * is evicted and the loop goes on as it would have from `s0`, or nothing is removed
     * and the loop hangs in the state it reaches from `s0`.
     */
    method EvictRound(ghost s0: Snapshot<V>) returns (removed: bool)
      requires Valid() && WellFormed(s0.data, s0.keys, s0.order, maintainLru)
      requires capacity != 0 && |data| > capacity
      requires Shrunk(s0.data, s0.keys, s0.order, s0.keyLocks, data, keys, order, keyLocks, maintainLru)
      requires EvictionLoop(State()) == EvictionLoop(s0)
      modifies this
      ensures Valid()
      ensures Shrunk(s0.data, s0.keys, s0.order, s0.keyLocks, data, keys, order, keyLocks, maintainLru)
      ensures removed ==> |data| == |old(data)| - 1 && EvictionLoop(State()) == EvictionLoop(s0)
      ensures SelfEvicting() && "" !in old(data) && capacity > 0 ==> removed
      ensures removed ==> stats == old(stats).(evictions := old(stats).evictions + 1)
      ensures !removed ==> (State(), true) == EvictionLoop(s0) && data == old(data)
      ensures !removed ==>
        stats == old(stats).(evictions := stats.evictions) && old(stats).evictions <= stats.evictions
    {
      ghost var before := data;
      ghost var keysBefore := keys;
      ghost var orderBefore := order;
      ghost var locksBefore := keyLocks;
      ghost var s := State();
      removed := EvictVictim();
      EvictionLoopStep(s, State(), removed);
      ShrunkTrans(s0.data, s0.keys, s0.order, s0.keyLocks, before, keysBefore, orderBefore, locksBefore,
                  data, keys, order, keyLocks, maintainLru);
    }

    /** The first round of `EvictionLoop` in a cache over capacity, from `s` to `t`. */
    lemma EvictionLoopStep(s: Snapshot<V>, t: Snapshot<V>, removed: bool)
      requires WellFormed(s.data, s.keys, s.order, maintainLru) && capacity != 0 && |s.data| > capacity
      requires var v := SelectVictim(policy, s.data, s.keys, s.order);
        && (v.Some? && v.value != "" ==>
              && t.data == s.data - {v.value} && t.keys == Without(s.keys, {v.value})
              && t.order == (if maintainLru then Without(s.order, {v.value}) else s.order)
              && t.stats == s.stats.(evictions := s.stats.evictions + 1)
              && t.keyLocks == s.keyLocks * t.data.Keys)
        && (!(v.Some? && v.value != "") ==> t == s)
        && removed == (v.Some? && v.value != "" && v.value in s.data)
      ensures WellFormed(t.data, t.keys, t.order, maintainLru)
      ensures removed ==> EvictionLoop(t) == EvictionLoop(s)
      ensures !removed ==> (t, true) == EvictionLoop(s)
    {
      var v := SelectVictim(policy, s.data, s.keys, s.order);
      if v.Some? && v.value != "" {
        assert t == EvictedBy(s, v.value);
      }
    }

    /** The TTL `set` asks for: the caller's, or the default. */
    function RequestedTtl(ttlSeconds: Option<int>): int {
      if ttlSeconds.Some? then ttlSeconds.value else defaultTtl
    }

    /**
     * `set`: an oversized value changes nothing. Otherwise the entry (expiring after the
     * jittered TTL, at least one second) is stored as `StoreAndEvict` describes.
     * `stored` is the entry as written before any eviction.
     */
    method Set(key: string, value: Option<V>, ttlSeconds: Option<int>, metadata: Metadata, now: int)
      returns (hung: bool, ghost stored: Entry<V>)
      requires Valid()
      modifies this
      ensures Valid()
      ensures WroteEntry(old(State()), key, value, ttlSeconds, metadata, now, stored, hung)
    {
      var ttl := StoredTtl(ttlSeconds);
      var entry := Entry(value, now + ttl, now, key, metadata, 0, now);
      stored := if key in data then Touched(entry, now) else entry;
      if !SizeOk(value) {
        return false, stored;
      }
      hung := StoreAndEvict(entry, now);
    }

    /** The TTL `set` stores: the requested one, jittered, and at least one second. */
    method StoredTtl(ttlSeconds: Option<int>) returns (ttl: int)
      ensures EffectiveTtl(RequestedTtl(ttlSeconds), jitterRatio, ttl)
    {
      ttl := RequestedTtl(ttlSeconds);
      var jittered := ApplyTtlJitter(ttl);
      EffectiveTtlOfJitter(ttl, jitterRatio, jittered);
      ttl := AtLeastOne(jittered);
    }

    /**
     * What `set` leaves behind, starting from `s0`: nothing changes for an oversized value;
     * otherwise `stored` is the entry written under `key` (the value and metadata given,
     * created and last accessed now, expiring after the effective TTL, with one access
     * when it replaced an entry) and the state is as `StoredAndEvicted` describes.
     */
    ghost predicate WroteEntry(s0: Snapshot<V>, key: string, value: Option<V>, ttlSeconds: Option<int>,
                               metadata: Metadata, now: int, stored: Entry<V>, hung: bool)
      reads this
    {
      if !SizeOk(value) then !hung && State() == s0
      else
        && stored.value == value && stored.key == key && stored.metadata == metadata
        && stored.createdAt == now && stored.lastAccessed == now
        && stored.accessCount == (if key in s0.data then 1 else 0)
        && EffectiveTtl(RequestedTtl(ttlSeconds), jitterRatio, stored.expiresAt - now)
        && StoredAndEvicted(s0, stored, hung)
    }

    /**
     * What `set` leaves behind once it stores `stored` over the state `s0`: the eviction
     * loop run from the state `Written` describes. Read off it: the state after the write
     * shrunk by whole entries only; `sets` up by one and `total_size` the size after the
     * write; each removed entry counted as an eviction (at least, when the loop hangs);
     * within capacity unless the loop hangs, and nothing evicted when the write left the
     * cache within capacity; the loop never hangs for a built-in policy that names live
     * victims and keys that are not empty.
     */
    ghost predicate StoredAndEvicted(s0: Snapshot<V>, stored: Entry<V>, hung: bool)
      reads this
    {
      var key := stored.key;
      var size := |s0.data| + (if key in s0.data then 0 else 1);
      var w := Written(s0, stored);
      && WellFormed(w.data, w.keys, w.order, maintainLru) && (State(), hung) == EvictionLoop(w)
      && Shrunk(w.data, w.keys, w.order, s0.keyLocks,
                data, keys, order, keyLocks, maintainLru)
      && stats.sets == s0.stats.sets + 1 && stats.totalSize == size
      && stats == s0.stats.(sets := stats.sets, totalSize := stats.totalSize, evictions := stats.evictions)
      && stats.evictions >= s0.stats.evictions + (size - |data|)
      && (!hung ==> stats.evictions == s0.stats.evictions + (size - |data|))
      && (capacity == 0 || size <= capacity ==> !hung && data == w.data)
      && (!hung ==> capacity == 0 || |data| <= capacity)
      && (capacity > 0 && SelfEvicting() && "" !in s0.data && key != "" ==> !hung)
    }

    /**
     * The state once `set` has written `stored` over `s0` and counted it, before its
     * eviction loop: a replaced key keeps its place in the dictionary order, a new one
     * goes last; the key moves to the end of the recency list.
     */
    ghost function Written(s0: Snapshot<V>, stored: Entry<V>): Snapshot<V>
    {
      var key := stored.key;
      Snapshot(s0.data[key := stored], if key in s0.data then s0.keys else s0.keys + [key],
               if maintainLru then MoveToEnd(s0.order, key) else s0.order, s0.keyLocks,
               s0.stats.(sets := s0.stats.sets + 1, totalSize := |s0.data| + (if key in s0.data then 0 else 1)))
    }

    /** The locked part of `set`: the write, the counters, then the eviction loop. */
    method StoreAndEvict(entry: Entry<V>, now: int) returns (hung: bool)
      requires Valid()
      modifies this
      ensures Valid()
      ensures StoredAndEvicted(old(State()), if entry.key in old(data) then Touched(entry, now) else entry, hung)
    {
      ghost var w := Written(State(), if entry.key in data then Touched(entry, now) else entry);
      Store(entry.key, entry, now);
      stats := stats.(sets := stats.sets + 1);
      stats := stats.(totalSize := |data|);
      assert State() == w;
      hung := EvictOverCapacity();
    }

    /**
     * The write of the new entry under its key in `set`, with its bookkeeping: a replaced key
     * keeps its place in the dictionary and is touched; a new key is appended to the
     * dictionary order and the recency list.
     */
    method Store(key: string, entry: Entry<V>, now: int)
      requires Valid()
      requires entry.key == key
      modifies this
      ensures Valid()
      ensures data == old(data)[key := if key in old(data) then Touched(entry, now) else entry]
      ensures |data| == |old(data)| + (if key in old(data) then 0 else 1)
      ensures keys == if key in old(data) then old(keys) else old(keys) + [key]
      ensures order == if maintainLru then MoveToEnd(old(order), key) else old(order)
      ensures stats == old(stats) && keyLocks == old(keyLocks)
    {
      ghost var stored := if key in data then Touched(entry, now) else entry;
      MapUpdateSize(data, key, stored);
      StoreWellFormed(data, keys, order, key, stored, maintainLru);
      if key in data {
        MapOverwrite(data, key, entry, stored);
        data := data[key := entry];
        Touch(key, now);
      } else {
        data := data[key := entry];
        keys := keys + [key];
        if maintainLru {
          order := order + [key];
        }
      }
    }

    /** `invalidate`: evicts the key if present (counted as an eviction); tells whether it was. */
    method Invalidate(key: string) returns (existed: bool)
      requires Valid()
      modifies this
      ensures Valid()
      ensures existed == (key in old(data))
      ensures data == old(data) - {key}
      ensures keys == Without(old(keys), {key})
      ensures maintainLru ==> order == Without(old(order), {key})
      ensures stats == if existed then old(stats).(evictions := old(stats).evictions + 1) else old(stats)
      ensures keyLocks == old(keyLocks) * data.Keys
    {
      existed := key in data;
      if existed {
        Evict(key, Manual);
      } else {
        WithoutNone(keys, {key});
        WithoutNone(order, {key});
      }
      CleanupKeyLocks();
    }

    /**
     * `invalidate_pattern`: evicts every key that starts with `prefix`, each counted as
     * an eviction, and returns how many went.
     */
    method InvalidatePattern(prefix: string) returns (removed: nat)
      requires Valid()
      modifies this
      ensures Valid()
      ensures forall k :: k in data <==> k in old(data) && !StartsWith(k, prefix)
      ensures Shrunk(old(data), old(keys), old(order), old(keyLocks), data, keys, order, keyLocks, maintainLru)
      ensures removed == |old(data)| - |data|
      ensures stats == old(stats).(evictions := old(stats).evictions + removed)
      ensures keyLocks == old(keyLocks) * data.Keys
    {
      var doomed := WithPrefix(keys, prefix);
      removed := EvictAll(doomed);
      CleanupKeyLocks();
    }

    /** The loop of `invalidate_pattern`: evicts each of `doomed`, all stored, in turn. */
    method EvictAll(doomed: seq<string>) returns (removed: nat)
      requires Valid()
      requires NoDup(doomed) && forall k :: k in doomed ==> k in data
      modifies this
      ensures Valid()
      ensures Swept(old(data), data, doomed)
      ensures Shrunk(old(data), old(keys), old(order), old(keyLocks), data, keys, order, keyLocks, maintainLru)
      ensures removed == |doomed| == |old(data)| - |data|
      ensures stats == old(stats).(evictions := old(stats).evictions + removed)
      ensures old(keyLocks) * data.Keys <= keyLocks
    {
      removed := 0;
      var i := 0;
      ShrunkNothing(data, keys, order, keyLocks, maintainLru);
      SweptNothing(data);
      while i < |doomed|
        invariant 0 <= i <= |doomed| && removed == i
        invariant Valid()
        invariant Shrunk(old(data), old(keys), old(order), old(keyLocks), data, keys, order, keyLocks, maintainLru)
        invariant Swept(old(data), data, doomed[..i])
        invariant |data| + i == |old(data)|
        invariant stats == old(stats).(evictions := old(stats).evictions + i)
        invariant old(keyLocks) * data.Keys <= keyLocks
      {
        var key := doomed[i];
        TakeOneMore(doomed, i);
        NoDupPrefix(doomed, i);
        EvictSwept(key, old(data), old(keys), old(order), old(keyLocks), doomed[..i]);
        removed := removed + 1;
        i := i + 1;
      }
      assert doomed[..i] == doomed;
    }

    /**
     * One step of `invalidate_pattern`: the entry under `key`, which the sweep has not
     * reached yet, is evicted. The ghost parameters carry the sweep's progress.
     */
    method EvictSwept(key: string, ghost d0: map<string, Entry<V>>, ghost k0: seq<string>,
                      ghost o0: seq<string>, ghost l0: set<string>, ghost done: seq<string>)
      requires Valid()
      requires Shrunk(d0, k0, o0, l0, data, keys, order, keyLocks, maintainLru)
      requires Swept(d0, data, done) && key in d0 && key !in done
      requires l0 * data.Keys <= keyLocks
      modifies this
      ensures Valid()
      ensures Shrunk(d0, k0, o0, l0, data, keys, order, keyLocks, maintainLru)
      ensures Swept(d0, data, done + [key])
      ensures l0 * data.Keys <= keyLocks
      ensures |data| == |old(data)| - 1
      ensures stats == old(stats).(evictions := old(stats).evictions + 1)
    {
      ghost var before := data;
      ghost var keysBefore := keys;
      ghost var orderBefore := order;
      ghost var locksBefore := keyLocks;
      Evict(key, Manual);
      ShrunkStep(d0, k0, o0, l0, before, keysBefore, orderBefore, locksBefore,
                 key, data, keys, order, keyLocks, maintainLru);
      SweptStep(d0, before, done, key, data);
    }

    /**
     * `cleanup_expired`: over a snapshot of the keys, evicts every entry expired at `now`
     * (each counted as an expiration) and returns how many went.
     */
    method CleanupExpired(now: int) returns (removed: nat)
      requires Valid()
      modifies this
      ensures Valid()
      ensures forall k :: k in data <==> k in old(data) && !Expired(old(data)[k], now)
      ensures Shrunk(old(data), old(keys), old(order), old(keyLocks), data, keys, order, keyLocks, maintainLru)
      ensures removed == |old(data)| - |data|
      ensures stats == old(stats).(expirations := old(stats).expirations + removed)
      ensures keyLocks == old(keyLocks) * data.Keys
    {
      removed := 0;
      var snapshot := keys;
      var i := 0;
      ShrunkNothing(data, keys, order, keyLocks, maintainLru);
      SweptExpiredNothing(data, now);
      while i < |snapshot|
        invariant 0 <= i <= |snapshot|
        invariant Valid()
        invariant Shrunk(old(data), old(keys), old(order), old(keyLocks), data, keys, order, keyLocks, maintainLru)
        invariant Listing(snapshot, old(data).Keys)
        invariant SweptExpired(old(data), data, snapshot[..i], now)
        invariant |data| + removed == |old(data)|
        invariant stats == old(stats).(expirations := old(stats).expirations + removed)
        invariant old(keyLocks) * data.Keys <= keyLocks
      {
        var expired := ExpireIfStale(snapshot[i], now, old(data), old(keys), old(order), old(keyLocks), snapshot, i);
        removed := removed + if expired then 1 else 0;
        i := i + 1;
      }
      assert snapshot[..i] == snapshot;
      SweptExpiredAll(old(data), data, snapshot, now);
      CleanupKeyLocks();
    }

    /**
     * One step of `cleanup_expired`: the entry under `key`, if expired at `now`, is evicted
     * as expired. The ghost parameters carry the sweep's progress from its starting state:
     * `key` is the `i`-th key of the snapshot, and the keys before it are done.
     */
    method ExpireIfStale(key: string, now: int, ghost d0: map<string, Entry<V>>, ghost k0: seq<string>,
                         ghost o0: seq<string>, ghost l0: set<string>, ghost snapshot: seq<string>, ghost i: nat)
      returns (expired: bool)
      requires Valid()
      requires Shrunk(d0, k0, o0, l0, data, keys, order, keyLocks, maintainLru)
      requires i < |snapshot| && key == snapshot[i] && NoDup(snapshot)
      requires SweptExpired(d0, data, snapshot[..i], now)
      requires l0 * data.Keys <= keyLocks
      modifies this
      ensures Valid()
      ensures expired == (key in old(data) && Expired(old(data)[key], now))
      ensures Shrunk(d0, k0, o0, l0, data, keys, order, keyLocks, maintainLru)
      ensures SweptExpired(d0, data, snapshot[..i + 1], now)
      ensures l0 * data.Keys <= keyLocks
      ensures |data| == |old(data)| - (if expired then 1 else 0)
      ensures stats == old(stats).(expirations := old(stats).expirations + if expired then 1 else 0)
    {
      expired := key in data && Expired(data[key], now);
      ghost var before := data;
      if expired {
        ghost var keysBefore := keys;
        ghost var orderBefore := order;
        ghost var locksBefore := keyLocks;
        Evict(key, Expiration);
        ShrunkStep(d0, k0, o0, l0, before, keysBefore, orderBefore, locksBefore,
                   key, data, keys, order, keyLocks, maintainLru);
      }
      TakeOneMore(snapshot, i);
      NoDupPrefix(snapshot, i);
      SweptExpiredStep(d0, before, snapshot[..i], key, data, now);
    }

    /** The cache's state as a value. */
    ghost function State(): Snapshot<V>
      reads this
    {
      Snapshot(data, keys, order, keyLocks, stats)
    }

    /**
     * `get_or_compute` for a caller that gets the key's lock at once: a live non-None
     * value is returned as `get` would return it. Otherwise the key gets a lock and is
     * looked up a second time (`mid` is the state then, as `MissedTwice` describes), and
     * the computation's outcome decides: a raised error propagates with nothing more
     * changed; a returned value is stored by `set`, with the compute time recorded unless
     * the metadata already has one, and returned even when `set` refused it as oversized.
     * `now` is the clock at the lookups and `setNow` the clock `set` reads once the
     * computation is over.
     */
    method GetOrCompute(key: string, compute: Computed<V>, ttlSeconds: Option<int>, metadata: Metadata,
                        now: int, setNow: int)
      returns (r: Result<Option<V>, string>, hung: bool, ghost mid: Snapshot<V>, ghost stored: Entry<V>)
      requires Valid()
      modifies this
      ensures Valid()
      ensures ComputedFrom(old(State()), key, compute, ttlSeconds, metadata, now, setNow, r, hung, mid, stored)
    {
      ghost var s0 := State();
      stored := Entry(None, now, now, key, None, 0, now);
      var cached := Get(key, now);
      mid := State();
      if cached.Some? {
        return Ok(cached), false, mid, stored;
      }
      LookAgain(key, now, s0);
      mid := State();
      match compute
      case Raised(error) =>
        r, hung := Err(error), false;
      case Returned(value, ms) =>
        hung, stored := Set(key, value, ttlSeconds, WithComputeTime(metadata, ms), setNow);
        r := Ok(value);
    }

    /**
     * What `get_or_compute` leaves behind, starting from `s0`. A live non-None value is
     * returned and the call acts as one `get`. Otherwise `mid` is the state after the two
     * lookups; a raised error is passed on and leaves `mid`; a returned value is returned
     * and written over `mid` as `set` writes it at `setNow`, with the compute time in its
     * metadata.
     */
    ghost predicate ComputedFrom(s0: Snapshot<V>, key: string, compute: Computed<V>, ttlSeconds: Option<int>,
                                 metadata: Metadata, now: int, setNow: int, r: Result<Option<V>, string>,
                                 hung: bool, mid: Snapshot<V>, stored: Entry<V>)
      reads this
    {
      if key in s0.data && !Expired(s0.data[key], now) && s0.data[key].value.Some? then
        r == Ok(s0.data[key].value) && !hung && Got(s0, key, now, maintainLru, State())
      else
        && MissedTwice(s0, key, now, maintainLru, mid)
        && match compute
           case Raised(error) => r == Err(error) && !hung && State() == mid
           case Returned(value, ms) =>
             r == Ok(value) && WroteEntry(mid, key, value, ttlSeconds, WithComputeTime(metadata, ms), setNow, stored, hung)
    }

    /**
     * What `get_or_compute` did to the counters and the store, read off `ComputedFrom`: a
     * miss on an absent or expired key counts two misses and no hit, a live None value two
     * hits and no miss; only a stored value counts a `set`; an error adds no key; and when
     * the cache had room, the computed value is in it afterwards, created and last accessed
     * when `set` ran, with its compute time in the metadata.
     */
    lemma ComputedCounts(s0: Snapshot<V>, key: string, compute: Computed<V>, ttlSeconds: Option<int>,
                         metadata: Metadata, now: int, setNow: int, r: Result<Option<V>, string>, hung: bool,
                         mid: Snapshot<V>, stored: Entry<V>)
      requires ComputedFrom(s0, key, compute, ttlSeconds, metadata, now, setNow, r, hung, mid, stored)
      requires !(key in s0.data && !Expired(s0.data[key], now) && s0.data[key].value.Some?)
      ensures key !in s0.data || Expired(s0.data[key], now) ==>
        stats.misses == s0.stats.misses + 2 && stats.hits == s0.stats.hits
      ensures key in s0.data && !Expired(s0.data[key], now) ==>
        stats.misses == s0.stats.misses && stats.hits == s0.stats.hits + 2
      ensures compute.Raised? ==> stats.sets == s0.stats.sets && data.Keys <= s0.data.Keys
      ensures compute.Returned? ==> stats.sets == s0.stats.sets + (if SizeOk(compute.value) then 1 else 0)
      ensures compute.Returned? && SizeOk(compute.value) && (capacity == 0 || |s0.data| < capacity) ==>
        && !hung && key in data && data[key].value == compute.value
        && data[key].createdAt == setNow && data[key].lastAccessed == setNow
        && data[key].metadata == WithComputeTime(metadata, compute.elapsedMs)
    {
      if key in s0.data && Expired(s0.data[key], now) {
        assert |mid.data| == |s0.data| - 1 by {
          MapRemoveSize(s0.data, key);
        }
      }
    }

    /**
     * The second half of the lookups of `get_or_compute`: the key gets its lock and `get`
     * is called again. `s0` is the state before the first `get`, which missed.
     */
    method LookAgain(key: string, now: int, ghost s0: Snapshot<V>)
      requires Valid() && WellFormed(s0.data, s0.keys, s0.order, maintainLru)
      requires key !in s0.data || Expired(s0.data[key], now) || s0.data[key].value == None
      requires Got(s0, key, now, maintainLru, State())
      modifies this
      ensures Valid()
      ensures MissedTwice(s0, key, now, maintainLru, State())
    {
      ghost var s1 := State();
      keyLocks := keyLocks + {key};
      var cached := Get(key, now);
      GotTwice(s0, key, now, maintainLru, s1, State());
    }

    /** `clear`: no entries, no recency list, no key locks; the counters stay. */
    method Clear()
      modifies this
      ensures Valid()
      ensures data == map[] && keys == [] && order == [] && keyLocks == {}
      ensures stats == old(stats)
    {
      data := map[];
      keys := [];
      order := [];
      keyLocks := {};
    }

    /** `get_stats`: a snapshot of the counters. */
    function GetStats(): Stats
      reads this
    {
      stats
    }

    /** `get_entry_info`: an entry's bookkeeping at time `now`, expired or not, without touching it. */
    function GetEntryInfo(key: string, now: int): (r: Option<EntryInfo>)
      reads this
      ensures r.None? <==> key !in data
      ensures r.Some? ==>
        var e := data[key];
        && r.value.key == key && r.value.createdAt == e.createdAt && r.value.expiresAt == e.expiresAt
        && r.value.ageSeconds == now - e.createdAt && r.value.ttlRemaining == e.expiresAt - now
        && r.value.accessCount == e.accessCount && r.value.lastAccessed == e.lastAccessed
        && r.value.metadata == e.metadata
        && (r.value.ttlRemaining <= 0 <==> Expired(e, now))
    {
      if key !in data then None
      else
        var e := data[key];
        Some(EntryInfo(key, e.createdAt, e.expiresAt, now - e.createdAt, e.expiresAt - now,
                       e.accessCount, e.lastAccessed, e.metadata))
    }
  }

  /** The state of a `MemoryTTLCache` as a value: its entries, both lists, key locks and counters. */
  datatype Snapshot<V> = Snapshot(data: map<string, Entry<V>>, keys: seq<string>, order: seq<string>,
                                  keyLocks: set<string>, stats: Stats)

  /**
   * The state `s1` that `get` leaves behind in a cache that was in state `s0`. A missing
   * key: one more miss. An expired entry: evicted (its places in both lists go, stale locks
   * are dropped) and counted as an expiration and a miss. A live entry: touched, moved to
   * the end of the recency list, counted as a hit, and its compute time credited.
   */
  ghost predicate Got<V>(s0: Snapshot<V>, key: string, now: int, maintainLru: bool, s1: Snapshot<V>) {
    if key !in s0.data then
      s1 == s0.(stats := s0.stats.(misses := s0.stats.misses + 1))
    else if Expired(s0.data[key], now) then
      && s1.data == s0.data - {key} && s1.keys == Without(s0.keys, {key})
      && s1.order == (if maintainLru then Without(s0.order, {key}) else [])
      && s1.keyLocks == s0.keyLocks * s1.data.Keys
      && s1.stats == s0.stats.(misses := s0.stats.misses + 1, expirations := s0.stats.expirations + 1)
    else
      && s1.data == s0.data[key := Touched(s0.data[key], now)] && s1.keys == s0.keys
      && s1.order == (if maintainLru then MoveToEnd(s0.order, key) else [])
      && s1.keyLocks == s0.keyLocks
      && s1.stats == s0.stats.(hits := s0.stats.hits + 1,
                               savedMs := s0.stats.savedMs + Credit(s0.data[key].metadata))
  }

  /** The hit case of `Got`, from its parts. */
  lemma GotHit<V>(s0: Snapshot<V>, key: string, now: int, maintainLru: bool, s1: Snapshot<V>)
    requires key in s0.data && !Expired(s0.data[key], now)
    requires s1.data == s0.data[key := Touched(s0.data[key], now)] && s1.keys == s0.keys
    requires s1.order == (if maintainLru then MoveToEnd(s0.order, key) else [])
    requires s1.keyLocks == s0.keyLocks
    requires s1.stats == s0.stats.(hits := s0.stats.hits + 1, savedMs := s0.stats.savedMs + Credit(s0.data[key].metadata))
    ensures Got(s0, key, now, maintainLru, s1)
  {
  }

  /**
   * The state `s1` that the two lookups of `get_or_compute` leave behind when the first
   * one finds no live value in `s0`. A missing key: two misses and a lock. An expired
   * entry: evicted by the first lookup (an expiration, stale locks dropped), two misses,
   * and the lock. A live entry holding None: touched and counted as a hit twice, its
   * compute time credited twice, and the lock.
   */
  ghost predicate MissedTwice<V>(s0: Snapshot<V>, key: string, now: int, maintainLru: bool, s1: Snapshot<V>) {
    if key !in s0.data then
      s1 == s0.(keyLocks := s0.keyLocks + {key}, stats := s0.stats.(misses := s0.stats.misses + 2))
    else if Expired(s0.data[key], now) then
      && s1.data == s0.data - {key} && s1.keys == Without(s0.keys, {key})
      && s1.order == (if maintainLru then Without(s0.order, {key}) else [])
      && s1.keyLocks == s0.keyLocks * s1.data.Keys + {key}
      && s1.stats == s0.stats.(misses := s0.stats.misses + 2, expirations := s0.stats.expirations + 1)
    else
      var e := s0.data[key];
      && s1.data == s0.data[key := Touched(Touched(e, now), now)] && s1.keys == s0.keys
      && s1.order == (if maintainLru then MoveToEnd(MoveToEnd(s0.order, key), key) else [])
      && s1.keyLocks == s0.keyLocks + {key}
      && s1.stats == s0.stats.(hits := s0.stats.hits + 2,
                               savedMs := s0.stats.savedMs + Credit(e.metadata) + Credit(e.metadata))
  }

  /**
   * Two `get`s of the same key with the key's lock taken in between leave the state
   * `MissedTwice` describes.
   */
  lemma GotTwice<V>(s0: Snapshot<V>, key: string, now: int, maintainLru: bool, s1: Snapshot<V>, s2: Snapshot<V>)
    requires Got(s0, key, now, maintainLru, s1)
    requires Got(s1.(keyLocks := s1.keyLocks + {key}), key, now, maintainLru, s2)
    ensures MissedTwice(s0, key, now, maintainLru, s2)
  {
    if key in s0.data && !Expired(s0.data[key], now) {
      var e := s0.data[key];
      assert s1.data[key] == Touched(e, now);
      assert !Expired(Touched(e, now), now) && Touched(e, now).metadata == e.metadata;
    }
  }

  /**
   * `keys` lists the entries once each; the recency list lists them too when it is
   * kept and is empty otherwise; every entry is stored under its own key.
   */
  ghost predicate WellFormed<V>(data: map<string, Entry<V>>, keys: seq<string>, order: seq<string>,
                                maintainLru: bool)
  {
    && Listing(keys, data.Keys)
    && (maintainLru ==> Listing(order, data.Keys))
    && (!maintainLru ==> order == [])
    && (forall k :: k in data ==> data[k].key == k)
  }

  /**
   * Writing an entry under its own key keeps the cache well formed: a new key goes
   * to the end of both lists, an old one keeps its place in `keys` and moves to the
   * end of the recency list.
   */
  lemma StoreWellFormed<V>(data: map<string, Entry<V>>, keys: seq<string>, order: seq<string>,
                           key: string, e: Entry<V>, maintainLru: bool)
    requires WellFormed(data, keys, order, maintainLru) && e.key == key
    ensures WellFormed(data[key := e], if key in data then keys else keys + [key],
                       if maintainLru then MoveToEnd(order, key) else order, maintainLru)
    ensures maintainLru && key !in data ==> MoveToEnd(order, key) == order + [key]
  {
    if key in data {
      assert data[key := e].Keys == data.Keys;
      if maintainLru {
        MoveToEndListing(order, data.Keys, key);
      }
    } else {
      assert data[key := e].Keys == data.Keys + {key};
      AppendListing(keys, data.Keys, key);
      if maintainLru {
        AppendListing(order, data.Keys, key);
      }
    }
  }

  /**
   * From `(d0, k0, o0, l0)` to `(d, k, o, l)` only whole entries went away: the rest are
   * unchanged, both key lists lost exactly the removed keys, and no key lock was added.
   */
  ghost predicate Shrunk<V>(d0: map<string, Entry<V>>, k0: seq<string>, o0: seq<string>, l0: set<string>,
                            d: map<string, Entry<V>>, k: seq<string>, o: seq<string>, l: set<string>,
                            maintainLru: bool)
  {
    && d.Keys <= d0.Keys && (forall x :: x in d ==> d[x] == d0[x])
    && k == Without(k0, d0.Keys - d.Keys)
    && (maintainLru ==> o == Without(o0, d0.Keys - d.Keys))
    && l <= l0
  }

  lemma ShrunkNothing<V>(d: map<string, Entry<V>>, k: seq<string>, o: seq<string>, l: set<string>, maintainLru: bool)
    ensures Shrunk(d, k, o, l, d, k, o, l, maintainLru)
  {
    assert d.Keys - d.Keys == {};
    WithoutNone(k, {});
    WithoutNone(o, {});
  }

  /** Evicting one more live entry keeps `Shrunk` and leaves one entry fewer. */
  lemma ShrunkStep<V>(d0: map<string, Entry<V>>, k0: seq<string>, o0: seq<string>, l0: set<string>,
                      d: map<string, Entry<V>>, k: seq<string>, o: seq<string>, l: set<string>,
                      v: string,
                      d': map<string, Entry<V>>, k': seq<string>, o': seq<string>, l': set<string>,
                      maintainLru: bool)
    requires Shrunk(d0, k0, o0, l0, d, k, o, l, maintainLru)
    requires v in d && d' == d - {v} && k' == Without(k, {v})
    requires maintainLru ==> o' == Without(o, {v})
    requires l' <= l
    ensures Shrunk(d0, k0, o0, l0, d', k', o', l', maintainLru)
    ensures |d'| == |d| - 1
  {
    assert d'.Keys == d.Keys - {v};
    assert d0.Keys - d'.Keys == (d0.Keys - d.Keys) + {v};
    WithoutWithout(k0, d0.Keys - d.Keys, {v});
    WithoutWithout(o0, d0.Keys - d.Keys, {v});
  }

  /** `[k for k in keys if k.startswith(prefix)]`. */
  function WithPrefix(keys: seq<string>, prefix: string): (r: seq<string>)
    ensures forall k :: k in r <==> k in keys && StartsWith(k, prefix)
    ensures NoDup(keys) ==> NoDup(r)
  {
    if keys == [] then []
    else
      var rest := WithPrefix(keys[1..], prefix);
      assert NoDup(keys) ==> NoDup(keys[1..]) && keys[0] !in keys[1..] by {
        if NoDup(keys) {
          forall i, j | 0 <= i < j < |keys[1..]| ensures keys[1..][i] != keys[1..][j] {
            assert keys[1..][i] == keys[i + 1] && keys[1..][j] == keys[j + 1];
          }
          forall i | 0 <= i < |keys[1..]| ensures keys[1..][i] != keys[0] {
            assert keys[1..][i] == keys[i + 1];
          }
        }
      }
      if StartsWith(keys[0], prefix) then [keys[0]] + rest else rest
  }

  /** `d` is `d0` without the keys in `done`. */
  ghost predicate Swept<V>(d0: map<string, Entry<V>>, d: map<string, Entry<V>>, done: seq<string>) {
    forall k :: k in d <==> k in d0 && k !in done
  }

  lemma SweptNothing<V>(d: map<string, Entry<V>>)
    ensures Swept(d, d, [])
  {
  }

  lemma SweptStep<V>(d0: map<string, Entry<V>>, d: map<string, Entry<V>>, done: seq<string>, key: string,
                     d': map<string, Entry<V>>)
    requires Swept(d0, d, done) && d' == d - {key}
    ensures Swept(d0, d', done + [key])
  {
  }

  /** `d` is `d0` without the keys in `done` whose entries were expired at `now`. */
  ghost predicate SweptExpired<V>(d0: map<string, Entry<V>>, d: map<string, Entry<V>>, done: seq<string>, now: int) {
    forall k :: k in d <==> k in d0 && !(k in done && Expired(d0[k], now))
  }

  lemma SweptExpiredNothing<V>(d: map<string, Entry<V>>, now: int)
    ensures SweptExpired(d, d, [], now)
  {
  }

  lemma SweptExpiredStep<V>(d0: map<string, Entry<V>>, d: map<string, Entry<V>>, done: seq<string>, key: string,
                            d': map<string, Entry<V>>, now: int)
    requires SweptExpired(d0, d, done, now)
    requires forall x :: x in d ==> d[x] == d0[x]
    requires key !in done
    requires d' == if key in d && Expired(d[key], now) then d - {key} else d
    ensures SweptExpired(d0, d', done + [key], now)
  {
  }

  lemma SweptExpiredAll<V>(d0: map<string, Entry<V>>, d: map<string, Entry<V>>, keys: seq<string>, now: int)
    requires SweptExpired(d0, d, keys, now)
    requires Listing(keys, d0.Keys)
    ensures forall k :: k in d <==> k in d0 && !Expired(d0[k], now)
  {
  }

  lemma TakeOneMore(s: seq<string>, i: nat)
    requires i < |s|
    ensures s[..i + 1] == s[..i] + [s[i]]
  {
  }

  lemma NoDupPrefix(s: seq<string>, i: nat)
    requires NoDup(s) && i < |s|
    ensures s[i] !in s[..i]
  {
    forall j | 0 <= j < i ensures s[..i][j] != s[i] {
      assert s[..i][j] == s[j];
    }
  }

  /** In a list without duplicates, the first element of two or more is not the last. */
  lemma FirstNotLast(s: seq<string>)
    requires NoDup(s) && |s| >= 2
    ensures s[0] != s[|s| - 1]
  {
  }

  /** In a list without duplicates, filtering out the first element drops just it. */
  lemma WithoutHead(s: seq<string>)
    requires NoDup(s) && |s| > 0
    ensures Without(s, {s[0]}) == s[1..]
  {
    assert forall x :: x in {s[0]} ==> x !in s[1..] by {
      forall j | 0 <= j < |s[1..]| ensures s[1..][j] != s[0] {
        assert s[1..][j] == s[j + 1];
      }
    }
    WithoutNone(s[1..], {s[0]});
  }

  /** The newest `c` keys of a list longer than `c` are the newest `c` of its tail `t`. */
  lemma NewestAfterHead(s: seq<string>, t: seq<string>, c: nat)
    requires |s| > c && t == s[1..]
    ensures t[if |t| > c then |t| - c else 0..] == s[if |s| > c then |s| - c else 0..]
  {
  }

  /** Filtering out another key keeps the last element last. */
  lemma LastSurvives(s: seq<string>, v: string, key: string)
    requires |s| > 0 && s[|s| - 1] == key && v != key
    ensures var r := Without(s, {v}); |r| > 0 && r[|r| - 1] == key
  {
    assert s == s[..|s| - 1] + [key];
    WithoutAppend(s[..|s| - 1], [key], {v});
    assert Without([key], {v}) == [key];
  }

  /** Two shrinking steps make one. */
  lemma ShrunkTrans<V>(d0: map<string, Entry<V>>, k0: seq<string>, o0: seq<string>, l0: set<string>,
                       d1: map<string, Entry<V>>, k1: seq<string>, o1: seq<string>, l1: set<string>,
                       d2: map<string, Entry<V>>, k2: seq<string>, o2: seq<string>, l2: set<string>,
                       maintainLru: bool)
    requires Shrunk(d0, k0, o0, l0, d1, k1, o1, l1, maintainLru)
    requires Shrunk(d1, k1, o1, l1, d2, k2, o2, l2, maintainLru)
    ensures Shrunk(d0, k0, o0, l0, d2, k2, o2, l2, maintainLru)
  {
    assert (d0.Keys - d1.Keys) + (d1.Keys - d2.Keys) == d0.Keys - d2.Keys;
    WithoutWithout(k0, d0.Keys - d1.Keys, d1.Keys - d2.Keys);
    WithoutWithout(o0, d0.Keys - d1.Keys, d1.Keys - d2.Keys);
  }

  /** An absent victim leaves both key lists as they were. */
  lemma NothingRemoved<V>(before: map<string, Entry<V>>, after: map<string, Entry<V>>, v: string,
                          keys: seq<string>, order: seq<string>, maintainLru: bool)
    requires v !in before && after == before - {v}
    requires Listing(keys, before.Keys) && (maintainLru ==> Listing(order, before.Keys))
    ensures after == before
    ensures Without(keys, {v}) == keys
    ensures maintainLru ==> Without(order, {v}) == order
  {
    WithoutNone(keys, {v});
    if maintainLru {
      WithoutNone(order, {v});
    }
  }
}
