/**
 * `CacheClient`, the on/off facade over a `MemoryTTLCache` backend.
 */
module VizCacheClient {
  import opened Wrappers
  import opened Text
  import opened CachePolicy
  import opened VizCache

  /** `CacheStats.to_dict()`: the counters together with the hit rate. */
  datatype StatsReport = StatsReport(stats: Stats, hitRate: real)

  /**
   * `CacheClient`: forwards to its backend while enabled; while disabled every
   * operation answers its neutral value (None, False, 0, an empty dictionary) and the
   * backend is left alone, except that `get_or_compute` still computes.
   */
  class CacheClient<V> {
    const backend: MemoryTTLCache<V>
    const enabled: bool
    /** Only decides whether `get` logs hits and misses. */
    const logHits: bool

    ghost predicate Valid()
      reads backend
    {
      backend.Valid()
    }

    /** `backend or MemoryTTLCache()`: a fresh cache with the default settings when none is given. */
    constructor (backend: Option<MemoryTTLCache<V>>, enabled: bool, logHits: bool,
                 estimateSize: Option<V> -> Option<nat>)
      requires backend.Some? ==> backend.value.Valid()
      ensures Valid()
      ensures this.enabled == enabled && this.logHits == logHits
      ensures backend.Some? ==> this.backend == backend.value
      ensures backend.None? ==>
        && fresh(this.backend)
        && this.backend.capacity == 512 && this.backend.defaultTtl == 3600
        && this.backend.jitterRatio == 0.1 && this.backend.maxValueBytes == None
        && this.backend.policy == LRU && this.backend.maintainLru
        && this.backend.data == map[] && this.backend.stats == ZeroStats
    {
      if backend.Some? {
        this.backend := backend.value;
      } else {
        this.backend := new MemoryTTLCache(512, 3600, 0.1, None, None, None, estimateSize);
      }
      this.enabled := enabled;
      this.logHits := logHits;
    }

    /** `get`: the backend's answer while enabled, else None without a lookup. */
    method Get(key: string, now: int) returns (r: Option<V>)
      requires Valid()
      modifies backend
      ensures Valid()
      ensures r == if enabled then old(backend.Peek(key, now)) else None
      ensures enabled ==> Got(old(backend.State()), key, now, backend.maintainLru, backend.State())
      ensures enabled ==>
        backend.stats.hits + backend.stats.misses == old(backend.stats.hits + backend.stats.misses) + 1
      ensures !enabled ==> unchanged(backend)
    {
      if !enabled {
        return None;
      }
      r := backend.Get(key, now);
    }

    /** `peek`. */
    function Peek(key: string, now: int): (r: Option<V>)
      reads backend
      ensures !enabled ==> r == None
      ensures enabled ==> r == backend.Peek(key, now)
      ensures r.Some? ==> key in backend.data && !Expired(backend.data[key], now) && r == backend.data[key].value
    {
      if !enabled then None else backend.Peek(key, now)
    }

    /** `set`: stores through the backend while enabled. */
    method Set(key: string, value: Option<V>, ttlSeconds: Option<int>, metadata: Metadata, now: int)
      returns (hung: bool, ghost stored: Entry<V>)
      requires Valid()
      modifies backend
      ensures Valid()
      ensures !enabled ==> !hung && unchanged(backend)
      ensures enabled ==> backend.WroteEntry(old(backend.State()), key, value, ttlSeconds, metadata, now, stored, hung)
      ensures enabled ==> backend.stats.sets == old(backend.stats.sets) + (if backend.SizeOk(value) then 1 else 0)
      ensures enabled && backend.SizeOk(value) && (backend.capacity == 0 || |old(backend.data)| < backend.capacity) ==>
        !hung && key in backend.data && backend.data[key].value == value
    {
      stored := Entry(None, now, now, key, None, 0, now);
      if !enabled {
        return false, stored;
      }
      hung, stored := backend.Set(key, value, ttlSeconds, metadata, now);
    }

    /**
     * `get_or_compute`: disabled, the computation's outcome itself. `now` is the clock at
     * the lookups and `setNow` the clock `set` reads after the computation.
     */
    method GetOrCompute(key: string, compute: Computed<V>, ttlSeconds: Option<int>, metadata: Metadata,
                        now: int, setNow: int)
      returns (r: Result<Option<V>, string>, hung: bool, ghost mid: Snapshot<V>, ghost stored: Entry<V>)
      requires Valid()
      modifies backend
      ensures Valid()
      ensures enabled ==>
        backend.ComputedFrom(old(backend.State()), key, compute, ttlSeconds, metadata, now, setNow, r, hung, mid, stored)
      ensures !enabled ==>
        && r == (if compute.Returned? then Ok(compute.value) else Err(compute.error))
        && !hung && unchanged(backend)
      ensures enabled && old(backend.Peek(key, now)).Some? ==> r == Ok(old(backend.Peek(key, now)))
      ensures enabled && old(backend.Peek(key, now)).None? ==>
        r == (if compute.Returned? then Ok(compute.value) else Err(compute.error))
    {
      mid, stored := backend.State(), Entry(None, now, now, key, None, 0, now);
      if !enabled {
        r := if compute.Returned? then Ok(compute.value) else Err(compute.error);
        return r, false, mid, stored;
      }
      r, hung, mid, stored := backend.GetOrCompute(key, compute, ttlSeconds, metadata, now, setNow);
    }

    /** `invalidate`: while enabled, exactly what the backend's `invalidate` does. */
    method Invalidate(key: string) returns (existed: bool)
      requires Valid()
      modifies backend
      ensures Valid()
      ensures existed == (enabled && key in old(backend.data))
      ensures enabled ==>
        && backend.data == old(backend.data) - {key}
        && backend.keys == Without(old(backend.keys), {key})
        && (backend.maintainLru ==> backend.order == Without(old(backend.order), {key}))
        && backend.stats == (if existed then old(backend.stats).(evictions := old(backend.stats).evictions + 1)
                             else old(backend.stats))
        && backend.keyLocks == old(backend.keyLocks) * backend.data.Keys
      ensures !enabled ==> unchanged(backend)
    {
      if !enabled {
        return false;
      }
      existed := backend.Invalidate(key);
    }

    /** `invalidate_pattern`: while enabled, exactly what the backend's does. */
    method InvalidatePattern(prefix: string) returns (removed: nat)
      requires Valid()
      modifies backend
      ensures Valid()
      ensures !enabled ==> removed == 0 && unchanged(backend)
      ensures enabled ==>
        && (forall k :: k in backend.data <==> k in old(backend.data) && !StartsWith(k, prefix))
        && removed == |old(backend.data)| - |backend.data|
        && Shrunk(old(backend.data), old(backend.keys), old(backend.order), old(backend.keyLocks),
                  backend.data, backend.keys, backend.order, backend.keyLocks, backend.maintainLru)
        && backend.stats == old(backend.stats).(evictions := old(backend.stats).evictions + removed)
        && backend.keyLocks == old(backend.keyLocks) * backend.data.Keys
    {
      if !enabled {
        return 0;
      }
      removed := backend.InvalidatePattern(prefix);
    }

    /** `clear`: while enabled, the backend is emptied and keeps its counters. */
    method Clear()
      requires Valid()
      modifies backend
      ensures Valid()
      ensures enabled ==>
        && backend.data == map[] && backend.keys == [] && backend.order == [] && backend.keyLocks == {}
        && backend.stats == old(backend.stats)
      ensures !enabled ==> unchanged(backend)
    {
      if !enabled {
        return;
      }
      backend.Clear();
    }

    /** `stats`: None stands for the empty dictionary a disabled client answers. */
    function Stats(): (r: Option<StatsReport>)
      reads backend
      ensures r.Some? <==> enabled
      ensures r.Some? ==> r.value.stats == backend.stats && 0.0 <= r.value.hitRate <= 1.0
      ensures r.Some? && backend.stats.hits + backend.stats.misses > 0 ==>
        r.value.hitRate * (backend.stats.hits + backend.stats.misses) as real == backend.stats.hits as real
    {
      if !enabled then None else Some(StatsReport(backend.GetStats(), HitRate(backend.GetStats())))
    }

    /** `cleanup`: while enabled, the backend's `cleanup_expired`. */
    method Cleanup(now: int) returns (removed: nat)
      requires Valid()
      modifies backend
      ensures Valid()
      ensures !enabled ==> removed == 0 && unchanged(backend)
      ensures enabled ==>
        && (forall k :: k in backend.data <==> k in old(backend.data) && !Expired(old(backend.data)[k], now))
        && removed == |old(backend.data)| - |backend.data|
        && Shrunk(old(backend.data), old(backend.keys), old(backend.order), old(backend.keyLocks),
                  backend.data, backend.keys, backend.order, backend.keyLocks, backend.maintainLru)
        && backend.stats == old(backend.stats).(expirations := old(backend.stats).expirations + removed)
        && backend.keyLocks == old(backend.keyLocks) * backend.data.Keys
    {
      if !enabled {
        return 0;
      }
      removed := backend.CleanupExpired(now);
    }

    /** `info`. */
    function Info(key: string, now: int): (r: Option<EntryInfo>)
      reads backend
      ensures r.Some? <==> enabled && key in backend.data
      ensures enabled ==> r == backend.GetEntryInfo(key, now)
      ensures r.Some? ==> r.value.ttlRemaining == backend.data[key].expiresAt - now
    {
      if !enabled then None else backend.GetEntryInfo(key, now)
    }
  }
}
