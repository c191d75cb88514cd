# PlotSense core, modelled in Dafny

This project models the sequential core of PlotSense, a Python library that
recommends and draws plots with the help of language models.

**The cache (`plotsense/visual_suggestion/viz_cache.py`)**
- `MemoryTTLCache` is a keyed store of entries, each with its own expiry.
  - It keeps an optional recency list and a statistics record.
  - Entries expire lazily when they are read.
  - It evicts through a victim policy: LRU, LFU or soonest-to-expire.
  - It supports prefix invalidation, expiry sweeps and a memoising
    `get_or_compute`.
- `CacheClient` is a facade that can be switched off.
- `normalize_prompt` is a prompt normaliser.

**The smaller cores**
- The case-insensitive plot-type registry.
- The line-oriented parser of model responses, with its variable reordering.
- The four model-selection strategies.
- The assembly of chat instructions.
- The chat stream wrapper.

**Modules**

| Module | File | Contents |
|---|---|---|
| `CachePolicy` | cache_policy.dfy | Pure parts of the cache: statistics, entries, TTL jitter, the recency-list operations, the victim policies, `normalize_prompt` |
| `VizCache` | viz_cache.dfy | `MemoryTTLCache`, a class whose methods update `data`, `keys` (the dict's insertion order), `order`, `keyLocks` and `stats` in place |
| `VizCacheClient` | cache_client.dfy | `CacheClient` |
| `PlotRegistry` | registry.dfy | The registry, as a class over a map and a list of names |
| `ResponseParser` | response_parser.dfy | The parser: loops for `parse_recommendations`, functions for `validate_variable_order` |
| `Strategy`, `StableSort` | strategy.dfy, stable_sort.dfy | Python indexing and slicing; a stable insertion sort |
| `RoundRobin`, `FallbackChain`, `CostOptimized`, `PerformanceOptimized` | one file each | The four strategies |
| `Prompts`, `Streaming` | prompts.dfy, streaming.dfy | `get_instructions`; `ChatStreamWrapper` |
| `Text`, `Frames`, `Wrappers` | text.dfy, frames.dfy, wrappers.dfy | String helpers; an abstract data frame; `Option`/`Result` |

**How the environment enters the model**
- Time is an explicit integer parameter `now`, in seconds.
- The random TTL jitter is a nondeterministic choice (`ApplyTtlJitter`),
  constrained to `[-int(ttl*ratio), int(ttl*ratio)]`.
- The JSON size of a value is a caller-supplied function `estimateSize`. Its
  `None` result means the size could not be measured, and then the size test
  passes (it fails open).
- A computation handed to `get_or_compute` is a value `Computed<V>`. It is
  either `Returned(value, elapsedMs)` or `Raised`.
- A data frame is a `Frame`: a set of column names with numeric and datetime
  predicates.

**The eviction loop in `set`**
The loop (viz_cache.py:460-461) only stops once the policy names a present,
non-empty key. If the policy answers `None` or `""` while the store is over
capacity, Python spins forever.
- The model's `EvictOverCapacity` returns `hung = true` at the first such
  round instead of looping.
- `SelfEvicting` states when this cannot happen: LRU with recency tracking,
  LFU or TTL, with a positive capacity and no empty key.
- Under that condition the model proves that `set` does not hang and leaves at
  most `capacity` entries.

## Model

| member | source | states |
|---|---|---|
| CachePolicy.HitRate | plotsense/visual_suggestion/viz_cache.py:32-35 | The hit rate is hits/(hits+misses), and 0 when there were no lookups. It lies in [0, 1], and equals 1 exactly when there were hits and no misses |
| CachePolicy.Credit | plotsense/visual_suggestion/viz_cache.py:407-413 | A hit credits `last_compute_ms` exactly when the metadata has that key with a value that is not None and that `float()` converts, and then credits that number. In every other case it credits 0 |
| CachePolicy.WithComputeTime | plotsense/visual_suggestion/viz_cache.py:525-527 | `last_compute_ms` is added to the metadata only when the caller's metadata lacks it. Every other key is kept unchanged |
| CachePolicy.CreditOfComputeTime | plotsense/visual_suggestion/viz_cache.py:407-413 | A later hit on an entry stored by get_or_compute credits exactly the measured compute time |
| CachePolicy.Trunc | plotsense/visual_suggestion/viz_cache.py:275 | Python's `int()` on a float truncates toward zero, for both signs |
| CachePolicy.JitteredTtl | plotsense/visual_suggestion/viz_cache.py:271-277 | Defines the TTLs jitter can produce: the TTL itself when the ratio or `int(ttl*ratio)` is at most 0, else the TTL plus any whole offset within `int(ttl*ratio)`. ApplyTtlJitter, EffectiveTtlOfJitter and EffectiveTtlReachable state its properties |
| CachePolicy.EffectiveTtl | plotsense/visual_suggestion/viz_cache.py:429-430 | Defines the TTLs `set` can store: a jittered TTL raised to at least 1 second. EffectiveTtlOfJitter and EffectiveTtlReachable prove that it is exactly that range |
| CachePolicy.EffectiveTtlOfJitter | plotsense/visual_suggestion/viz_cache.py:271-277 | Any jittered TTL, raised to at least 1, is an effective TTL `max(1, ttl + j)` with `|j| <= int(ttl*ratio)`, and `j == 0` when the ratio is at most 0 |
| CachePolicy.EffectiveTtlReachable | plotsense/visual_suggestion/viz_cache.py:271-277 | Conversely, every effective TTL arises from some allowed jitter |
| CachePolicy.ListingSize | plotsense/visual_suggestion/viz_cache.py:244-249 | A duplicate-free listing of a key set has as many elements as the set |
| CachePolicy.RemoveFirst | plotsense/visual_suggestion/viz_cache.py:312-314 | `list.remove(key)` shortens the list by one when the key occurs and leaves it unchanged otherwise |
| CachePolicy.RemoveFirstMultiset | plotsense/visual_suggestion/viz_cache.py:312-314 | `list.remove(key)` removes exactly one occurrence of the key |
| CachePolicy.RemoveFirstIsWithout | plotsense/visual_suggestion/viz_cache.py:300-305 | On a duplicate-free list, `remove(key)` equals filtering the key out |
| CachePolicy.Without | plotsense/visual_suggestion/viz_cache.py:541-553 | Filtering keeps exactly the elements not in the removed set, in order |
| CachePolicy.WithoutNone | plotsense/visual_suggestion/viz_cache.py:312-314 | Removing keys that do not occur changes nothing |
| CachePolicy.WithoutWithout | plotsense/visual_suggestion/viz_cache.py:541-553 | Removing two key sets in turn equals removing their union |
| CachePolicy.WithoutAppend | plotsense/visual_suggestion/viz_cache.py:541-553 | Filtering distributes over concatenation |
| CachePolicy.WithoutListing | plotsense/visual_suggestion/viz_cache.py:307-314 | Filtering a listing of a key set lists the set minus the removed keys |
| CachePolicy.WithoutNoDup | plotsense/visual_suggestion/viz_cache.py:307-314 | Filtering keeps a list duplicate-free |
| CachePolicy.MoveToEnd | plotsense/visual_suggestion/viz_cache.py:300-305 | After a touch, the touched key is last in the recency list |
| CachePolicy.MapUpdateSize | plotsense/visual_suggestion/viz_cache.py:446-454 | Writing a key grows the dict by one exactly when the key was absent |
| CachePolicy.MapRemoveSize | plotsense/visual_suggestion/viz_cache.py:307-322 | Removing a present key shrinks the dict by one |
| CachePolicy.MapOverwrite | plotsense/visual_suggestion/viz_cache.py:446-449 | Writing a key twice leaves only the second value, as when `set` replaces and then touches an entry |
| CachePolicy.AppendListing | plotsense/visual_suggestion/viz_cache.py:450-454 | Appending a new key to the recency list keeps it a listing of the grown key set |
| CachePolicy.MoveToEndListing | plotsense/visual_suggestion/viz_cache.py:300-305 | Moving a present key to the end keeps the recency list a listing of the same keys |
| CachePolicy.FirstMinIndex | plotsense/visual_suggestion/viz_cache.py:194-197 | `min` with a key returns the first position holding the smallest score |
| CachePolicy.SelectVictim | plotsense/visual_suggestion/viz_cache.py:186-205 | LRU answers `order[0]`, and `None` exactly when the recency list is empty. LFU and TTL answer `None` exactly when the dict is empty, and otherwise a present key |
| CachePolicy.SelectVictimLeast | plotsense/visual_suggestion/viz_cache.py:192-205 | LFU and TTL choose a key of least score, and the first such key in dict order |
| CachePolicy.Position | plotsense/visual_suggestion/viz_cache.py:194-205 | The position of a key is its first occurrence in dict order |
| CachePolicy.PositionListed | plotsense/visual_suggestion/viz_cache.py:194-205 | In a duplicate-free list, the position of the element at `m` is `m` |
| CachePolicy.ListingNonEmpty | plotsense/visual_suggestion/viz_cache.py:186-189 | The listing of a non-empty dict is non-empty, so LRU finds a victim whenever there is an entry |
| CachePolicy.NormalizePrompt | plotsense/visual_suggestion/viz_cache.py:87-89 | Splitting the result on newlines gives back exactly the stripped, non-blank input lines, in order. Each is non-empty, stripped and free of newlines. The result is empty exactly when there are no such lines |
| CachePolicy.JoinNonEmpty | plotsense/visual_suggestion/viz_cache.py:87-89 | Joining lines whose first line is non-empty gives a non-empty text |
| VizCache.MemoryTTLCache.constructor | plotsense/visual_suggestion/viz_cache.py:218-264 | The store starts empty with zero statistics. The policy defaults to LRU, and recency tracking defaults to "policy is LRU" |
| VizCache.MemoryTTLCache.ApplyTtlJitter | plotsense/visual_suggestion/viz_cache.py:271-277 | The jittered TTL lies within `int(ttl*ratio)` of the TTL, and equals it when the ratio is at most 0 |
| VizCache.MemoryTTLCache.PeekExpiresForGood | plotsense/visual_suggestion/viz_cache.py:382-388 | When nothing writes the key, a value that `peek` cannot see at one time stays invisible at every later time. A value it sees was visible, unchanged, at every earlier time. `get` returns what `peek` would |
| VizCache.MemoryTTLCache.Touch | plotsense/visual_suggestion/viz_cache.py:294-305 | Increments the access count, stamps the access time, and moves the key to the end of the recency list when recency is tracked. Nothing else changes |
| VizCache.MemoryTTLCache.CleanupKeyLocks | plotsense/visual_suggestion/viz_cache.py:340-346 | Keeps only the per-key locks whose key is still stored |
| VizCache.MemoryTTLCache.Evict | plotsense/visual_suggestion/viz_cache.py:307-322 | Removes the key from the dict, its insertion order and the recency list. Expiry counts as an expiration, while capacity and manual removal count as evictions. Locks stay within the stored keys |
| VizCache.MemoryTTLCache.Get | plotsense/visual_suggestion/viz_cache.py:390-419 | Returns what `peek` would, and leaves the state `Got` describes. Absent key: only `misses` grows. Expired entry: it is evicted from the dict and both lists, stale locks are dropped, and `expirations` and `misses` each grow by one. Live entry: it is touched, moves to the end of the recency list, `hits` grows by one and its compute time is credited |
| VizCache.MemoryTTLCache.ExpireOnGet | plotsense/visual_suggestion/viz_cache.py:398-402 | The expired branch of `get` leaves the state `Got` describes for an expired entry |
| VizCache.MemoryTTLCache.HitOnGet | plotsense/visual_suggestion/viz_cache.py:404-413 | The hit branch of `get` leaves the state `Got` describes for a live entry |
| VizCache.MemoryTTLCache.EvictVictim | plotsense/visual_suggestion/viz_cache.py:324-329 | A present, non-empty victim is removed from the dict and both lists, with one eviction counted. A non-empty victim that is absent removes nothing but still counts an eviction. A `None` or empty victim changes nothing. Under a self-evicting policy a non-empty store always loses one entry |
| VizCache.MemoryTTLCache.EvictedBy | plotsense/visual_suggestion/viz_cache.py:307-329 | The state after evicting a victim for capacity keeps both lists listings of the keys, and is one entry smaller when the victim was present |
| VizCache.MemoryTTLCache.EvictOverCapacity | plotsense/visual_suggestion/viz_cache.py:459-461 | The final state and the `hung` flag are exactly what `EvictionLoop` computes from the state before the loop, so each victim is the one the policy names at that round. Unless it hangs, the store ends within capacity and each removed entry counts one eviction. Capacity 0, or a store within capacity, evicts nothing. A self-evicting policy never hangs, and a negative capacity always does |
| VizCache.MemoryTTLCache.EvictionLoopStep | plotsense/visual_suggestion/viz_cache.py:459-461 | One round of the loop in a store over capacity: evicting a present victim leaves a state from which the loop ends as it would have; any other victim ends the loop in a hang |
| VizCache.MemoryTTLCache.EvictRound | plotsense/visual_suggestion/viz_cache.py:459-461 | One pass of the loop body: a present victim is evicted with one eviction counted, and the loop then ends as it would have from the state before the loop. Otherwise nothing leaves the dict and the loop hangs in the state it computes. A self-evicting policy always evicts when the capacity is positive |
| VizCache.MemoryTTLCache.LruKeepsNewest | plotsense/visual_suggestion/viz_cache.py:186-189 | Under LRU with a recency list and no empty key, the loop never evicts the most recently used key: it ends without hanging and that entry is unchanged |
| VizCache.MemoryTTLCache.LruEvictsOldest | plotsense/visual_suggestion/viz_cache.py:186-189 | Under LRU with a recency list and no empty key, the loop evicts exactly the least recently used keys, oldest first: afterwards the recency list is the newest `capacity` keys of the old one |
| VizCache.MemoryTTLCache.KeepsNewestStep | plotsense/visual_suggestion/viz_cache.py:186-189 | Evicting the head of the recency list keeps the same newest `capacity` keys |
| VizCache.MemoryTTLCache.LruStep | plotsense/visual_suggestion/viz_cache.py:186-189 | One LRU round over capacity evicts the head of the recency list, which then loses exactly its head |
| VizCache.MemoryTTLCache.Set | plotsense/visual_suggestion/viz_cache.py:421-463 | Leaves the state `WroteEntry` describes. An oversized value changes nothing. Otherwise it stores the value with the effective TTL and `created == accessed == now`, and `sets` grows by one. The access count is 1 when the key was replaced and 0 when new. `total_size` is recorded before eviction, the keys stay listed, and eviction then proceeds victim by victim as `EvictionLoop` computes, leaving the store within capacity unless it hangs |
| VizCache.MemoryTTLCache.LruSetKeepsWritten | plotsense/visual_suggestion/viz_cache.py:421-461 | Under LRU with a recency list and non-empty keys, `set` of a value that fits never hangs and never evicts the entry it wrote: it stays in the store exactly as written |
| VizCache.MemoryTTLCache.StoredTtl | plotsense/visual_suggestion/viz_cache.py:429-430 | The TTL `set` stores is an effective TTL of the requested one (the caller's, else the default): jittered within bounds and at least 1 second |
| VizCache.MemoryTTLCache.StoreAndEvict | plotsense/visual_suggestion/viz_cache.py:446-461 | Leaves the state `StoredAndEvicted` describes: the entry is written (replaced and touched, or appended to both lists), `sets` grows by one, `total_size` is the size after the write and before eviction, and then the state is exactly what `EvictionLoop` computes from there, victim by victim |
| VizCache.MemoryTTLCache.Store | plotsense/visual_suggestion/viz_cache.py:446-454 | A replaced entry is touched and a new one is appended to the insertion and recency lists. The dict grows by one exactly when the key is new |
| VizCache.MemoryTTLCache.Invalidate | plotsense/visual_suggestion/viz_cache.py:532-539 | Returns whether the key existed. If so, it removes the key and counts one eviction |
| VizCache.MemoryTTLCache.InvalidatePattern | plotsense/visual_suggestion/viz_cache.py:541-553 | Removes exactly the keys starting with the prefix and returns how many. Each counts as an eviction, and locks stay within the stored keys |
| VizCache.MemoryTTLCache.EvictSwept | plotsense/visual_suggestion/viz_cache.py:549-551 | One round of the invalidation loop removes one more doomed key and counts one eviction |
| VizCache.MemoryTTLCache.EvictAll | plotsense/visual_suggestion/viz_cache.py:549-551 | Evicts every listed key, each once: exactly those keys leave the dict and both lists, the count returned is how many left, each counts one eviction, and the locks of the remaining keys are kept |
| VizCache.MemoryTTLCache.CleanupExpired | plotsense/visual_suggestion/viz_cache.py:568-581 | Removes exactly the entries with `now >= expires_at` and returns how many. The same number is added to `expirations`, and locks stay within the stored keys |
| VizCache.MemoryTTLCache.ExpireIfStale | plotsense/visual_suggestion/viz_cache.py:573-579 | One round of the sweep removes the key exactly when it is stored and expired, counting one expiration |
| VizCache.MemoryTTLCache.GetOrCompute | plotsense/visual_suggestion/viz_cache.py:482-530 | Leaves the state `ComputedFrom` describes. A live non-None value is returned without computing, and the call acts as one `get`. Otherwise the two lookups and the lock leave the state `MissedTwice` describes (`mid`). A raised error is passed on and nothing more changes. A returned value is returned, and written over `mid` as `set` writes it, at the clock reading `setNow` taken after the computation, with `last_compute_ms` added unless the caller gave one. The value is returned even when `set` skipped it as oversized |
| VizCache.MemoryTTLCache.ComputedCounts | plotsense/visual_suggestion/viz_cache.py:482-530 | After a miss: an absent or expired key counts two misses and no hit, and a live `None` value two hits and no miss. Only a stored value counts a `set`, and an error adds no key. When the cache had room, the computed value is stored afterwards, created and last accessed at `setNow`, the time `set` runs after the computation, with its compute time in the metadata |
| VizCache.MemoryTTLCache.LookAgain | plotsense/visual_suggestion/viz_cache.py:498-518 | After a first `get` that found no live value, taking the key's lock and calling `get` again leaves the state `MissedTwice` describes |
| VizCache.GotTwice | plotsense/visual_suggestion/viz_cache.py:498-518 | Two `get`s of one key at the same instant, with the key locked in between, are what `MissedTwice` describes |
| VizCache.MemoryTTLCache.Clear | plotsense/visual_suggestion/viz_cache.py:555-561 | Empties the dict, the recency list and the locks, and keeps the statistics |
| VizCache.MemoryTTLCache.GetEntryInfo | plotsense/visual_suggestion/viz_cache.py:583-598 | Reports on a stored key only, expired or not: its age, remaining TTL, access count and metadata |
| VizCache.StoreWellFormed | plotsense/visual_suggestion/viz_cache.py:446-454 | Writing a key keeps the insertion list and recency list duplicate-free listings of the keys |
| VizCache.ShrunkNothing | plotsense/visual_suggestion/viz_cache.py:307-322 | Removing nothing is a shrink |
| VizCache.ShrunkStep | plotsense/visual_suggestion/viz_cache.py:307-322 | Evicting a present key is a shrink that lowers the size by one |
| VizCache.NewestAfterHead | plotsense/visual_suggestion/viz_cache.py:186-189 | Dropping the head of a list longer than `c` keeps its last `c` elements |
| VizCache.ShrunkTrans | plotsense/visual_suggestion/viz_cache.py:459-461 | Successive evictions compose into one shrink |
| VizCache.WithPrefix | plotsense/visual_suggestion/viz_cache.py:546-548 | The doomed list holds exactly the stored keys starting with the prefix, without duplicates |
| VizCache.SweptNothing | plotsense/visual_suggestion/viz_cache.py:549-551 | Before the invalidation loop nothing is swept |
| VizCache.SweptStep | plotsense/visual_suggestion/viz_cache.py:549-551 | Each round of the invalidation loop extends the swept prefix by one key |
| VizCache.SweptExpiredNothing | plotsense/visual_suggestion/viz_cache.py:570-573 | Before the sweep nothing is swept |
| VizCache.SweptExpiredStep | plotsense/visual_suggestion/viz_cache.py:573-579 | Each round of the sweep removes the key exactly when it is expired |
| VizCache.SweptExpiredAll | plotsense/visual_suggestion/viz_cache.py:568-581 | A sweep over every key leaves exactly the unexpired entries |
| VizCache.NothingRemoved | plotsense/visual_suggestion/viz_cache.py:326-329 | Evicting an absent victim leaves the dict and both lists unchanged, so the loop makes no progress |
| VizCacheClient.CacheClient.constructor | plotsense/visual_suggestion/viz_cache.py:616-624 | Without a backend it builds the default store: 512 entries, a 3600-second TTL and a 0.1 jitter ratio |
| VizCacheClient.CacheClient.Get | plotsense/visual_suggestion/viz_cache.py:626-633 | Enabled: what the backend's `peek` would return, and the backend is left in the state `Got` describes. Disabled: `None`, with the backend unchanged |
| VizCacheClient.CacheClient.Peek | plotsense/visual_suggestion/viz_cache.py:635-639 | Enabled: exactly the backend's `peek`, so only a present, unexpired entry's value. Disabled: `None` |
| VizCacheClient.CacheClient.Set | plotsense/visual_suggestion/viz_cache.py:641-651 | Enabled: the backend ends in the state `WroteEntry` describes, as after the backend's own `set`. Disabled: nothing changes |
| VizCacheClient.CacheClient.GetOrCompute | plotsense/visual_suggestion/viz_cache.py:653-663 | Enabled: the result and backend state `ComputedFrom` describes, as after the backend's own `get_or_compute`. Disabled: the computation's own outcome, with the backend unchanged |
| VizCacheClient.CacheClient.Invalidate | plotsense/visual_suggestion/viz_cache.py:665-669 | Enabled: whether the key existed, and exactly what the backend's `invalidate` does: the key leaves the dict and both lists, one eviction is counted only when it existed, and the locks stay within the stored keys. Disabled: `False`, with the backend unchanged |
| VizCacheClient.CacheClient.InvalidatePattern | plotsense/visual_suggestion/viz_cache.py:671-675 | Enabled: exactly the keys with the prefix are removed from the dict and both lists, their number is returned and added to `evictions`, and the locks stay within the stored keys. Disabled: 0, with the backend unchanged |
| VizCacheClient.CacheClient.Clear | plotsense/visual_suggestion/viz_cache.py:677-681 | Enabled: the dict, both lists and the locks are emptied and the statistics kept. Disabled: nothing changes |
| VizCacheClient.CacheClient.Stats | plotsense/visual_suggestion/viz_cache.py:683-687 | Enabled: the statistics and their hit rate. Disabled: the empty report |
| VizCacheClient.CacheClient.Cleanup | plotsense/visual_suggestion/viz_cache.py:689-693 | Enabled: exactly the expired entries are removed from the dict and both lists, their number is returned and added to `expirations`, and the locks stay within the stored keys. Disabled: 0, with the backend unchanged |
| VizCacheClient.CacheClient.Info | plotsense/visual_suggestion/viz_cache.py:695-699 | Enabled: exactly the backend's entry report, present only for a stored key. Disabled: `None` |
| PlotRegistry.DefaultRequirements | plotsense/plot_generator/registry.py:6-10 | Defaults are min 1, max 2 and numeric-only |
| PlotRegistry.CheckNumeric | plotsense/plot_generator/registry.py:40-43 | True exactly when every variable is a numeric column. Otherwise the first variable that is not a numeric column decides: a missing column raises `KeyError` naming it, and a present non-numeric one gives False |
| PlotRegistry.ValidateSpec | plotsense/plot_generator/registry.py:30-44 | Defines what `validate` returns. ValidateCases states its cases, and the registry's Validate loop computes it |
| PlotRegistry.ValidateCases | plotsense/plot_generator/registry.py:30-44 | An unknown name gives False, and a count outside `[min, max]` gives False. Otherwise numeric-only defers to the column check, and the count alone decides without it |
| PlotRegistry.PlotTypeRegistry.constructor | plotsense/plot_generator/registry.py:15-16 | The registry starts empty |
| PlotRegistry.PlotTypeRegistry.Register | plotsense/plot_generator/registry.py:18-23 | Stores the entry under the lowercased name, replacing an earlier one. Every spelling of the name then finds the generator |
| PlotRegistry.PlotTypeRegistry.GetGenerator | plotsense/plot_generator/registry.py:25-28 | Case-insensitive lookup. `None` exactly for a name never registered |
| PlotRegistry.PlotTypeRegistry.Validate | plotsense/plot_generator/registry.py:30-44 | The loop computes `ValidateSpec`, whose cases `ValidateCases` states |
| PlotRegistry.PlotTypeRegistry.ListPlotTypes | plotsense/plot_generator/registry.py:46-48 | Each registered lowercased name exactly once, in first-registration order |
| ResponseParser.AfterColon | plotsense/visual_suggestion/recommender/response_parser.py:30-32 | The result is the line's suffix after its first colon: the character before it is a colon and no colon comes earlier. It is shorter than the line |
| ResponseParser.KnownColumns | plotsense/visual_suggestion/recommender/response_parser.py:34-39 | Only names that are columns of the frame are kept |
| ResponseParser.KnownColumnsOne | plotsense/visual_suggestion/recommender/response_parser.py:34-36 | One name is kept, stripped, exactly when its stripped form is a column |
| ResponseParser.KnownColumnsAppend | plotsense/visual_suggestion/recommender/response_parser.py:34-36 | The kept names of a concatenation are the kept names of each part, concatenated, so the input order is kept |
| ResponseParser.PlotTypeOf | plotsense/visual_suggestion/recommender/response_parser.py:29-30 | Defines the plot type a plot-type line sets: the stripped, lower-cased text after its first colon. LastPlotTypeLineWins and DraftSources state where it comes from |
| ResponseParser.VariablesOf | plotsense/visual_suggestion/recommender/response_parser.py:31-39 | Defines the variables a variables line sets: the stripped comma-separated names after the first colon that are columns, joined by ", ". KnownColumns, KnownColumnsOne and KnownColumnsAppend state its properties |
| ResponseParser.BlockLines | plotsense/visual_suggestion/recommender/response_parser.py:22 | The lines of a block are non-empty, stripped, and free of newlines |
| ResponseParser.LinesOfBlocks | plotsense/visual_suggestion/recommender/response_parser.py:16-22 | One list of lines per block. Every line is non-empty, stripped and free of newlines |
| ResponseParser.LastPlotTypeLineWins | plotsense/visual_suggestion/recommender/response_parser.py:27-30 | The plot type of a block comes from its last plot-type line |
| ResponseParser.PlotTypeKept | plotsense/visual_suggestion/recommender/response_parser.py:28-30 | Lines that are not plot-type lines leave the recorded plot type as it was |
| ResponseParser.LastVariablesLineWins | plotsense/visual_suggestion/recommender/response_parser.py:27-39 | The variables of a block come from its last variables line |
| ResponseParser.VariablesKept | plotsense/visual_suggestion/recommender/response_parser.py:28-39 | Lines that do not set the variables leave them as they were |
| ResponseParser.DraftAfterSnoc | plotsense/visual_suggestion/recommender/response_parser.py:28 | The record after one more line is that line's update of the record before it |
| ResponseParser.DraftSources | plotsense/visual_suggestion/recommender/response_parser.py:27-39 | A recorded plot type or variable list comes from some matching line of the block |
| ResponseParser.RecommendationsShape | plotsense/visual_suggestion/recommender/response_parser.py:41-43 | At most one recommendation per block. Each has a plot type, non-empty variables and `source_model == model` |
| ResponseParser.RecommendationsAppend | plotsense/visual_suggestion/recommender/response_parser.py:18-43 | Recommendations come out in block order |
| ResponseParser.ParseSpec | plotsense/visual_suggestion/recommender/response_parser.py:11-48 | Defines what `parse_recommendations` returns: one record per complete block, in block order. ParseRecommendations computes it, and RecommendationsShape and RecommendationsAppend state its properties |
| ResponseParser.FirstMissing | plotsense/visual_suggestion/recommender/response_parser.py:66-79 | Finds a variable that is not a column, or reports that all are columns |
| ResponseParser.NumericVarsMember | plotsense/visual_suggestion/recommender/response_parser.py:66-69 | The numeric group holds exactly the numeric variables |
| ResponseParser.DateVarsMember | plotsense/visual_suggestion/recommender/response_parser.py:71-74 | The date group holds exactly the datetime variables |
| ResponseParser.RegroupedMultiset | plotsense/visual_suggestion/recommender/response_parser.py:66-82 | The three groups together hold every variable exactly once |
| ResponseParser.RegroupedIsPermutation | plotsense/visual_suggestion/recommender/response_parser.py:61-86 | The reordered variables are a permutation of the input, with the datetime variables first |
| ResponseParser.ReorderVariables | plotsense/visual_suggestion/recommender/response_parser.py:61-86 | Defines the reordering of one row: a `KeyError` for the first missing column, else the datetime, numeric and remaining names joined by ", ". RegroupedIsPermutation and FirstMissing state its properties |
| ResponseParser.ValidateVariableOrderSpec | plotsense/visual_suggestion/recommender/response_parser.py:50-97 | Defines what `validate_variable_order` returns, row by row. ValidateVariableOrderRows states its properties |
| ResponseParser.DateVarsAre | plotsense/visual_suggestion/recommender/response_parser.py:71-74 | Every member of the date group is a datetime column |
| ResponseParser.ValidateVariableOrderRows | plotsense/visual_suggestion/recommender/response_parser.py:85-89 | Row count and every field but `variables` are kept. It fails exactly when some row names a missing column |
| ResponseParser.ResponseParser.constructor | plotsense/visual_suggestion/recommender/response_parser.py:7-9 | Keeps the frame and the debug flag |
| ResponseParser.ResponseParser.ParseRecommendations | plotsense/visual_suggestion/recommender/response_parser.py:11-48 | The nested loop computes `ParseSpec`: split on `---`, stripped blocks, one record per complete block, in order |
| ResponseParser.ResponseParser.ParseBlock | plotsense/visual_suggestion/recommender/response_parser.py:22-43 | The line loop of one block yields the block's recommendation, if complete |
| ResponseParser.ResponseParser.ValidateVariableOrder | plotsense/visual_suggestion/recommender/response_parser.py:50-97 | Keeps the row count and every field but `variables` |
| Strategy.PyIndex | plotsense/core/strategies/cost_optimized.py:32 | Python list indexing succeeds exactly for `-len <= i < len`, giving the element at `i` counted from the end when negative. Otherwise it raises `IndexError` |
| Strategy.PySliceTo | plotsense/core/strategies/cost_optimized.py:23 | Python slice `[:n]`, including negative `n` |
| Strategy.SelectClamped | plotsense/core/strategies/fallback_chain.py:13-20 | `ValueError` on an empty list. A non-negative iteration walks the list and then stays on its last model. A negative one indexes from the end, and below `-len` it raises `IndexError` |
| StableSort.WithRankAppend | plotsense/core/strategies/cost_optimized.py:14-17 | The elements of one rank, in order, distribute over concatenation |
| StableSort.InsertMultiset | plotsense/core/strategies/cost_optimized.py:14-17 | Insertion adds exactly the inserted element |
| StableSort.InsertSorted | plotsense/core/strategies/cost_optimized.py:14-17 | Insertion keeps a list sorted |
| StableSort.InsertWithRank | plotsense/core/strategies/cost_optimized.py:14-17 | Insertion places the element after every element of equal rank |
| StableSort.NoneWithRank | plotsense/core/strategies/cost_optimized.py:14-17 | No element of a sorted list ranks below its head |
| StableSort.SortBy | plotsense/core/strategies/cost_optimized.py:14-17 | Python's `sorted` with a key: the result is sorted, a permutation, and stable |
| RoundRobin.NewRoundRobin | plotsense/core/strategies/round_robin.py:7-10 | The model list is the given list unchanged |
| RoundRobin.SelectModel | plotsense/core/strategies/round_robin.py:12-19 | `ValueError` exactly when the list is empty. Otherwise a member of the list |
| RoundRobin.SelectModelPeriodic | plotsense/core/strategies/round_robin.py:18-19 | The choice repeats with period `len(model_list)` and ignores the explanation |
| RoundRobin.SelectModelCoversAll | plotsense/core/strategies/round_robin.py:18-19 | Any `len(model_list)` consecutive iterations visit every model |
| RoundRobin.ModShift | plotsense/core/strategies/round_robin.py:19 | Adding a multiple of the length leaves the index unchanged |
| FallbackChain.FallbackChainStrategy.constructor | plotsense/core/strategies/fallback_chain.py:7-11 | The model list is the given list, and the last success index starts at 0 |
| FallbackChain.FallbackChainStrategy.SelectModel | plotsense/core/strategies/fallback_chain.py:13-20 | `ValueError` exactly when empty. Otherwise `model_list[min(iteration, len-1)]`, and the last model from `len-1` on |
| FallbackChain.FallbackChainStrategy.ReportSuccess | plotsense/core/strategies/fallback_chain.py:22-24 | Records the index and changes nothing else |
| CostOptimized.NewCostOptimized | plotsense/core/strategies/cost_optimized.py:8-17 | The list is a permutation of the input, sorted by ascending cost with unknown names last. The sort is stable |
| CostOptimized.SelectModels | plotsense/core/strategies/cost_optimized.py:19-23 | The first `min(n, len)` models, which cost no more than any model left out |
| CostOptimized.SelectModel | plotsense/core/strategies/cost_optimized.py:25-32 | `ValueError` exactly when empty. Otherwise `model_list[min(iteration, len-1)]` |
| CostOptimized.SelectModelEscalates | plotsense/core/strategies/cost_optimized.py:25-32 | A later iteration never chooses a cheaper model |
| PerformanceOptimized.WithScoreIsWithRank | plotsense/core/strategies/performance_optimized.py:23-27 | Grouping by score is grouping by the sort key |
| PerformanceOptimized.NewPerformanceOptimized | plotsense/core/strategies/performance_optimized.py:14-27 | The list is a permutation of the input, sorted by descending score with unknown names scoring 0. The sort is stable |
| PerformanceOptimized.SelectModels | plotsense/core/strategies/performance_optimized.py:29-31 | The first `min(n, len)` models, which score at least as well as any model left out |
| PerformanceOptimized.SelectModel | plotsense/core/strategies/performance_optimized.py:33-40 | `ValueError` exactly when empty. Otherwise `model_list[min(iteration, len-1)]` |
| PerformanceOptimized.SelectModelFallsBack | plotsense/core/strategies/performance_optimized.py:33-40 | A later iteration never chooses a better-scoring model |
| Prompts.FormattedInstructions | plotsense/plot_chat/prompts.py:30-32 | One `"- " + stripped` line per non-blank instruction. Empty exactly when every instruction is blank |
| Prompts.FormattedInstructionsAppend | plotsense/plot_chat/prompts.py:30-32 | The lines follow the instructions in order |
| Prompts.GetInstructions | plotsense/plot_chat/prompts.py:25-33 | The result starts with the system prompt, and for an empty list it is the prompt alone. A non-empty list adds the separator after it, even when every instruction is blank, and then nothing more in that case. When no instruction holds a newline and one is not blank, the text after the separator splits on newlines back into the formatted lines |
| Prompts.BodyLines | plotsense/plot_chat/prompts.py:29-33 | The formatted lines, joined by newlines, split back into themselves |
| Prompts.PrefixOfAppend | plotsense/plot_chat/prompts.py:29-33 | The system prompt, and the prompt followed by the separator, are prefixes of the assembled text |
| Prompts.NoNewlineInFormatted | plotsense/plot_chat/prompts.py:30-32 | Formatting adds no line breaks |
| Streaming.DeltasAppend | plotsense/plot_chat/streaming.py:11-36 | Yielded text distributes over the event stream |
| Streaming.DeltasOfOne | plotsense/plot_chat/streaming.py:13-19 | A text-delta or transcript-delta event yields its delta. Every other event yields nothing |
| Streaming.ResponseStep | plotsense/plot_chat/streaming.py:25-30 | Defines how one event updates the response id: the first completed event sets it. ResponseIdAfterAppend, ResponseIdKept and FirstCompletionWins state its properties |
| Streaming.ItemStep | plotsense/plot_chat/streaming.py:13-24 | Defines how one event updates the item id: a text delta sets it when unset, and a done event always sets it. ItemIdAfterAppend, ItemIdKept and LastDoneWins state its properties |
| Streaming.ResponseIdAfterAppend | plotsense/plot_chat/streaming.py:25-30 | The response id is a left fold over the events |
| Streaming.ItemIdAfterAppend | plotsense/plot_chat/streaming.py:17-24 | The item id is a left fold over the events |
| Streaming.ResponseIdKept | plotsense/plot_chat/streaming.py:25-30 | A set response id is never overwritten |
| Streaming.ItemIdKept | plotsense/plot_chat/streaming.py:17-18 | A set item id is kept until a done event |
| Streaming.FirstCompletionWins | plotsense/plot_chat/streaming.py:8-9 | The first completed event's id is the response id |
| Streaming.LastDoneWins | plotsense/plot_chat/streaming.py:20-24 | The last done event's id is the item id |
| Streaming.ChatStreamWrapper.constructor | plotsense/plot_chat/streaming.py:6-9 | Both ids start unset |
| Streaming.ChatStreamWrapper.Iterate | plotsense/plot_chat/streaming.py:11-36 | The loop yields exactly `Deltas` of the stream, and leaves the ids as the folds compute them |
| Text.Strip | plotsense/visual_suggestion/viz_cache.py:89 | `str.strip()`: the result has no surrounding whitespace, keeps only input characters, and is empty exactly for all-whitespace input |
| Text.StripTrims | plotsense/visual_suggestion/viz_cache.py:89 | The result of `strip` is the infix of the input left when an all-whitespace prefix and an all-whitespace suffix are cut off |
| Text.TrimmedFront | plotsense/visual_suggestion/viz_cache.py:89 | Cutting a leading space and then trimming is trimming |
| Text.TrimmedFrontAt | plotsense/visual_suggestion/viz_cache.py:89 | A cut of the tail with only white space around it, moved one place right, is a cut of the whole string with only white space around it |
| Text.TrimmedBack | plotsense/visual_suggestion/viz_cache.py:89 | Cutting a trailing space and then trimming is trimming |
| Text.StripIdempotent | plotsense/visual_suggestion/viz_cache.py:89 | Stripping twice equals stripping once |
| Text.Lower | plotsense/plot_generator/registry.py:20 | `str.lower()` keeps the length and leaves no ASCII capital. Each capital becomes its small letter, and every other character is kept |
| Text.LowerCaseBlind | plotsense/plot_generator/registry.py:20-27 | Two names lower to the same string exactly when they differ only in ASCII letter case, so every spelling of a registered name finds it |
| Text.LowerIdempotent | plotsense/plot_generator/registry.py:27 | Lowercasing twice equals lowercasing once, so lookups by a lowercased name agree |
| Text.IndexOf | plotsense/visual_suggestion/recommender/response_parser.py:16 | Finds the first occurrence of a separator |
| Text.Split | plotsense/visual_suggestion/recommender/response_parser.py:16 | `str.split(sep)`: joining the parts gives back the input, no part contains the separator, and each cut is at the leftmost separator after the previous cut |
| Text.CutsLeftmostCons | plotsense/visual_suggestion/recommender/response_parser.py:16 | Cutting at the first occurrence of the separator, then splitting the rest leftmost-first, cuts leftmost-first throughout |
| Text.SplitJoin | plotsense/visual_suggestion/viz_cache.py:89 | Splitting a newline-joined list of newline-free lines gives back the list |
| Text.SplitLines | plotsense/visual_suggestion/viz_cache.py:89 | `str.splitlines()`: the input is the lines glued back with their terminators. Each terminator is one line-break character or `\r\n`, and only the last may be missing. No line holds a line break, and a lone `\r` terminator is not followed by `\n`. The result is empty exactly for empty input |
| Text.LineReadingCons | plotsense/visual_suggestion/viz_cache.py:89 | Reading the first line and its terminator, then the rest, is a reading of the whole text |
| Text.StrippedNonBlank | plotsense/visual_suggestion/viz_cache.py:89 | The kept lines are stripped and non-empty |
| Text.StrippedNonBlankOne | plotsense/visual_suggestion/viz_cache.py:89 | One piece is dropped when blank, and otherwise kept stripped |
| Text.StrippedNonBlankAppend | plotsense/visual_suggestion/viz_cache.py:89 | The kept pieces of a concatenation are those of each part, concatenated, so the order is kept |
| Text.StrippedNonBlankChars | plotsense/visual_suggestion/viz_cache.py:89 | Stripping adds no characters |

## Left out

- Threads and locks in the cache. The model omits the reentrant lock, the
  non-blocking per-key lock, the `lock_contentions` path of `get_or_compute`,
  the background cleanup thread, and `close`/`__del__` on the cache and the
  client. The model is sequential, and `keyLocks` is only the set of keys
  that have a lock.
- VizCache.MemoryTTLCache.GetOrCompute: the double-checked `get` is modelled
  sequentially, so it never finds a value that another thread stored in the
  meantime. The second lookup sees the state the first one left: it misses
  again for an absent or expired key, and for a live entry holding `None` it
  counts a second hit and touches the entry again.
- The wall clock and `timed_compute`. Time is the integer parameter `now`,
  and the elapsed milliseconds come with the computation's outcome.
  `get_or_compute` takes two clock readings: `now` for its lookups and
  `setNow` for the `set` after the computation.
  Fractional seconds are not modelled.
- The random choice in `_apply_ttl_jitter`. It is an unconstrained choice
  within the documented bounds.
- JSON serialisation in `_value_size_ok`. The size is an abstract function
  whose failure lets the value through.
- Floating point. Costs, scores, the hit rate and compute times are reals.
- `HashUtils`, `schema_signature`, `weights_signature`, `CacheKeyBuilder` and
  `create_cache`. These are SHA-256 and JSON over data frames; keys are plain
  strings here.
- Stateful custom eviction policies. A custom policy is a pure function of
  the entries and the recency list.
- Text.Lower: only ASCII letters are mapped. Python's `str.lower` also maps
  non-ASCII capitals.
- Logging and the debug prints of the parser and the cache.
- `generate_chat_title_prompt` in the prompts file. It is not part of this
  model.
- The `except` branch of `parse_recommendations`. The modelled operations
  raise nothing there, so the branch is not reachable.
- The data frame is abstract: a set of columns with numeric and datetime
  predicates. `validate_variable_order` is modelled on rows with a
  `variables` field and an opaque rest.
- The abstract `Strategy` base class. It has no logic of its own.
- VizCache.MemoryTTLCache.EvictOverCapacity: the Python loop spins forever
  when the policy names no present non-empty key while over capacity. The
  model reports this with the `hung` flag instead of looping, and proves it
  cannot happen for self-evicting policies.
