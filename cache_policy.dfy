/**
 * The value-level part of the visualisation cache: entries, statistics, the victim
 * policies, TTL jitter, the size guard, `normalize_prompt`, and the list operations
 * (`list.remove`, filtering) that keep the recency list in step with the entries.
 */
module CachePolicy {
  import opened Wrappers
  import opened Text

  // ---------- statistics ----------

  /** `CacheStats`: event counters; the saved compute time is a float in the source. */
  datatype Stats = Stats(
    hits: nat,
    misses: nat,
    evictions: nat,
    expirations: nat,
    sets: nat,
    totalSize: nat,
    savedMs: real,
    lockContentions: nat)

  const ZeroStats := Stats(0, 0, 0, 0, 0, 0, 0.0, 0)

  /** `CacheStats.hit_rate`: the share of lookups that hit, 0 before any lookup. */
  function HitRate(s: Stats): (r: real)
    ensures 0.0 <= r <= 1.0
    ensures s.hits + s.misses > 0 ==> r * (s.hits + s.misses) as real == s.hits as real
    ensures s.hits + s.misses == 0 ==> r == 0.0
    ensures r == 1.0 <==> s.hits > 0 && s.misses == 0
  {
    var total := s.hits + s.misses;
    if total > 0 then s.hits as real / total as real else 0.0
  }

  // ---------- entries and metadata ----------

  /**
   * A metadata value as `get` sees it: Python `None`, or some other object whose
   * `float()` conversion either yields a number or raises (`None` here).
   */
  datatype MetaValue = NoneValue | Value(asFloat: Option<real>)

  /** The optional metadata dictionary of an entry. */
  type Metadata = Option<map<string, MetaValue>>

  const LastComputeMs := "last_compute_ms"

  /**
   * `CacheEntry`. Times are whole seconds; `value` is `None` when the cached
   * Python value itself is `None`.
   */
  datatype Entry<V> = Entry(
    value: Option<V>,
    expiresAt: int,
    createdAt: int,
    key: string,
    metadata: Metadata,
    accessCount: nat,
    lastAccessed: int)

  /** `CacheEntry.is_expired` at time `now`. */
  predicate Expired<V>(e: Entry<V>, now: int) {
    now >= e.expiresAt
  }

  /** The entry after `_touch`: one more access, last accessed now. */
  function Touched<V>(e: Entry<V>, now: int): Entry<V> {
    e.(accessCount := e.accessCount + 1, lastAccessed := now)
  }

  /** The metadata holds a `last_compute_ms` that `float()` converts to a number. */
  predicate HasComputeTime(metadata: Metadata) {
    metadata.Some? && LastComputeMs in metadata.value
      && metadata.value[LastComputeMs].Value? && metadata.value[LastComputeMs].asFloat.Some?
  }

  /**
   * What a hit adds to `total_compute_time_saved_ms`: the entry's `last_compute_ms`
   * when it is present, not None and convertible by `float()`, otherwise nothing.
   */
  function Credit(metadata: Metadata): (r: real)
    ensures r != 0.0 ==> metadata.Some? && LastComputeMs in metadata.value
    ensures HasComputeTime(metadata) ==> r == metadata.value[LastComputeMs].asFloat.value
    ensures !HasComputeTime(metadata) ==> r == 0.0
  {
    if metadata.Some? && LastComputeMs in metadata.value then
      match metadata.value[LastComputeMs]
      case Value(Some(ms)) => ms
      case _ => 0.0
    else 0.0
  }

  /**
   * The metadata `get_or_compute` stores with a computed value: a copy of the caller's
   * dictionary (empty when none was given) in which a caller's own `last_compute_ms` is
   * kept and otherwise the measured time is added.
   */
  function WithComputeTime(metadata: Metadata, ms: real): (r: Metadata)
    ensures r.Some? && LastComputeMs in r.value
    ensures metadata.Some? && LastComputeMs in metadata.value ==> r == metadata
    ensures !(metadata.Some? && LastComputeMs in metadata.value) ==> r.value[LastComputeMs] == Value(Some(ms))
    ensures forall k :: k != LastComputeMs ==>
      (k in r.value <==> metadata.Some? && k in metadata.value)
    ensures forall k :: k != LastComputeMs && k in r.value ==> r.value[k] == metadata.value[k]
  {
    var meta := if metadata.Some? then metadata.value else map[];
    if LastComputeMs in meta then Some(meta) else Some(meta[LastComputeMs := Value(Some(ms))])
  }

  /** A stored compute time is credited in full on a later hit. */
  lemma CreditOfComputeTime(metadata: Metadata, ms: real)
    requires !(metadata.Some? && LastComputeMs in metadata.value)
    ensures Credit(WithComputeTime(metadata, ms)) == ms
  {
  }

  // ---------- TTL jitter and size guard ----------

  /** Python's `int(x)` on a float: truncation toward zero. */
  function Trunc(x: real): (r: int)
    ensures x >= 0.0 ==> r as real <= x < r as real + 1.0
    ensures x < 0.0 ==> r as real - 1.0 < x <= r as real
  {
    if x >= 0.0 then x.Floor else -((-x).Floor)
  }

  /** `int(ttl * ttl_jitter_ratio)`: the largest offset the jitter may apply. */
  function JitterDelta(ttl: int, ratio: real): int {
    Trunc(ttl as real * ratio)
  }

  /** The TTLs `_apply_ttl_jitter` can return: `ttl` itself, or `ttl` moved by at most `delta`. */
  predicate JitteredTtl(ttl: int, ratio: real, r: int) {
    var delta := JitterDelta(ttl, ratio);
    if ratio <= 0.0 || delta <= 0 then r == ttl else ttl - delta <= r <= ttl + delta
  }

  /** `max(1, x)`. */
  function AtLeastOne(x: int): int {
    if x >= 1 then x else 1
  }

  /** The effective TTLs `set` can store: `max(1, _apply_ttl_jitter(ttl))`, as a range. */
  predicate EffectiveTtl(ttl: int, ratio: real, eff: int) {
    var delta := JitterDelta(ttl, ratio);
    if ratio <= 0.0 || delta <= 0 then eff == AtLeastOne(ttl)
    else AtLeastOne(ttl - delta) <= eff <= AtLeastOne(ttl + delta)
  }

  /** Clamping a jittered TTL to at least one second gives exactly the effective range. */
  lemma EffectiveTtlOfJitter(ttl: int, ratio: real, jittered: int)
    requires JitteredTtl(ttl, ratio, jittered)
    ensures EffectiveTtl(ttl, ratio, AtLeastOne(jittered))
    ensures AtLeastOne(jittered) >= 1
  {
  }

  /** Every value of the effective range is reached by some jitter. */
  lemma EffectiveTtlReachable(ttl: int, ratio: real, eff: int)
    requires EffectiveTtl(ttl, ratio, eff)
    ensures exists jittered :: JitteredTtl(ttl, ratio, jittered) && AtLeastOne(jittered) == eff
  {
    var delta := JitterDelta(ttl, ratio);
    if ratio <= 0.0 || delta <= 0 {
      assert JitteredTtl(ttl, ratio, ttl) && AtLeastOne(ttl) == eff;
    } else if eff == 1 {
      var j := ttl - delta;
      assert JitteredTtl(ttl, ratio, j) && AtLeastOne(j) == eff;
    } else {
      assert JitteredTtl(ttl, ratio, eff) && AtLeastOne(eff) == eff;
    }
  }

  /**
   * `_value_size_ok`: no limit, a size that could not be estimated (fails open), or a
   * JSON size within the limit.
   */
  predicate ValueSizeOk(maxValueBytes: Option<int>, size: Option<nat>) {
    maxValueBytes.None? || size.None? || size.value <= maxValueBytes.value
  }

  // ---------- key lists ----------

  /** No key occurs twice. */
  predicate NoDup(s: seq<string>) {
    forall i, j :: 0 <= i < j < |s| ==> s[i] != s[j]
  }

  /** `s` lists the keys of `d`, each exactly once. */
  ghost predicate Listing(s: seq<string>, d: set<string>) {
    NoDup(s) && (forall x :: x in s <==> x in d)
  }

  lemma ListingSize(s: seq<string>, d: set<string>)
    requires Listing(s, d)
    ensures |s| == |d|
  {
    if s != [] {
      var t := s[1..];
      assert Listing(t, d - {s[0]}) by {
        forall x ensures x in t <==> x in d - {s[0]} {
          if x in t {
            var i :| 0 <= i < |t| && t[i] == x;
            assert s[i + 1] == x;
          }
          if x in s && x != s[0] {
            var i :| 0 <= i < |s| && s[i] == x;
            assert t[i - 1] == x;
          }
        }
      }
      ListingSize(t, d - {s[0]});
    }
  }

  /** `list.remove(x)` with the `ValueError` swallowed: drops the first `x`, if any. */
  function RemoveFirst(s: seq<string>, x: string): (r: seq<string>)
    ensures x !in s ==> r == s
    ensures x in s ==> |r| == |s| - 1
  {
    if s == [] then []
    else if s[0] == x then s[1..]
    else [s[0]] + RemoveFirst(s[1..], x)
  }

  /** `list.remove(x)` takes away one `x` and nothing else. */
  lemma {:induction false} RemoveFirstMultiset(s: seq<string>, x: string)
    ensures multiset(RemoveFirst(s, x)) == multiset(s) - multiset{x}
  {
    if s != [] {
      assert s == [s[0]] + s[1..];
      if s[0] != x {
        RemoveFirstMultiset(s[1..], x);
      }
    }
  }

  /** The keys of `s` not in `dead`, in order. */
  function Without(s: seq<string>, dead: set<string>): (r: seq<string>)
    ensures |r| <= |s|
    ensures forall x :: x in r <==> x in s && x !in dead
  {
    if s == [] then []
    else (if s[0] in dead then [] else [s[0]]) + Without(s[1..], dead)
  }

  /** `_touch` on the recency list: the key moves (or is appended) to the end. */
  function MoveToEnd(s: seq<string>, x: string): (r: seq<string>)
    ensures |r| > 0 && r[|r| - 1] == x
  {
    RemoveFirst(s, x) + [x]
  }

  /** On a duplicate-free list, removing the first occurrence removes the key. */
  lemma {:induction false} RemoveFirstIsWithout(s: seq<string>, x: string)
    requires NoDup(s)
    ensures RemoveFirst(s, x) == Without(s, {x})
  {
    if s != [] {
      if s[0] == x {
        assert x !in s[1..] by {
          forall i | 0 <= i < |s[1..]| ensures s[1..][i] != x {
            assert s[1..][i] == s[i + 1];
          }
        }
        WithoutNone(s[1..], {x});
      } else {
        RemoveFirstIsWithout(s[1..], x);
      }
    }
  }

  /** Filtering out keys that do not occur changes nothing. */
  lemma {:induction false} WithoutNone(s: seq<string>, dead: set<string>)
    requires forall x :: x in dead ==> x !in s
    ensures Without(s, dead) == s
  {
    if s != [] {
      assert s[0] in s;
      WithoutNone(s[1..], dead);
      assert s == [s[0]] + s[1..];
    }
  }

  /** Filtering twice is filtering once by both sets. */
  lemma {:induction false} WithoutWithout(s: seq<string>, a: set<string>, b: set<string>)
    ensures Without(Without(s, a), b) == Without(s, a + b)
  {
    if s != [] {
      WithoutWithout(s[1..], a, b);
      var h := if s[0] in a then [] else [s[0]];
      assert Without(s, a) == h + Without(s[1..], a);
      WithoutAppend(h, Without(s[1..], a), b);
      if s[0] !in a {
        assert Without(h, b) == (if s[0] in b then [] else [s[0]]) + Without([], b);
      }
    }
  }

  lemma {:induction false} WithoutAppend(s: seq<string>, t: seq<string>, dead: set<string>)
    ensures Without(s + t, dead) == Without(s, dead) + Without(t, dead)
  {
    if s == [] {
      assert s + t == t;
    } else {
      assert (s + t)[1..] == s[1..] + t;
      WithoutAppend(s[1..], t, dead);
    }
  }

  /** A filtered listing lists the surviving keys. */
  lemma {:induction false} WithoutListing(s: seq<string>, d: set<string>, dead: set<string>)
    requires Listing(s, d)
    ensures Listing(Without(s, dead), d - dead)
  {
    WithoutNoDup(s, dead);
  }

  lemma {:induction false} WithoutNoDup(s: seq<string>, dead: set<string>)
    requires NoDup(s)
    ensures NoDup(Without(s, dead))
  {
    if s != [] {
      var t := s[1..];
      assert NoDup(t) by {
        forall i, j | 0 <= i < j < |t| ensures t[i] != t[j] {
          assert t[i] == s[i + 1] && t[j] == s[j + 1];
        }
      }
      WithoutNoDup(t, dead);
      assert s[0] !in t by {
        forall i | 0 <= i < |t| ensures t[i] != s[0] {
          assert t[i] == s[i + 1];
        }
      }
      var h := if s[0] in dead then [] else [s[0]];
      var w := Without(t, dead);
      assert s[0] !in w;
      forall i, j | 0 <= i < j < |h + w| ensures (h + w)[i] != (h + w)[j] {
        if i < |h| {
          assert (h + w)[j] == w[j - |h|];
        } else {
          assert (h + w)[i] == w[i - |h|] && (h + w)[j] == w[j - |h|];
        }
      }
    }
  }

  /** Writing a key grows a map by one exactly when the key was new. */
  lemma MapUpdateSize<V>(m: map<string, V>, k: string, v: V)
    ensures |m[k := v]| == |m| + (if k in m then 0 else 1)
  {
    if k in m {
      assert m[k := v].Keys == m.Keys;
    } else {
      assert m[k := v].Keys == m.Keys + {k};
    }
  }

  /** Removing a present key shrinks a map by one. */
  lemma MapRemoveSize<V>(m: map<string, V>, k: string)
    requires k in m
    ensures |m - {k}| == |m| - 1
  {
    assert (m - {k}).Keys == m.Keys - {k};
  }

  /** A second write to a key replaces the first. */
  lemma MapOverwrite<V>(m: map<string, V>, k: string, a: V, b: V)
    ensures m[k := a][k := b] == m[k := b]
  {
  }

  /** Appending a new key to a listing lists one more key. */
  lemma AppendListing(s: seq<string>, d: set<string>, x: string)
    requires Listing(s, d) && x !in d
    ensures Listing(s + [x], d + {x})
  {
    forall i, j | 0 <= i < j < |s + [x]| ensures (s + [x])[i] != (s + [x])[j] {
      if j == |s| {
        assert (s + [x])[i] == s[i];
        assert s[i] in s;
      }
    }
  }

  /** Moving a listed key to the end keeps the listing and puts that key last. */
  lemma MoveToEndListing(s: seq<string>, d: set<string>, x: string)
    requires Listing(s, d) && x in d
    ensures Listing(MoveToEnd(s, x), d)
  {
    RemoveFirstIsWithout(s, x);
    WithoutListing(s, d, {x});
    AppendListing(Without(s, {x}), d - {x}, x);
    assert d - {x} + {x} == d;
  }

  // ---------- victim policies ----------

  /**
   * An eviction policy: LRU (`order[0]`), LFU (fewest accesses), TTL (soonest
   * expiry), or a caller's own choice from the entries, their dictionary order
   * and the recency list.
   */
  datatype Policy<!V> =
    | LRU
    | LFU
    | TTL
    | Custom(select: (map<string, Entry<V>>, seq<string>, seq<string>) -> Option<string>)

  /** `min(scores)`'s position as Python finds it: the first of the smallest. */
  function FirstMinIndex(scores: seq<int>): (i: nat)
    requires |scores| > 0
    ensures i < |scores|
    ensures forall j :: 0 <= j < |scores| ==> scores[i] <= scores[j]
    ensures forall j :: 0 <= j < i ==> scores[j] > scores[i]
  {
    if |scores| == 1 then 0
    else
      var i := FirstMinIndex(scores[..|scores| - 1]);
      assert forall j :: 0 <= j < |scores| - 1 ==> scores[..|scores| - 1][j] == scores[j];
      if scores[|scores| - 1] < scores[i] then |scores| - 1 else i
  }

  /** The score of every listed key under a built-in policy. */
  function Scores<V>(keys: seq<string>, data: map<string, Entry<V>>, byAccess: bool): seq<int>
    requires forall i :: 0 <= i < |keys| ==> keys[i] in data
  {
    seq(|keys|, i requires 0 <= i < |keys| =>
      if byAccess then data[keys[i]].accessCount else data[keys[i]].expiresAt)
  }

  /**
   * The victim the policy names, given the entries and the recency list; `keys` is the
   * dictionary's iteration order, which decides ties for LFU and TTL.
   */
  function SelectVictim<V>(policy: Policy<V>, data: map<string, Entry<V>>, keys: seq<string>,
                           order: seq<string>): (r: Option<string>)
    requires Listing(keys, data.Keys)
    ensures policy.LRU? ==> (r.None? <==> order == [])
    ensures policy.LRU? && r.Some? ==> r.value == order[0]
    ensures policy.LRU? && Listing(order, data.Keys) ==> (r.None? <==> data == map[]) && (r.Some? ==> r.value in data)
    ensures (policy.LFU? || policy.TTL?) ==> (r.None? <==> data == map[])
    ensures (policy.LFU? || policy.TTL?) && r.Some? ==> r.value in data
  {
    match policy
    case LRU =>
      if order != [] then
        assert order[0] in order;
        Some(order[0])
      else
        assert Listing(order, data.Keys) ==> data == map[] by {
          if Listing(order, data.Keys) && data != map[] {
            ListingNonEmpty(order, data);
          }
        }
        None
    case LFU =>
      if data == map[] then None
      else
        ListingNonEmpty(keys, data);
        Some(keys[FirstMinIndex(Scores(keys, data, true))])
    case TTL =>
      if data == map[] then None
      else
        ListingNonEmpty(keys, data);
        Some(keys[FirstMinIndex(Scores(keys, data, false))])
    case Custom(select) => select(data, keys, order)
  }

  /**
   * LFU picks a least-used entry, and among equals the first in dictionary order;
   * TTL likewise picks the soonest to expire.
   */
  lemma SelectVictimLeast<V>(policy: Policy<V>, data: map<string, Entry<V>>, keys: seq<string>,
                             order: seq<string>)
    requires Listing(keys, data.Keys)
    requires policy.LFU? || policy.TTL?
    requires data != map[]
    ensures var v := SelectVictim(policy, data, keys, order);
      && v.Some? && v.value in data
      && (forall k :: k in data ==> Score(policy, data[v.value]) <= Score(policy, data[k]))
      && (forall i :: 0 <= i < |keys| && Score(policy, data[keys[i]]) == Score(policy, data[v.value])
            ==> Position(keys, v.value) <= i)
  {
    var v := SelectVictim(policy, data, keys, order);
    var s := Scores(keys, data, policy.LFU?);
    var m := FirstMinIndex(s);
    assert v == Some(keys[m]);
    forall k | k in data ensures Score(policy, data[v.value]) <= Score(policy, data[k]) {
      assert k in keys;
      var j :| 0 <= j < |keys| && keys[j] == k;
      assert s[m] <= s[j];
    }
    PositionListed(keys, m);
    forall i | 0 <= i < |keys| && Score(policy, data[keys[i]]) == Score(policy, data[v.value])
      ensures m <= i
    {
      assert s[i] == s[m];
    }
  }

  /** The quantity a built-in LFU or TTL policy minimises. */
  function Score<V>(policy: Policy<V>, e: Entry<V>): int {
    if policy.LFU? then e.accessCount else e.expiresAt
  }

  /** The position of a key in a list (its first occurrence). */
  function Position(s: seq<string>, x: string): (i: nat)
    ensures x in s ==> i < |s| && s[i] == x && x !in s[..i]
    ensures x !in s ==> i == |s|
  {
    if s == [] then 0
    else if s[0] == x then 0
    else
      var i := Position(s[1..], x);
      assert s[1..][..i] == s[1..i + 1];
      assert s[..i + 1] == [s[0]] + s[1..i + 1];
      i + 1
  }

  lemma PositionListed(s: seq<string>, m: nat)
    requires NoDup(s) && m < |s|
    ensures Position(s, s[m]) == m
  {
  }

  lemma ListingNonEmpty<V>(keys: seq<string>, data: map<string, Entry<V>>)
    requires Listing(keys, data.Keys) && data != map[]
    ensures keys != []
  {
    var k :| k in data;
    assert k in keys;
  }

  // ---------- prompt normalisation ----------

  /**
   * `normalize_prompt`: the stripped, non-blank lines of the stripped prompt, joined by
   * newlines. Splitting the result on newlines gives those lines back, in order, and the
   * result is empty exactly when there are none.
   */
  function NormalizePrompt(s: string): (r: string)
    ensures var lines := StrippedNonBlank(SplitLines(Strip(s)));
      && (r == "" <==> lines == [])
      && (lines != [] ==> Split(r, "\n") == lines)
      && (forall k :: 0 <= k < |lines| ==> lines[k] != "" && Stripped(lines[k]) && '\n' !in lines[k])
  {
    var raw := SplitLines(Strip(s));
    var lines := StrippedNonBlank(raw);
    forall k | 0 <= k < |raw| ensures '\n' !in raw[k] {
      assert NoLineBreak(raw[k]);
      if '\n' in raw[k] {
        var i :| 0 <= i < |raw[k]| && raw[k][i] == '\n';
        assert IsLineBreak(raw[k][i]);
      }
    }
    StrippedNonBlankChars(raw, '\n');
    if lines != [] then
      SplitJoin(lines, '\n');
      assert |lines[0]| > 0;
      JoinNonEmpty(lines, "\n");
      Join(lines, "\n")
    else
      Join(lines, "\n")
  }

  lemma JoinNonEmpty(parts: seq<string>, sep: string)
    requires |parts| > 0 && |parts[0]| > 0
    ensures Join(parts, sep) != ""
  {
  }
}
