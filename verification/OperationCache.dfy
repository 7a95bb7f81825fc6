/** The operation cache of `crates/store-android/src/cache.rs`: a bounded map that drops
    its oldest entry, against the unbounded map of last additions. Whether a last addition
    still is what the Keystore holds is the business of module `KeystoreOps`. */
module OperationCaches {
  import opened Machine

  const CACHE_LIMIT: nat := 100

  datatype CachedOperation = CachedOperation(key: string, data: Bytes, cachedAt: u64, ttl: u64)

  type Entries = map<string, CachedOperation>

  /** `cached_at` and the clock are in milliseconds, `ttl` in seconds. */
  predicate IsFresh(op: CachedOperation, now: u64) {
    SaturatingSub(now, op.cachedAt) < SaturatingMul(op.ttl, 1000)
  }

  /** Freshness in plain integers: an entry as old as the clock says, or new when the clock
      went back, is fresh while its age in milliseconds is below a thousand times its time
      to live, or below the largest number when that product is not representable. */
  predicate IsYoung(cachedAt: u64, ttl: u64, now: u64) {
    if ttl * 1000 > U64_MAX then now - cachedAt < U64_MAX
    else if cachedAt <= now then now - cachedAt < ttl * 1000
    else ttl > 0
  }

  /** The saturating test of the source is the plain one. */
  lemma FreshMeansYoung(op: CachedOperation, now: u64)
    ensures IsFresh(op, now) <==> IsYoung(op.cachedAt, op.ttl, now)
    ensures op.cachedAt <= now && op.ttl * 1000 <= U64_MAX ==> (IsFresh(op, now) <==> now - op.cachedAt < op.ttl * 1000)
    ensures now < op.cachedAt ==> (IsFresh(op, now) <==> op.ttl > 0)
    ensures op.cachedAt <= now && op.ttl * 1000 > U64_MAX ==> (IsFresh(op, now) <==> now - op.cachedAt < U64_MAX)
  {
  }

  /** `key` has a minimal time stamp. Which of several minimal entries a hash map
      yields first is not determined. */
  predicate IsOldest(entries: Entries, key: string) {
    key in entries && forall k :: k in entries ==> entries[key].cachedAt <= entries[k].cachedAt
  }

  /** `after` is a possible outcome of adding to an enabled cache. */
  ghost predicate Adds(before: Entries, key: string, op: CachedOperation, after: Entries) {
    if |before| >= CACHE_LIMIT
    then exists oldest :: IsOldest(before, oldest) && after == (before - {oldest})[key := op]
    else after == before[key := op]
  }

  lemma {:induction false} OldestExists(entries: Entries, keys: set<string>) returns (oldest: string)
    requires keys != {} && keys <= entries.Keys
    ensures oldest in keys && forall k :: k in keys ==> entries[oldest].cachedAt <= entries[k].cachedAt
  {
    var x :| x in keys;
    if keys == {x} {
      oldest := x;
    } else {
      oldest := OldestExists(entries, keys - {x});
      if entries[x].cachedAt < entries[oldest].cachedAt {
        oldest := x;
      }
    }
  }

  class OperationCache {
    var entries: Entries
    const enableCaching: bool
    const cacheTtl: u64

    constructor (enableCaching: bool, cacheTtl: u64)
      ensures this.enableCaching == enableCaching && this.cacheTtl == cacheTtl && entries == map[]
    {
      this.enableCaching, this.cacheTtl, entries := enableCaching, cacheTtl, map[];
    }

    method GetFromCache(key: string, now: u64) returns (data: Option<Bytes>)
      ensures data == Lookup(entries, key, now)
      ensures data.Some? <==> key in entries && IsYoung(entries[key].cachedAt, entries[key].ttl, now)
      ensures data.Some? ==> data.value == entries[key].data
    {
      if key in entries {
        FreshMeansYoung(entries[key], now);
      }
      if key in entries {
        var cached := entries[key];
        if SaturatingSub(now, cached.cachedAt) < SaturatingMul(cached.ttl, 1000) {
          return Some(cached.data);
        }
      }
      return None;
    }

    method AddToCache(key: string, data: Bytes, now: u64)
      modifies this
      ensures Step(Config(enableCaching, cacheTtl), old(entries), Add(key, data, now), entries)
    {
      if !enableCaching {
        return;
      }
      if |entries| >= CACHE_LIMIT {
        ghost var _ := OldestExists(entries, entries.Keys);
        var victim :| victim in entries && IsOldest(entries, victim);
        entries := entries - {victim};
      }
      entries := entries[key := CachedOperation(key, data, now, cacheTtl)];
    }

    method RemoveFromCache(key: string)
      modifies this
      ensures Step(Config(enableCaching, cacheTtl), old(entries), Remove(key), entries)
    {
      entries := entries - {key};
    }

    method ClearCache()
      modifies this
      ensures Step(Config(enableCaching, cacheTtl), old(entries), Clear, entries)
    {
      entries := map[];
    }
  }

  function Lookup(entries: Entries, key: string, now: u64): Option<Bytes> {
    if key in entries && IsFresh(entries[key], now) then Some(entries[key].data) else None
  }

  // ----- Runs -----

  datatype Config = Config(enabled: bool, ttl: u64)

  datatype Event = Add(key: string, data: Bytes, now: u64) | Remove(key: string) | Clear

  ghost predicate Step(config: Config, before: Entries, e: Event, after: Entries) {
    match e
    case Add(key, data, now) =>
      if config.enabled then Adds(before, key, CachedOperation(key, data, now, config.ttl), after) else after == before
    case Remove(key) => after == before - {key}
    case Clear => after == map[]
  }

  /** `states` are the contents of a fresh cache before and after each of `events`. */
  ghost predicate IsRun(config: Config, events: seq<Event>, states: seq<Entries>) {
    && |states| == |events| + 1
    && states[0] == map[]
    && forall i :: 0 <= i < |events| ==> Step(config, states[i], events[i], states[i + 1])
  }

  lemma StepAt(config: Config, events: seq<Event>, states: seq<Entries>, i: nat)
    requires IsRun(config, events, states) && i < |events|
    ensures |states| == |events| + 1 && Step(config, states[i], events[i], states[i + 1])
  {
  }

  // ----- The reference: the last addition of each key -----

  /** An addition that no later removal or clearing has taken back, with its position. */
  datatype Addition = Addition(data: Bytes, at: u64, position: nat)

  /** The live additions after the first `n` events: unbounded, and nothing expires. */
  function LastAdditions(events: seq<Event>, n: nat): map<string, Addition>
    requires n <= |events|
  {
    if n == 0 then map[]
    else
      var earlier := LastAdditions(events, n - 1);
      match events[n - 1]
      case Add(key, data, now) => earlier[key := Addition(data, now, n - 1)]
      case Remove(key) => earlier - {key}
      case Clear => map[]
  }

  lemma {:induction false} AdditionPositions(events: seq<Event>, n: nat)
    requires n <= |events|
    ensures forall k :: k in LastAdditions(events, n) ==>
              var w := LastAdditions(events, n)[k];
              w.position < n && events[w.position] == Add(k, w.data, w.at)
  {
    if n > 0 {
      AdditionPositions(events, n - 1);
    }
  }

  // ----- Coherence and bound: no assumption on the clock -----

  /** Every entry is the live addition of its key, unchanged. */
  ghost predicate Coherent(config: Config, entries: Entries, live: map<string, Addition>) {
    forall k :: k in entries ==>
                  k in live && entries[k] == CachedOperation(k, live[k].data, live[k].at, config.ttl)
  }

  lemma StepKeepsBound(config: Config, before: Entries, e: Event, after: Entries)
    requires |before| <= CACHE_LIMIT && Step(config, before, e, after)
    ensures |after| <= CACHE_LIMIT
  {
    match e {
      case Add(key, data, now) =>
        if config.enabled {
          AddKeepsBound(before, key, CachedOperation(key, data, now, config.ttl), after);
        }
      case Remove(key) => assert after.Keys == before.Keys - {key};
      case Clear =>
    }
  }

  lemma AddKeepsBound(before: Entries, key: string, op: CachedOperation, after: Entries)
    requires |before| <= CACHE_LIMIT && Adds(before, key, op, after)
    ensures |after| <= CACHE_LIMIT
  {
    if |before| >= CACHE_LIMIT {
      var oldest :| IsOldest(before, oldest) && after == (before - {oldest})[key := op];
      SizeAfterRemoval(before, oldest);
      SizeAfterUpdate(before - {oldest}, key, op);
    } else {
      SizeAfterUpdate(before, key, op);
    }
  }

  lemma SizeAfterUpdate(entries: Entries, key: string, op: CachedOperation)
    ensures |entries[key := op]| <= |entries| + 1
  {
    assert entries[key := op].Keys == entries.Keys + {key};
  }

  lemma SizeAfterRemoval(entries: Entries, key: string)
    requires key in entries
    ensures |entries - {key}| == |entries| - 1
  {
    assert (entries - {key}).Keys == entries.Keys - {key};
  }

  /** Whatever the clock does, the cache never exceeds its limit and never holds a value
      other than the last one added; a disabled cache holds nothing. */
  lemma {:induction false} CacheIsCoherent(config: Config, events: seq<Event>, states: seq<Entries>, n: nat)
    requires IsRun(config, events, states) && n <= |events|
    ensures |states[n]| <= CACHE_LIMIT
    ensures Coherent(config, states[n], LastAdditions(events, n))
    ensures !config.enabled ==> states[n] == map[]
  {
    if n > 0 {
      CacheIsCoherent(config, events, states, n - 1);
      assert Step(config, states[n - 1], events[n - 1], states[n]);
      StepKeepsBound(config, states[n - 1], events[n - 1], states[n]);
    }
  }

  // ----- Recency -----

  /** The clock reading never goes back between two additions. */
  predicate ClockSteady(events: seq<Event>) {
    forall i, j :: 0 <= i < j < |events| && events[i].Add? && events[j].Add? ==> events[i].now <= events[j].now
  }

  /** The clock reading advances between any two additions. */
  predicate ClockAdvances(events: seq<Event>) {
    forall i, j :: 0 <= i < j < |events| && events[i].Add? && events[j].Add? ==> events[i].now < events[j].now
  }

  /** Live keys that are no longer cached were added no later than every cached key. */
  ghost predicate EvictedAreOlder(entries: Entries, live: map<string, Addition>) {
    forall gone, kept :: gone in live && gone !in entries && kept in entries && kept in live ==>
                           live[gone].at <= live[kept].at
  }

  lemma AddEvictsOldest(config: Config, before: Entries, live: map<string, Addition>, e: Event, n: nat, after: Entries)
    requires e.Add? && config.enabled && Step(config, before, e, after)
    requires Coherent(config, before, live) && EvictedAreOlder(before, live)
    requires forall k :: k in live ==> live[k].at <= e.now
    ensures EvictedAreOlder(after, live[e.key := Addition(e.data, e.now, n)])
  {
    var op := CachedOperation(e.key, e.data, e.now, config.ttl);
    if |before| >= CACHE_LIMIT {
      var oldest :| IsOldest(before, oldest) && after == (before - {oldest})[e.key := op];
    }
  }

  lemma AdditionsComeBefore(events: seq<Event>, n: nat)
    requires ClockSteady(events) && n < |events| && events[n].Add?
    ensures forall k :: k in LastAdditions(events, n) ==> LastAdditions(events, n)[k].at <= events[n].now
  {
    AdditionPositions(events, n);
  }

  lemma StepCount(config: Config, events: seq<Event>, states: seq<Entries>)
    requires IsRun(config, events, states)
    ensures |states| == |events| + 1 && states[0] == map[]
  {
  }

  /** Eviction takes the least recently added: with a steady clock, no cached key is
      older than a live key that was dropped. */
  lemma {:induction false} CacheKeepsTheRecent(config: Config, events: seq<Event>, states: seq<Entries>, n: nat)
    requires config.enabled && ClockSteady(events) && IsRun(config, events, states) && n <= |events|
    ensures EvictedAreOlder(states[n], LastAdditions(events, n))
  {
    hide IsRun, ClockSteady;
    StepCount(config, events, states);
    if n > 0 {
      CacheKeepsTheRecent(config, events, states, n - 1);
      CacheIsCoherent(config, events, states, n - 1);
      StepAt(config, events, states, n - 1);
      if events[n - 1].Add? {
        AdditionsComeBefore(events, n - 1);
        AddEvictsOldest(config, states[n - 1], LastAdditions(events, n - 1), events[n - 1], n - 1, states[n]);
      }
    }
  }

  /** With an advancing clock the order is strict: every live key that is no longer
      cached was last added before every cached key. */
  lemma EvictedWereAddedBefore(config: Config, events: seq<Event>, states: seq<Entries>, n: nat, gone: string,
                               kept: string)
    requires config.enabled && ClockAdvances(events) && IsRun(config, events, states) && n <= |events|
    requires gone in LastAdditions(events, n) && gone !in states[n] && kept in states[n]
    ensures kept in LastAdditions(events, n)
    ensures LastAdditions(events, n)[gone].position < LastAdditions(events, n)[kept].position
  {
    hide IsRun;
    CacheKeepsTheRecent(config, events, states, n);
    CacheIsCoherent(config, events, states, n);
    AdditionPositions(events, n);
    var g, k := LastAdditions(events, n)[gone].position, LastAdditions(events, n)[kept].position;
    assert g == k || events[g].now <= events[k].now;
    assert g != k;
  }

  // ----- Survival -----

  /** Number of additions among the events from `i` up to `n`. */
  function AddsBetween(events: seq<Event>, i: nat, n: nat): nat
    requires i <= n <= |events|
  {
    if n == i then 0 else AddsBetween(events, i, n - 1) + if events[n - 1].Add? then 1 else 0
  }

  /** The live keys last added at position `i` or later. */
  function AddedSince(events: seq<Event>, i: nat, n: nat): set<string>
    requires n <= |events|
  {
    var live := LastAdditions(events, n);
    set k | k in live && live[k].position >= i
  }

  /** Each addition makes at most one key recent. */
  lemma {:induction false} FewRecentKeys(events: seq<Event>, i: nat, n: nat)
    requires i <= n <= |events|
    ensures |AddedSince(events, i, n)| <= AddsBetween(events, i, n)
  {
    AdditionPositions(events, n);
    if n == i {
      assert AddedSince(events, i, n) == {};
    } else {
      FewRecentKeys(events, i, n - 1);
      var before, after := AddedSince(events, i, n - 1), AddedSince(events, i, n);
      match events[n - 1] {
        case Add(key, _, _) => SubsetSize(after, before + {key});
        case Remove(_) => SubsetSize(after, before);
        case Clear => assert after == {};
      }
    }
  }

  /** A key added at position `i` stays cached through the next 99 additions of any
      keys, as long as it is neither removed nor cleared. */
  lemma {:induction false} SurvivesNinetyNineAdds(config: Config, events: seq<Event>, states: seq<Entries>,
                                                  key: string, i: nat, n: nat)
    requires config.enabled && ClockAdvances(events) && IsRun(config, events, states)
    requires i < n <= |events| && events[i].Add? && events[i].key == key
    requires forall j :: i < j < n ==> events[j] != Remove(key) && events[j] != Clear
    requires AddsBetween(events, i + 1, n) <= CACHE_LIMIT - 1
    ensures key in states[n]
    ensures key in LastAdditions(events, n) && LastAdditions(events, n)[key].position >= i
  {
    hide IsRun, ClockAdvances, IsOldest;
    StepAt(config, events, states, n - 1);
    if n > i + 1 {
      SurvivesNinetyNineAdds(config, events, states, key, i, n - 1);
      if events[n - 1].Add? && |states[n - 1]| >= CACHE_LIMIT {
        NotTheOldest(config, events, states, key, i, n - 1);
      }
    }
  }

  lemma NotTheOldest(config: Config, events: seq<Event>, states: seq<Entries>, key: string, i: nat, n: nat)
    requires config.enabled && ClockAdvances(events) && IsRun(config, events, states)
    requires i < n <= |events| && key in states[n] && key in LastAdditions(events, n)
    requires LastAdditions(events, n)[key].position >= i
    requires |states[n]| >= CACHE_LIMIT && AddsBetween(events, i + 1, n) < CACHE_LIMIT - 1
    ensures !IsOldest(states[n], key)
  {
    hide IsRun;
    StepCount(config, events, states);
    var live, entries := LastAdditions(events, n), states[n];
    CacheIsCoherent(config, events, states, n);
    AdditionPositions(events, n);
    FewRecentKeys(events, i + 1, n);
    var k := OlderKey(entries, live, AddedSince(events, i + 1, n), key, i);
    assert events[live[k].position].now < events[live[key].position].now;
  }

  /** A full cache with few recent keys holds an older key besides `key`. */
  lemma OlderKey(entries: Entries, live: map<string, Addition>, recent: set<string>, key: string, i: nat)
    returns (k: string)
    requires |entries| >= CACHE_LIMIT && |recent| < CACHE_LIMIT - 1 && key in entries
    requires forall k :: k in entries ==> k in live
    requires recent == set k | k in live && live[k].position >= i + 1
    ensures k in entries && k != key && live[k].position <= i
  {
    assert |entries.Keys - {key}| == |entries| - 1;
    if entries.Keys - {key} <= recent {
      SubsetSize(entries.Keys - {key}, recent);
    }
    k :| k in entries.Keys - {key} && k !in recent;
  }

  // ----- The cache against the map of last additions -----

  /** A live addition has not been removed, cleared or replaced since. */
  lemma {:induction false} UntouchedSince(events: seq<Event>, n: nat, key: string)
    requires n <= |events| && key in LastAdditions(events, n)
    ensures var p := LastAdditions(events, n)[key].position;
            && p < n
            && events[p].Add? && events[p].key == key
            && forall j :: p < j < n ==> events[j] != Remove(key) && events[j] != Clear
  {
    if events[n - 1] != Add(key, LastAdditions(events, n)[key].data, LastAdditions(events, n)[key].at)
       || LastAdditions(events, n)[key].position != n - 1 {
      UntouchedSince(events, n - 1, key);
    }
  }

  /** Whatever the clock does, a hit is the data of the last addition of the key, and by
      the clock that addition is younger than its time to live. */
  lemma HitIsLastAddition(config: Config, events: seq<Event>, states: seq<Entries>, n: nat, key: string, now: u64)
    requires IsRun(config, events, states) && n <= |events|
    requires Lookup(states[n], key, now).Some?
    ensures key in LastAdditions(events, n)
    ensures var w := LastAdditions(events, n)[key];
            && Lookup(states[n], key, now) == Some(w.data)
            && IsYoung(w.at, config.ttl, now)
  {
    FreshMeansYoung(states[n][key], now);
    CacheIsCoherent(config, events, states, n);
  }

  /** Number of additions, of any keys, since the live addition of `key`. */
  function AddsSinceLast(events: seq<Event>, n: nat, key: string): nat
    requires n <= |events|
  {
    AdditionPositions(events, n);
    if key in LastAdditions(events, n) then AddsBetween(events, LastAdditions(events, n)[key].position + 1, n) else 0
  }

  /** Up to eviction the cache is the map of last additions: a key with fewer than 100
      additions since its own is found exactly when that one is fresh. */
  lemma LookupAgreesWithLastAddition(config: Config, events: seq<Event>, states: seq<Entries>, n: nat, key: string,
                                     now: u64)
    requires config.enabled && ClockAdvances(events) && IsRun(config, events, states) && n <= |events|
    requires AddsSinceLast(events, n, key) < CACHE_LIMIT
    ensures Lookup(states[n], key, now)
            == if key in LastAdditions(events, n) && IsYoung(LastAdditions(events, n)[key].at, config.ttl, now)
               then Some(LastAdditions(events, n)[key].data) else None
  {
    hide ClockAdvances, IsYoung, IsFresh;
    StepCount(config, events, states);
    RecentlyAddedIsCached(config, events, states, n, key);
    CacheIsCoherent(config, events, states, n);
    hide IsRun, LastAdditions;
    if key in states[n] {
      FreshMeansYoung(states[n][key], now);
    }
  }

  lemma RecentlyAddedIsCached(config: Config, events: seq<Event>, states: seq<Entries>, n: nat, key: string)
    requires config.enabled && ClockAdvances(events) && IsRun(config, events, states) && n <= |events|
    requires AddsSinceLast(events, n, key) < CACHE_LIMIT
    ensures key in LastAdditions(events, n) ==> key in states[n]
  {
    hide IsRun, ClockAdvances;
    if key in LastAdditions(events, n) {
      UntouchedSince(events, n, key);
      SurvivesNinetyNineAdds(config, events, states, key, LastAdditions(events, n)[key].position, n);
    }
  }

  /** The bound is sharp from the other side: a key that 100 live keys were added
      after is no longer cached. */
  lemma {:induction false} HundredNewerKeysEvict(config: Config, events: seq<Event>, states: seq<Entries>, n: nat,
                                               key: string, newer: set<string>)
    requires config.enabled && ClockAdvances(events) && IsRun(config, events, states) && n <= |events|
    requires key in LastAdditions(events, n) && |newer| >= CACHE_LIMIT
    requires forall k :: k in newer ==>
               && k in LastAdditions(events, n)
               && LastAdditions(events, n)[k].position > LastAdditions(events, n)[key].position
    ensures key !in states[n]
  {
    CacheIsCoherent(config, events, states, n);
    if key in states[n] {
      forall k | k in newer ensures k in states[n] {
        if k !in states[n] {
          EvictedWereAddedBefore(config, events, states, n, k, key);
        }
      }
      assert key !in newer;
      SubsetSize(newer + {key}, states[n].Keys);
    }
  }

  // ----- The exact condition for being cached -----

  /** An addition of another key evicts a cached key exactly when at least 99 live keys
      were added after it. */
  lemma EvictedExactlyByNinetyNineNewer(config: Config, events: seq<Event>, states: seq<Entries>, key: string, m: nat)
    requires config.enabled && ClockAdvances(events) && IsRun(config, events, states)
    requires m < |events| && events[m].Add? && events[m].key != key
    requires |states| == |events| + 1 && key in states[m] && key in LastAdditions(events, m)
    ensures key in states[m + 1]
            <==> |AddedSince(events, LastAdditions(events, m)[key].position + 1, m)| < CACHE_LIMIT - 1
  {
    hide IsRun, ClockAdvances, LastAdditions, IsOldest;
    StepAt(config, events, states, m);
    CacheIsCoherent(config, events, states, m);
    var live := LastAdditions(events, m);
    var p := live[key].position;
    var recent := AddedSince(events, p + 1, m);
    if |recent| < CACHE_LIMIT - 1 {
      if |states[m]| >= CACHE_LIMIT {
        var older := OlderKey(states[m], live, recent, key, p);
        StampsFollowPositions(config, events, states, m, older, key);
        assert !IsOldest(states[m], key) by {
          assert states[m][older].cachedAt < states[m][key].cachedAt;
          OlderRefutesOldest(states[m], older, key);
        }
      }
    } else {
      forall k | k in recent ensures k in states[m] && states[m][key].cachedAt < states[m][k].cachedAt {
        if k !in states[m] {
          EvictedWereAddedBefore(config, events, states, m, k, key);
        }
        StampsFollowPositions(config, events, states, m, key, k);
      }
      CrowdedOut(config, states[m], events[m], states[m + 1], recent, key);
    }
  }

  lemma OlderRefutesOldest(entries: Entries, older: string, key: string)
    requires older in entries && key in entries && entries[older].cachedAt < entries[key].cachedAt
    ensures !IsOldest(entries, key)
  {
  }

  /** With an advancing clock, time stamps of cached keys are ordered as their additions. */
  lemma StampsFollowPositions(config: Config, events: seq<Event>, states: seq<Entries>, m: nat, j: string, k: string)
    requires ClockAdvances(events) && IsRun(config, events, states) && m <= |events| && |states| == |events| + 1
    requires j in states[m] && k in states[m]
    ensures j in LastAdditions(events, m) && k in LastAdditions(events, m)
    ensures LastAdditions(events, m)[j].position < LastAdditions(events, m)[k].position
            ==> states[m][j].cachedAt < states[m][k].cachedAt
    ensures j != k ==> LastAdditions(events, m)[j].position != LastAdditions(events, m)[k].position
  {
    hide IsRun;
    CacheIsCoherent(config, events, states, m);
    AdditionPositions(events, m);
  }

  /** A full cache of `key` and later entries drops `key`. */
  lemma CrowdedOut(config: Config, entries: Entries, e: Event, after: Entries, recent: set<string>, key: string)
    requires config.enabled && e.Add? && e.key != key && Step(config, entries, e, after)
    requires |entries| <= CACHE_LIMIT && |recent| >= CACHE_LIMIT - 1
    requires key in entries && key !in recent && recent <= entries.Keys
    requires forall k :: k in recent ==> entries[key].cachedAt < entries[k].cachedAt
    ensures key !in after
  {
    var all := recent + {key};
    SubsetSize(all, entries.Keys);
    assert entries.Keys == all by {
      if k :| k in entries.Keys && k !in all {
        SubsetSize(all + {k}, entries.Keys);
      }
    }
    var oldest :| IsOldest(entries, oldest)
                  && after == (entries - {oldest})[e.key := CachedOperation(e.key, e.data, e.now, config.ttl)];
    assert oldest == key;
  }

  /** A live key is cached exactly when no addition since its own found 99 or more live
      keys that had been added after it. */
  lemma {:induction false} CachedExactlyWhen(config: Config, events: seq<Event>, states: seq<Entries>, key: string,
                                             n: nat)
    requires config.enabled && ClockAdvances(events) && IsRun(config, events, states)
    requires n <= |events| && |states| == |events| + 1 && key in LastAdditions(events, n)
    ensures var p := LastAdditions(events, n)[key].position;
            key in states[n]
            <==> forall m :: p < m < n && events[m].Add? ==> |AddedSince(events, p + 1, m)| < CACHE_LIMIT - 1
  {
    hide IsRun, ClockAdvances, AddedSince, IsOldest;
    var p := LastAdditions(events, n)[key].position;
    AdditionPositions(events, n);
    StepAt(config, events, states, n - 1);
    if p < n - 1 {
      UntouchedSince(events, n, key);
      assert key in LastAdditions(events, n - 1) && LastAdditions(events, n - 1)[key].position == p;
      CachedExactlyWhen(config, events, states, key, n - 1);
      if events[n - 1].Add? && key in states[n - 1] {
        EvictedExactlyByNinetyNineNewer(config, events, states, key, n - 1);
      }
    }
  }

  // ----- Why the clock has to advance -----

  function TieKey(i: nat): string {
    seq(i + 1, _ => 'k')
  }

  const TIE_DATA: Bytes := [1]

  /** `n` additions of distinct keys within one millisecond. */
  function Ties(n: nat, now: u64): seq<Event> {
    seq(n, i requires i >= 0 => Add(TieKey(i), TIE_DATA, now))
  }

  function TieEntry(config: Config, i: nat, now: u64): CachedOperation {
    CachedOperation(TieKey(i), TIE_DATA, now, config.ttl)
  }

  function Filled(config: Config, n: nat, now: u64): Entries {
    if n == 0 then map[] else Filled(config, n - 1, now)[TieKey(n - 1) := TieEntry(config, n - 1, now)]
  }

  lemma {:induction false} FilledKeys(config: Config, n: nat, now: u64)
    ensures |Filled(config, n, now)| == n
    ensures forall k :: k in Filled(config, n, now) ==> |k| <= n && Filled(config, n, now)[k].cachedAt == now
    ensures n > 0 ==> TieKey(n - 1) in Filled(config, n, now)
  {
    if n > 0 {
      FilledKeys(config, n - 1, now);
      assert TieKey(n - 1) !in Filled(config, n - 1, now);
    }
  }

  lemma TieStep(config: Config, i: nat, now: u64)
    requires config.enabled && i < 100
    ensures Step(config, Filled(config, i, now), Add(TieKey(i), TIE_DATA, now), Filled(config, i + 1, now))
  {
    FilledKeys(config, i, now);
  }

  /** The hundred-and-first addition evicts the key of the hundredth. */
  function AfterTies(config: Config, now: u64): Entries {
    (Filled(config, 100, now) - {TieKey(99)})[TieKey(100) := TieEntry(config, 100, now)]
  }

  lemma LastTieStep(config: Config, now: u64)
    requires config.enabled
    ensures Step(config, Filled(config, 100, now), Add(TieKey(100), TIE_DATA, now), AfterTies(config, now))
    ensures TieKey(99) in Filled(config, 100, now) && TieKey(99) !in AfterTies(config, now)
  {
    FilledKeys(config, 100, now);
    assert IsOldest(Filled(config, 100, now), TieKey(99));
    assert |TieKey(99)| != |TieKey(100)|;
  }

  lemma TieStaysLive(now: u64)
    ensures TieKey(99) in LastAdditions(Ties(101, now), 101)
  {
    assert LastAdditions(Ties(101, now), 100)
           == LastAdditions(Ties(101, now), 99)[TieKey(99) := Addition(TIE_DATA, now, 99)];
  }

  /** With a steady clock, the key added last can be evicted by the next addition of
      another key exactly when the cache is full and all its time stamps are equal. */
  lemma NewestEvictedExactlyOnTies(config: Config, events: seq<Event>, states: seq<Entries>, n: nat, e: Event)
    requires config.enabled && ClockSteady(events) && IsRun(config, events, states)
    requires 0 < n <= |events| && events[n - 1].Add? && e.Add? && e.key != events[n - 1].key
    ensures var (key, entries) := (events[n - 1].key, states[n]);
            && key in entries
            && ((exists after :: Step(config, entries, e, after) && key !in after)
                <==> && |entries| >= CACHE_LIMIT
                     && forall k :: k in entries ==> entries[k].cachedAt == entries[key].cachedAt)
  {
    hide IsRun, ClockSteady, Step, IsOldest;
    NewestHasLatestStamp(config, events, states, n);
    EvictableExactlyOldest(config, states[n], e, events[n - 1].key);
    assert IsOldest(states[n], events[n - 1].key)
           <==> forall k :: k in states[n] ==> states[n][k].cachedAt == states[n][events[n - 1].key].cachedAt by {
      NewestIsOldestOnTies(states[n], events[n - 1].key);
    }
  }

  lemma NewestIsOldestOnTies(entries: Entries, key: string)
    requires key in entries && forall k :: k in entries ==> entries[k].cachedAt <= entries[key].cachedAt
    ensures IsOldest(entries, key) <==> forall k :: k in entries ==> entries[k].cachedAt == entries[key].cachedAt
  {
  }

  /** An addition can drop another key exactly when the cache is full and the key's time
      stamp is minimal. */
  lemma EvictableExactlyOldest(config: Config, entries: Entries, e: Event, key: string)
    requires config.enabled && e.Add? && key in entries && key != e.key
    ensures (exists after :: Step(config, entries, e, after) && key !in after)
            <==> |entries| >= CACHE_LIMIT && IsOldest(entries, key)
  {
    hide IsOldest;
    var op := CachedOperation(e.key, e.data, e.now, config.ttl);
    if |entries| >= CACHE_LIMIT && IsOldest(entries, key) {
      assert Step(config, entries, e, (entries - {key})[e.key := op]);
    }
  }

  /** With a steady clock the entry added last has the latest time stamp. */
  lemma NewestHasLatestStamp(config: Config, events: seq<Event>, states: seq<Entries>, n: nat)
    requires config.enabled && ClockSteady(events) && IsRun(config, events, states)
    requires 0 < n <= |events| && events[n - 1].Add?
    ensures |states| == |events| + 1 && events[n - 1].key in states[n]
    ensures forall k :: k in states[n] ==> states[n][k].cachedAt <= states[n][events[n - 1].key].cachedAt
  {
    hide IsRun, IsOldest;
    StepAt(config, events, states, n - 1);
    CacheIsCoherent(config, events, states, n);
    AdditionsComeBefore(events, n - 1);
    hide ClockSteady;
    var e := events[n - 1];
    assert LastAdditions(events, n) == LastAdditions(events, n - 1)[e.key := Addition(e.data, e.now, n - 1)];
  }

  /** When additions share a time stamp, the key added last can be evicted by the very
      next addition. */
  lemma TiesCanEvictTheNewest(config: Config, now: u64) returns (states: seq<Entries>)
    requires config.enabled
    ensures ClockSteady(Ties(101, now)) && IsRun(config, Ties(101, now), states)
    ensures TieKey(99) in states[100] && TieKey(99) !in states[101]
    ensures TieKey(99) in LastAdditions(Ties(101, now), 101)
  {
    hide Step, Filled, AfterTies, TieKey, LastAdditions;
    states := seq(101, i requires i >= 0 => Filled(config, i, now)) + [AfterTies(config, now)];
    forall i | 0 <= i < 101 ensures Step(config, states[i], Ties(101, now)[i], states[i + 1]) {
      if i < 100 {
        TieStep(config, i, now);
      } else {
        LastTieStep(config, now);
      }
    }
    LastTieStep(config, now);
    TieStaysLive(now);
    assert states[0] == map[] by {
      FilledKeys(config, 0, now);
      assert |states[0]| == 0;
    }
  }
}
