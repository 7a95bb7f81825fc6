/** The operation cache in front of the Android Keystore: `store_secure`,
    `retrieve_secure` and `delete_secure` of `crates/store-android/src/keystore_ops.rs`. */
module KeystoreOps {
  import opened Machine
  import Base64Url
  import Caches = OperationCaches

  const MAX_KEY_LEN: nat := 255
  const MAX_ITEM_SIZE: nat := 2 * 1024 * 1024

  predicate KeyChar(c: char) {
    'a' <= c <= 'z' || 'A' <= c <= 'Z' || '0' <= c <= '9' || c in {'_', '.', '-'}
  }

  /** `validate_key`. */
  predicate ValidKey(key: string) {
    0 < |key| <= MAX_KEY_LEN && forall i :: 0 <= i < |key| ==> KeyChar(key[i])
  }

  /** `validate_data`. */
  predicate ValidData(data: Bytes) {
    0 < |data| <= MAX_ITEM_SIZE
  }

  datatype StorageFailure = HostUnavailable | InvalidKey | InvalidData | BiometricFailed | KeystoreFailed | NotFound

  /** Keys have 1 to 255 characters, those of base64url and the dot; data have 1 byte to
      2 MiB. */
  lemma ValidExactlyWhen(key: string, data: Bytes)
    ensures ValidKey(key) <==> 1 <= |key| <= 255
                               && forall i :: 0 <= i < |key| ==> Base64Url.SextetOf(key[i]).Some? || key[i] == '.'
    ensures ValidData(data) <==> 1 <= |data| <= 2_097_152
  {
  }

  /** How the Java side behaves during one call: whether the thread can attach, whether
      the user confirms a biometric prompt, whether the Keystore call goes through, and
      the Boolean that a deletion answers. */
  datatype Host = Host(attached: bool, confirmed: bool, works: bool, deleted: bool)

  /** What the Keystore holds, and the cache in front of it. */
  datatype State = State(keystore: map<string, Bytes>, entries: Caches.Entries)

  /** Calls that succeed, a deletion with the answer of the Java side; a failed call
      changes nothing. */
  datatype Event =
    | Stored(key: string, data: Bytes)
    | Retrieved(key: string, requireBio: bool, now: u64, addedAt: u64)
    | Deleted(key: string, removed: bool)
    | Cleared
    | Failed

  function Held(s: State, key: string): Option<Bytes> {
    if key in s.keystore then Some(s.keystore[key]) else None
  }

  /** The cache answers this retrieval. */
  predicate Hits(config: Caches.Config, s: State, key: string, requireBio: bool, now: u64) {
    config.enabled && !requireBio && Caches.Lookup(s.entries, key, now).Some?
  }

  /** What a retrieval gives when the host cooperates. */
  function Retrieve(config: Caches.Config, s: State, key: string, requireBio: bool, now: u64): Option<Bytes> {
    if Hits(config, s, key, requireBio, now) then Caches.Lookup(s.entries, key, now) else Held(s, key)
  }

  /** The retrieval misses and puts what it read into the cache. */
  predicate Fills(config: Caches.Config, s: State, e: Event) {
    && e.Retrieved? && config.enabled && !e.requireBio && e.key in s.keystore
    && !Hits(config, s, e.key, e.requireBio, e.now)
  }

  predicate FillsKey(config: Caches.Config, s: State, e: Event, key: string) {
    Fills(config, s, e) && e.key == key
  }

  ghost predicate Step(config: Caches.Config, s: State, e: Event, s': State) {
    match e
    case Stored(key, data) => s' == s.(keystore := s.keystore[key := data])
    case Retrieved(key, _, _, addedAt) =>
      if Fills(config, s, e)
      then s'.keystore == s.keystore
           && Caches.Step(config, s.entries, Caches.Add(key, s.keystore[key], addedAt), s'.entries)
      else s' == s
    case Deleted(key, removed) =>
      s' == State(if removed then s.keystore - {key} else s.keystore,
                  if config.enabled then s.entries - {key} else s.entries)
    case Cleared => s' == s.(entries := map[])
    case Failed => s' == s
  }

  class AndroidSecureStorage {
    var keystore: map<string, Bytes>
    const cache: Caches.OperationCache

    constructor (cache: Caches.OperationCache, keystore: map<string, Bytes>)
      ensures this.cache == cache && this.keystore == keystore
    {
      this.cache, this.keystore := cache, keystore;
    }

    function Contents(): State
      reads this, cache
    {
      State(keystore, cache.entries)
    }

    function Config(): Caches.Config {
      Caches.Config(cache.enableCaching, cache.cacheTtl)
    }

    method StoreSecure(key: string, data: Bytes, requireBio: bool, host: Host) returns (r: Result<(), StorageFailure>)
      modifies this`keystore
      ensures r.Ok? <==>
              host.attached && ValidKey(key) && ValidData(data) && (requireBio ==> host.confirmed) && host.works
      ensures r == Err(HostUnavailable) <==> !host.attached
      ensures r == Err(InvalidKey) <==> host.attached && !ValidKey(key)
      ensures r == Err(InvalidData) <==> host.attached && ValidKey(key) && !ValidData(data)
      ensures r == Err(BiometricFailed) <==>
              host.attached && ValidKey(key) && ValidData(data) && requireBio && !host.confirmed
      ensures Step(Config(), old(Contents()), if r.Ok? then Stored(key, data) else Failed, Contents())
    {
      if !host.attached { return Err(HostUnavailable); }
      if !ValidKey(key) { return Err(InvalidKey); }
      if !ValidData(data) { return Err(InvalidData); }
      if requireBio && !host.confirmed { return Err(BiometricFailed); }
      if !host.works { return Err(KeystoreFailed); }
      keystore := keystore[key := data];
      return Ok(());
    }

    /** `now` is the clock at the look into the cache, `addedAt` the clock at the addition. */
    method RetrieveSecure(key: string, requireBio: bool, now: u64, addedAt: u64, host: Host)
      returns (r: Result<Bytes, StorageFailure>)
      modifies cache
      ensures r.Ok? <==>
              && host.attached
              && (Hits(Config(), old(Contents()), key, requireBio, now)
                  || (ValidKey(key) && (requireBio ==> host.confirmed) && host.works && key in keystore))
      ensures r == Err(HostUnavailable) <==> !host.attached
      ensures var misses := host.attached && !Hits(Config(), old(Contents()), key, requireBio, now);
              && (r == Err(InvalidKey) <==> misses && !ValidKey(key))
              && (r == Err(BiometricFailed) <==> misses && ValidKey(key) && requireBio && !host.confirmed)
              && (r == Err(NotFound) <==>
                    misses && ValidKey(key) && (requireBio ==> host.confirmed) && host.works && key !in keystore)
      ensures r.Ok? ==> Some(r.value) == Retrieve(Config(), old(Contents()), key, requireBio, now)
      ensures var e := if r.Ok? then Retrieved(key, requireBio, now, addedAt) else Failed;
              Step(Config(), old(Contents()), e, Contents())
    {
      if !host.attached { return Err(HostUnavailable); }
      if cache.enableCaching && !requireBio {
        var cached := cache.GetFromCache(key, now);
        if cached.Some? { return Ok(cached.value); }
      }
      if !ValidKey(key) { return Err(InvalidKey); }
      if requireBio && !host.confirmed { return Err(BiometricFailed); }
      if !host.works { return Err(KeystoreFailed); }
      if key !in keystore { return Err(NotFound); }
      var bytes := keystore[key];
      if cache.enableCaching && !requireBio {
        cache.AddToCache(key, bytes, addedAt);
      }
      return Ok(bytes);
    }

    method DeleteSecure(key: string, host: Host) returns (r: Result<(), StorageFailure>)
      modifies this`keystore, cache
      ensures r.Ok? <==> host.attached && ValidKey(key) && host.works
      ensures r == Err(HostUnavailable) <==> !host.attached
      ensures r == Err(InvalidKey) <==> host.attached && !ValidKey(key)
      ensures Step(Config(), old(Contents()), if r.Ok? then Deleted(key, host.deleted) else Failed, Contents())
      ensures r.Ok? ==> (key in keystore <==> key in old(keystore) && !host.deleted)
    {
      if !host.attached { return Err(HostUnavailable); }
      if !ValidKey(key) { return Err(InvalidKey); }
      if !host.works { return Err(KeystoreFailed); }
      if host.deleted {
        keystore := keystore - {key};
      }
      if cache.enableCaching {
        cache.RemoveFromCache(key);
      }
      return Ok(());
    }
  }

  // ----- Runs -----

  /** The contents before and after each event, from an empty cache; what the Keystore
      holds at the start is left over from earlier. */
  ghost predicate IsRun(config: Caches.Config, events: seq<Event>, states: seq<State>) {
    && |states| == |events| + 1
    && states[0].entries == map[]
    && forall i :: 0 <= i < |events| ==> Step(config, states[i], events[i], states[i + 1])
  }

  /** The retrieval that put the present entry of `key` into the cache, if there is one. */
  function FilledAt(config: Caches.Config, events: seq<Event>, states: seq<State>, n: nat, key: string)
    : (p: Option<nat>)
    requires n <= |events| < |states|
    ensures p.Some? ==> p.value < n && FillsKey(config, states[p.value], events[p.value], key)
    ensures p.Some? ==> forall i :: p.value < i < n ==> !FillsKey(config, states[i], events[i], key)
  {
    if n == 0 then None
    else if FillsKey(config, states[n - 1], events[n - 1], key) then Some(n - 1)
    else if (events[n - 1].Deleted? && events[n - 1].key == key) || events[n - 1] == Cleared then None
    else FilledAt(config, events, states, n - 1, key)
  }

  /** The data stored last under `key` from position `p` on. */
  function StoredSince(events: seq<Event>, p: nat, n: nat, key: string): Option<Bytes>
    requires n <= |events|
  {
    if n <= p then None
    else if events[n - 1].Stored? && events[n - 1].key == key then Some(events[n - 1].data)
    else StoredSince(events, p, n - 1, key)
  }

  /** The entry of `key` is what the Keystore held when it was filled, and the Keystore
      holds what was stored since, or still the same. */
  ghost predicate EntryOk(config: Caches.Config, events: seq<Event>, states: seq<State>, n: nat, key: string)
    requires n <= |events| < |states|
  {
    key in states[n].entries ==>
      match FilledAt(config, events, states, n, key)
      case None => false
      case Some(p) =>
        && states[n].entries[key] == Caches.CachedOperation(key, states[p].keystore[key], events[p].addedAt, config.ttl)
        && Held(states[n], key)
           == if StoredSince(events, p + 1, n, key).Some? then StoredSince(events, p + 1, n, key)
              else Held(states[p], key)
  }

  lemma RunStep(config: Caches.Config, events: seq<Event>, states: seq<State>, i: nat)
    requires IsRun(config, events, states) && i < |events|
    ensures Step(config, states[i], events[i], states[i + 1])
  {
  }

  lemma {:induction false} EntriesAreOldReads(config: Caches.Config, events: seq<Event>, states: seq<State>, n: nat,
                                              key: string)
    requires IsRun(config, events, states) && n <= |events|
    ensures EntryOk(config, events, states, n, key)
    ensures !config.enabled ==> states[n].entries == map[]
  {
    if n > 0 {
      EntriesAreOldReads(config, events, states, n - 1, key);
      RunStep(config, events, states, n - 1);
      hide IsRun, Caches.IsOldest;
      var e := events[n - 1];
      if e.Retrieved? && Fills(config, states[n - 1], e) {
        AddChangesOneKey(config, states[n - 1].entries, Caches.Add(e.key, states[n - 1].keystore[e.key], e.addedAt),
                         states[n].entries, key);
      }
    }
  }

  lemma AddChangesOneKey(config: Caches.Config, before: Caches.Entries, e: Caches.Event, after: Caches.Entries,
                         key: string)
    requires config.enabled && e.Add? && Caches.Step(config, before, e, after)
    ensures e.key in after && after[e.key] == Caches.CachedOperation(e.key, e.data, e.now, config.ttl)
    ensures key != e.key && key in after ==> key in before && after[key] == before[key]
  {
  }

  // ----- When a retrieval does not give what the Keystore holds -----

  /** A retrieval differs from the Keystore exactly when it may use the cache, the entry is
      fresh, and since the retrieval that filled it other data was stored under the key. */
  lemma StaleExactlyWhen(config: Caches.Config, events: seq<Event>, states: seq<State>, n: nat,
                         key: string, requireBio: bool, now: u64)
    requires IsRun(config, events, states) && n <= |events|
    ensures |states| == |events| + 1
    ensures Retrieve(config, states[n], key, requireBio, now) != Held(states[n], key)
            <==> && Hits(config, states[n], key, requireBio, now)
                 && exists p :: && FilledAt(config, events, states, n, key) == Some(p)
                                && StoredSince(events, p + 1, n, key).Some?
                                && StoredSince(events, p + 1, n, key) != Held(states[p], key)
  {
    EntriesAreOldReads(config, events, states, n, key);
  }

  /** The input: store, retrieve, store other data, retrieve within the time to live. The
      second retrieval gives the data of the first store. */
  lemma StoreThenStaleRetrieve(config: Caches.Config, before: map<string, Bytes>, key: string, first: Bytes,
                               second: Bytes, now: u64)
    returns (events: seq<Event>, states: seq<State>)
    requires config.enabled && config.ttl > 0
    requires ValidKey(key) && ValidData(first) && ValidData(second) && first != second
    ensures events == [Stored(key, first), Retrieved(key, false, now, now), Stored(key, second)]
    ensures IsRun(config, events, states) && states[0].keystore == before
    ensures Held(states[3], key) == Some(second)
    ensures Retrieve(config, states[3], key, false, now) == Some(first)
  {
    var op := Caches.CachedOperation(key, first, now, config.ttl);
    var cached: Caches.Entries := map[key := op];
    events := [Stored(key, first), Retrieved(key, false, now, now), Stored(key, second)];
    states := [State(before, map[]), State(before[key := first], map[]), State(before[key := first], cached),
               State(before[key := second], cached)];
    assert Caches.Step(config, map[], Caches.Add(key, first, now), cached);
    assert before[key := first][key := second] == before[key := second];
    assert Step(config, states[0], events[0], states[1]);
    assert Step(config, states[1], events[1], states[2]);
    assert Step(config, states[2], events[2], states[3]);
    assert Caches.IsFresh(op, now);
  }

  // ----- When the key dropped is the least recently used one -----

  predicate HitsKey(config: Caches.Config, s: State, e: Event, key: string) {
    e.Retrieved? && e.key == key && Hits(config, s, key, e.requireBio, e.now)
  }

  /** Where `key` was used last: a retrieval that found it in the cache or put it there. */
  function LastUsed(config: Caches.Config, events: seq<Event>, states: seq<State>, n: nat, key: string)
    : (u: Option<nat>)
    requires n <= |events| < |states|
    ensures u.Some? ==> u.value < n
    ensures u.Some? ==> var (s, e) := (states[u.value], events[u.value]);
                        HitsKey(config, s, e, key) || FillsKey(config, s, e, key)
    ensures forall i :: (if u.Some? then u.value + 1 else 0) <= i < n ==>
                          !HitsKey(config, states[i], events[i], key) && !FillsKey(config, states[i], events[i], key)
  {
    if n == 0 then None
    else
      var (s, e) := (states[n - 1], events[n - 1]);
      if HitsKey(config, s, e, key) || FillsKey(config, s, e, key) then Some(n - 1)
      else LastUsed(config, events, states, n - 1, key)
  }

  /** The clock reading advances between any two retrievals that fill the cache. */
  predicate FillClockAdvances(config: Caches.Config, events: seq<Event>, states: seq<State>)
    requires |events| < |states|
  {
    forall i, j :: 0 <= i < j < |events| && Fills(config, states[i], events[i]) && Fills(config, states[j], events[j])
                   ==> events[i].addedAt < events[j].addedAt
  }

  /** Use `i` comes before the last use of every cached key other than `v`. */
  predicate BeforeOthers(config: Caches.Config, events: seq<Event>, states: seq<State>, n: nat, v: string, i: nat)
    requires n <= |events| < |states|
  {
    forall k :: k in states[n].entries && k != v ==>
                  var u := LastUsed(config, events, states, n, k);
                  u.Some? && i < u.value
  }

  predicate LeastRecentlyUsed(config: Caches.Config, events: seq<Event>, states: seq<State>, n: nat, v: string)
    requires n <= |events| < |states|
  {
    var u := LastUsed(config, events, states, n, v);
    v in states[n].entries && u.Some? && BeforeOthers(config, events, states, n, v, u.value)
  }

  /** A cached key was filled where `FilledAt` says, with the time stamp of that fill, and
      has been used then or later. */
  lemma CachedWasUsed(config: Caches.Config, events: seq<Event>, states: seq<State>, n: nat, key: string)
    requires IsRun(config, events, states) && n <= |events| && key in states[n].entries
    ensures var (p, u) := (FilledAt(config, events, states, n, key), LastUsed(config, events, states, n, key));
            && p.Some? && u.Some? && p.value <= u.value
            && events[p.value].Retrieved? && states[n].entries[key].cachedAt == events[p.value].addedAt
  {
    EntriesAreOldReads(config, events, states, n, key);
  }

  /** An addition of another key drops only a key with a minimal time stamp. */
  lemma DroppedIsOldest(config: Caches.Config, before: Caches.Entries, e: Caches.Event, after: Caches.Entries,
                        v: string)
    requires config.enabled && e.Add? && Caches.Step(config, before, e, after)
    requires e.key != v && v in before && v !in after
    ensures forall k :: k in before ==> before[v].cachedAt <= before[k].cachedAt
  {
  }

  /** The dropped key was filled before every other cached key. */
  lemma DroppedWasFilledFirst(config: Caches.Config, events: seq<Event>, states: seq<State>, n: nat, v: string,
                              k: string)
    requires IsRun(config, events, states) && FillClockAdvances(config, events, states)
    requires n < |events| && Fills(config, states[n], events[n]) && events[n].key != v
    requires v in states[n].entries && v !in states[n + 1].entries && k in states[n].entries && k != v
    ensures var (p, q) := (FilledAt(config, events, states, n, v), FilledAt(config, events, states, n, k));
            p.Some? && q.Some? && p.value < q.value
  {
    RunStep(config, events, states, n);
    var e := events[n];
    DroppedIsOldest(config, states[n].entries, Caches.Add(e.key, states[n].keystore[e.key], e.addedAt),
                    states[n + 1].entries, v);
    CachedWasUsed(config, events, states, n, v);
    CachedWasUsed(config, events, states, n, k);
  }

  /** Which key goes when another one is filled: with advancing clock readings it is the
      least recently used one exactly when every hit on it comes before the last use of
      every other cached key. */
  lemma DropsLeastRecentlyUsedExactlyWhen(config: Caches.Config, events: seq<Event>, states: seq<State>, n: nat,
                                          v: string)
    requires IsRun(config, events, states) && FillClockAdvances(config, events, states)
    requires n < |events| && Fills(config, states[n], events[n]) && events[n].key != v
    requires v in states[n].entries && v !in states[n + 1].entries
    ensures LeastRecentlyUsed(config, events, states, n, v)
            <==> forall h :: 0 <= h < n && HitsKey(config, states[h], events[h], v)
                             ==> BeforeOthers(config, events, states, n, v, h)
  {
    CachedWasUsed(config, events, states, n, v);
    var p, u := FilledAt(config, events, states, n, v).value, LastUsed(config, events, states, n, v).value;
    forall k | k in states[n].entries && k != v
      ensures var w := LastUsed(config, events, states, n, k); w.Some? && p < w.value
    {
      DroppedWasFilledFirst(config, events, states, n, v, k);
      CachedWasUsed(config, events, states, n, k);
    }
    assert BeforeOthers(config, events, states, n, v, p);
    if !HitsKey(config, states[u], events[u], v) {
      assert FillsKey(config, states[u], events[u], v) && u == p;
    }
    forall h | 0 <= h < n && HitsKey(config, states[h], events[h], v) ensures h <= u {
    }
  }

  // ----- A run that drops the key used last -----

  /** The keys of the witness runs are ones that the calls accept. */
  lemma WitnessKeysAreValid(i: nat)
    requires i <= 100
    ensures ValidKey(Caches.TieKey(i)) && ValidData(Caches.TIE_DATA)
  {
  }

  predicate HoldsKeys(held: map<string, Bytes>) {
    forall i :: 0 <= i <= 100 ==> Caches.TieKey(i) in held
  }

  /** The cache after `n` first retrievals, one each millisecond. */
  function Warm(config: Caches.Config, held: map<string, Bytes>, n: nat, start: u64): Caches.Entries
    requires HoldsKeys(held) && n <= 100 && start + 101 <= U64_MAX
  {
    if n == 0 then map[]
    else
      var key := Caches.TieKey(n - 1);
      Warm(config, held, n - 1, start)[key := Caches.CachedOperation(key, held[key], start + (n - 1), config.ttl)]
  }

  /** The key that was filled at `i`, with the time stamp of that moment. */
  predicate WarmEntry(config: Caches.Config, entries: Caches.Entries, key: string, start: u64, n: nat)
    requires key in entries
  {
    && 0 < |key| <= n && key == Caches.TieKey(|key| - 1)
    && entries[key].cachedAt == start + (|key| - 1) && entries[key].ttl == config.ttl
  }

  lemma {:induction false} WarmKeys(config: Caches.Config, held: map<string, Bytes>, n: nat, start: u64)
    requires HoldsKeys(held) && n <= 100 && start + 101 <= U64_MAX
    ensures |Warm(config, held, n, start)| == n
    ensures forall k :: k in Warm(config, held, n, start) ==>
                          WarmEntry(config, Warm(config, held, n, start), k, start, n)
    ensures forall i :: 0 <= i < n ==> Caches.TieKey(i) in Warm(config, held, n, start)
  {
    if n > 0 {
      var before, key := Warm(config, held, n - 1, start), Caches.TieKey(n - 1);
      assert |key| == n;
      WarmKeys(config, held, n - 1, start);
      hide Caches.TieKey, HoldsKeys;
      assert key !in before;
      var op := Caches.CachedOperation(key, held[key], start + (n - 1), config.ttl);
      assert Warm(config, held, n, start) == before[key := op];
      hide Warm;
      var after := before[key := op];
      forall k | k in after ensures WarmEntry(config, after, k, start, n) {
        if k != key {
          assert WarmEntry(config, before, k, start, n - 1);
        }
      }
      forall i | 0 <= i < n ensures Caches.TieKey(i) in after {
      }
    }
  }

  function FirstRetrieval(i: nat, start: u64): Event
    requires start + i <= U64_MAX
  {
    Retrieved(Caches.TieKey(i), false, start + i, start + i)
  }

  lemma WarmStep(config: Caches.Config, held: map<string, Bytes>, i: nat, start: u64)
    requires config.enabled && HoldsKeys(held) && i < 100 && start + 101 <= U64_MAX
    ensures var (s, s') := (State(held, Warm(config, held, i, start)), State(held, Warm(config, held, i + 1, start)));
            Step(config, s, FirstRetrieval(i, start), s') && Fills(config, s, FirstRetrieval(i, start))
  {
    WarmKeys(config, held, i, start);
    assert Caches.TieKey(i) !in Warm(config, held, i, start);
  }

  /** What the retrieval of one more key leaves: the first key is gone. */
  function AfterOverflow(config: Caches.Config, held: map<string, Bytes>, start: u64): Caches.Entries
    requires HoldsKeys(held) && start + 101 <= U64_MAX
  {
    var key := Caches.TieKey(100);
    (Warm(config, held, 100, start) - {Caches.TieKey(0)})
      [key := Caches.CachedOperation(key, held[key], start + 101, config.ttl)]
  }

  lemma FreshForASecond(op: Caches.CachedOperation, now: u64)
    requires op.ttl > 0 && op.cachedAt <= now < op.cachedAt + 1000
    ensures Caches.IsFresh(op, now)
  {
    assert op.ttl * 1000 >= 1000;
  }

  lemma HitThenOverflow(config: Caches.Config, held: map<string, Bytes>, start: u64)
    requires config.enabled && config.ttl > 0 && HoldsKeys(held) && start + 101 <= U64_MAX
    ensures var full := State(held, Warm(config, held, 100, start));
            var (first, last) := (Caches.TieKey(0), Caches.TieKey(100));
            && HitsKey(config, full, Retrieved(first, false, start + 100, start + 100), first)
            && Fills(config, full, Retrieved(last, false, start + 101, start + 101))
            && Step(config, full, Retrieved(last, false, start + 101, start + 101),
                    State(held, AfterOverflow(config, held, start)))
            && first in full.entries && first !in AfterOverflow(config, held, start)
  {
    WarmKeys(config, held, 100, start);
    var full := Warm(config, held, 100, start);
    assert |Caches.TieKey(0)| == 1 && |Caches.TieKey(100)| == 101;
    assert Caches.TieKey(0) in full && full[Caches.TieKey(0)].cachedAt == start;
    assert Caches.IsOldest(full, Caches.TieKey(0));
    FreshForASecond(full[Caches.TieKey(0)], start + 100);
  }

  /** Hundred keys are retrieved one after the other, then the first one again, then one
      more. The hit makes the first key the one used last, and it is the one dropped. */
  lemma KeyUsedLastIsDropped(config: Caches.Config, held: map<string, Bytes>, start: u64)
    returns (events: seq<Event>, states: seq<State>)
    requires config.enabled && config.ttl > 0 && HoldsKeys(held) && start + 101 <= U64_MAX
    ensures IsRun(config, events, states) && |events| == 102 && FillClockAdvances(config, events, states)
    ensures var first := Caches.TieKey(0);
            && HitsKey(config, states[100], events[100], first)
            && FillsKey(config, states[101], events[101], Caches.TieKey(100))
            && |states[101].entries| == 100 && first in states[101].entries && first !in states[102].entries
            && LastUsed(config, events, states, 101, first) == Some(100)
            && !LeastRecentlyUsed(config, events, states, 101, first)
  {
    hide Step, Fills, Warm, AfterOverflow, HitsKey, Caches.TieKey;
    var first, last := Caches.TieKey(0), Caches.TieKey(100);
    var full := State(held, Warm(config, held, 100, start));
    events := seq(100, i requires 0 <= i < 100 => FirstRetrieval(i, start))
              + [Retrieved(first, false, start + 100, start + 100), Retrieved(last, false, start + 101, start + 101)];
    states := seq(101, i requires 0 <= i < 101 => State(held, Warm(config, held, i, start)))
              + [full, State(held, AfterOverflow(config, held, start))];
    HitThenOverflow(config, held, start);
    forall i | 0 <= i < 100 ensures Step(config, states[i], events[i], states[i + 1]) {
      WarmStep(config, held, i, start);
    }
    HitChangesNothing(config, full, events[100]);
    WarmKeys(config, held, 0, start);
    assert states[0].entries == map[] by { assert |states[0].entries| == 0; }
    WarmKeys(config, held, 100, start);
    OthersUsedEarlier(config, events, states, first);
  }

  lemma HitChangesNothing(config: Caches.Config, s: State, e: Event)
    requires e.Retrieved? && HitsKey(config, s, e, e.key)
    ensures Step(config, s, e, s) && !Fills(config, s, e)
  {
  }

  /** A key hit at the end is not the least recently used of several. */
  lemma OthersUsedEarlier(config: Caches.Config, events: seq<Event>, states: seq<State>, first: string)
    requires |events| == 102 && |states| == 103 && HitsKey(config, states[100], events[100], first)
    requires |states[101].entries| == 100 && first in states[101].entries
    ensures LastUsed(config, events, states, 101, first) == Some(100)
    ensures !LeastRecentlyUsed(config, events, states, 101, first)
  {
    var others := states[101].entries.Keys - {first};
    assert |others| == 99;
    var k :| k in others;
    assert k in states[101].entries && events[100].key == first;
  }
}
