/** `rotate_master_key` of `crates/store-android/src/lifecycle.rs`: every item is read
    back through the cache, the master key is replaced, and the items are stored again. */
module KeyRotation {
  import opened Machine
  import Caches = OperationCaches
  import opened KeystoreOps

  datatype Item = Item(key: string, data: Bytes, bio: bool)

  datatype RotationError = Unavailable | NothingRead | NotRecreated | ItemsLost(failures: nat)

  /** How the Java side and the clock behave for each key in the two reading passes and in
      the storing pass, and what `rotateMasterKey` answers. */
  datatype RotationHost = RotationHost(
    attached: bool,
    read: string -> Host,
    readBio: string -> Host,
    write: string -> Host,
    now: string -> u64,
    addedAt: string -> u64,
    recreated: bool)

  /** The first pass gets something for `key` in state `s`. */
  predicate FirstRead(config: Caches.Config, s: State, key: string, host: RotationHost) {
    && host.read(key).attached
    && (Hits(config, s, key, false, host.now(key)) || (ValidKey(key) && host.read(key).works && key in s.keystore))
  }

  /** The second pass, with a biometric prompt and without the cache, gets something. */
  predicate SecondRead(s: State, key: string, host: RotationHost) {
    var h := host.readBio(key);
    h.attached && ValidKey(key) && h.confirmed && h.works && key in s.keystore
  }

  predicate Readable(config: Caches.Config, s: State, key: string, host: RotationHost) {
    FirstRead(config, s, key, host) || SecondRead(s, key, host)
  }

  /** What is kept for `key` when its first read finds state `s`. */
  function ReadBack(config: Caches.Config, s: State, key: string, host: RotationHost): Option<Bytes> {
    if FirstRead(config, s, key, host) then Retrieve(config, s, key, false, host.now(key))
    else if SecondRead(s, key, host) then Held(s, key)
    else None
  }

  /** The item that is kept, with the pass it came from. */
  function ItemOf(config: Caches.Config, s: State, key: string, host: RotationHost): Option<Item> {
    match ReadBack(config, s, key, host)
    case None => None
    case Some(data) => Some(Item(key, data, !FirstRead(config, s, key, host)))
  }

  /** Storing the item again succeeds. */
  predicate Storable(item: Item, host: RotationHost) {
    var h := host.write(item.key);
    h.attached && ValidKey(item.key) && ValidData(item.data) && (item.bio ==> h.confirmed) && h.works
  }

  /** The first read of `key` gives something else than the Keystore holds. */
  predicate ReadsStale(config: Caches.Config, s: State, key: string, host: RotationHost) {
    FirstRead(config, s, key, host) && Retrieve(config, s, key, false, host.now(key)) != Held(s, key)
  }

  function ReadEvent(config: Caches.Config, s: State, key: string, host: RotationHost): Event {
    if FirstRead(config, s, key, host) then Retrieved(key, false, host.now(key), host.addedAt(key)) else Failed
  }

  /** `seen` are the contents before each read of the first pass, and after the last. */
  ghost predicate FirstPass(config: Caches.Config, keys: seq<string>, seen: seq<State>, host: RotationHost) {
    && |seen| == |keys| + 1
    && (forall i :: 0 <= i < |seen| ==> seen[i].keystore == seen[0].keystore)
    && forall i :: 0 <= i < |keys| ==> Step(config, seen[i], ReadEvent(config, seen[i], keys[i], host), seen[i + 1])
  }

  predicate Distinct(keys: seq<string>) {
    forall i, j :: 0 <= i < j < |keys| ==> keys[i] != keys[j]
  }

  // ----- Lists of items -----

  predicate DistinctItems(items: seq<Item>) {
    forall i, j :: 0 <= i < j < |items| ==> items[i].key != items[j].key
  }

  function ItemFor(items: seq<Item>, key: string): (found: Option<Item>)
    ensures found.Some? ==> found.value in items && found.value.key == key
    ensures found.None? ==> forall item :: item in items ==> item.key != key
  {
    if items == [] then None
    else if items[|items| - 1].key == key then Some(items[|items| - 1])
    else ItemFor(items[..|items| - 1], key)
  }

  lemma ItemForAppend(items: seq<Item>, item: Item, key: string)
    ensures ItemFor(items + [item], key) == if key == item.key then Some(item) else ItemFor(items, key)
  {
    assert (items + [item])[..|items|] == items;
  }

  lemma {:induction false} ItemForOnly(items: seq<Item>, item: Item)
    requires DistinctItems(items) && item in items
    ensures ItemFor(items, item.key) == Some(item)
  {
    if items[|items| - 1] != item {
      ItemForOnly(items[..|items| - 1], item);
    }
  }

  // ----- Phase 1: reading -----

  /** What the first pass keeps. */
  function FirstItem(config: Caches.Config, s: State, key: string, host: RotationHost): Option<Item> {
    if FirstRead(config, s, key, host) then ItemOf(config, s, key, host) else None
  }

  /** The first pass over `keys` has kept `items` and left `bioKeys` for the second. */
  ghost predicate FirstDone(config: Caches.Config, keys: seq<string>, seen: seq<State>, items: seq<Item>,
                            bioKeys: seq<string>, host: RotationHost)
  {
    && FirstPass(config, keys, seen, host)
    && DistinctItems(items) && Distinct(bioKeys)
    && (forall item :: item in items ==> item.key in keys)
    && (forall k :: k in bioKeys ==> k in keys)
    && forall i :: 0 <= i < |keys| ==>
                     && ItemFor(items, keys[i]) == FirstItem(config, seen[i], keys[i], host)
                     && (keys[i] in bioKeys <==> FirstItem(config, seen[i], keys[i], host).None?)
  }

  lemma FirstGoesOn(config: Caches.Config, keys: seq<string>, seen: seq<State>, items: seq<Item>, bioKeys: seq<string>,
                    host: RotationHost, k: string, s': State, got: Option<Bytes>)
    requires FirstDone(config, keys, seen, items, bioKeys, host) && k !in keys
    requires var s := seen[|keys|];
             && s'.keystore == s.keystore && Step(config, s, ReadEvent(config, s, k, host), s')
             && FirstItem(config, s, k, host) == (if got.Some? then Some(Item(k, got.value, false)) else None)
    ensures got.Some? ==> FirstDone(config, keys + [k], seen + [s'], items + [Item(k, got.value, false)], bioKeys, host)
    ensures got.None? ==> FirstDone(config, keys + [k], seen + [s'], items, bioKeys + [k], host)
  {
    hide Step, FirstItem, ReadEvent, ItemFor;
    if got.Some? {
      forall key ensures ItemFor(items + [Item(k, got.value, false)], key)
                         == if key == k then Some(Item(k, got.value, false)) else ItemFor(items, key)
      {
        ItemForAppend(items, Item(k, got.value, false), key);
      }
    } else {
      assert ItemFor(items, k).None?;
    }
    assert forall i :: 0 <= i < |keys| ==> (keys + [k])[i] == keys[i] && (seen + [s'])[i] == seen[i] && keys[i] != k;
  }

  method FirstReads(storage: AndroidSecureStorage, keys: seq<string>, host: RotationHost)
    returns (items: seq<Item>, bioKeys: seq<string>, ghost seen: seq<State>)
    requires Distinct(keys)
    modifies storage.cache
    ensures FirstDone(storage.Config(), keys, seen, items, bioKeys, host)
    ensures seen[0] == old(storage.Contents()) && seen[|keys|] == storage.Contents()
  {
    hide FirstPass, FirstItem, ItemFor, Step;
    ghost var config := storage.Config();
    items, bioKeys, seen := [], [], [storage.Contents()];
    FirstBegins(config, storage.Contents(), host);
    for i := 0 to |keys|
      invariant FirstDone(config, keys[..i], seen, items, bioKeys, host)
      invariant |seen| == i + 1 && seen[0] == old(storage.Contents()) && seen[i] == storage.Contents()
    {
      var k := keys[i];
      ghost var s := storage.Contents();
      var r := storage.RetrieveSecure(k, false, host.now(k), host.addedAt(k), host.read(k));
      ReadIsFirstRead(config, s, k, host, r, storage.Contents());
      assert keys[..i + 1] == keys[..i] + [k];
      FirstGoesOn(config, keys[..i], seen, items, bioKeys, host, k, storage.Contents(),
                  if r.Ok? then Some(r.value) else None);
      seen := seen + [storage.Contents()];
      match r {
        case Ok(d) => items := items + [Item(k, d, false)];
        case Err(_) => bioKeys := bioKeys + [k];
      }
    }
    assert keys[..|keys|] == keys;
  }

  lemma FirstBegins(config: Caches.Config, s: State, host: RotationHost)
    ensures FirstDone(config, [], [s], [], [], host)
  {
  }

  /** The contract of a non-biometric retrieval in the terms of the first pass. */
  lemma ReadIsFirstRead(config: Caches.Config, s: State, k: string, host: RotationHost,
                        r: Result<Bytes, StorageFailure>, s': State)
    requires r.Ok? <==> FirstRead(config, s, k, host)
    requires r.Ok? ==> Some(r.value) == Retrieve(config, s, k, false, host.now(k))
    requires Step(config, s, if r.Ok? then Retrieved(k, false, host.now(k), host.addedAt(k)) else Failed, s')
    ensures s'.keystore == s.keystore && Step(config, s, ReadEvent(config, s, k, host), s')
    ensures FirstItem(config, s, k, host) == if r.Ok? then Some(Item(k, r.value, false)) else None
  {
    hide Caches.Step;
  }

  /** Phase 1: both reading passes. */
  method Backup(storage: AndroidSecureStorage, keys: seq<string>, host: RotationHost)
    returns (items: seq<Item>, ghost seen: seq<State>)
    requires Distinct(keys)
    modifies storage.cache
    ensures |seen| == |keys| + 1 && DistinctItems(items)
    ensures FirstPass(storage.Config(), keys, seen, host) && seen[0] == old(storage.Contents())
    ensures ItemsOf(storage.Config(), keys, seen, items, host)
  {
    ghost var config := storage.Config();
    var bioKeys;
    items, bioKeys, seen := FirstReads(storage, keys, host);
    ghost var first := items;
    hide FirstPass, FirstRead, Step, ItemFor, FirstItem, SecondBack;
    for b := 0 to |bioKeys|
      invariant storage.Contents() == seen[|keys|]
      invariant SecondDone(storage.keystore, first, items, bioKeys[..b], host)
    {
      var k := bioKeys[b];
      var r := storage.RetrieveSecure(k, true, host.now(k), host.addedAt(k), host.readBio(k));
      BioReadChangesNothing(config, seen[|keys|], k, host, r, storage.Contents());
      assert bioKeys[..b + 1] == bioKeys[..b] + [k];
      SecondGoesOn(storage.keystore, first, items, bioKeys[..b], host, k, if r.Ok? then Some(r.value) else None);
      match r {
        case Ok(d) => items := items + [Item(k, d, true)];
        case Err(_) =>
      }
    }
    assert bioKeys[..|bioKeys|] == bioKeys;
    BothDone(config, keys, seen, first, items, bioKeys, host);
  }

  /** Each key has the item that its reads gave, once, and there are no other items. */
  ghost predicate ItemsOf(config: Caches.Config, keys: seq<string>, seen: seq<State>, items: seq<Item>,
                          host: RotationHost)
    requires |keys| < |seen|
  {
    && DistinctItems(items)
    && (forall item :: item in items ==> item.key in keys)
    && forall i :: 0 <= i < |keys| ==> ItemFor(items, keys[i]) == ItemOf(config, seen[i], keys[i], host)
  }

  function SecondBack(keystore: map<string, Bytes>, key: string, host: RotationHost): Option<Item> {
    if SecondRead(State(keystore, map[]), key, host) then Some(Item(key, keystore[key], true)) else None
  }

  /** The second pass over `bioKeys` has added what it read to the items of the first. */
  ghost predicate SecondDone(keystore: map<string, Bytes>, first: seq<Item>, items: seq<Item>, bioKeys: seq<string>,
                             host: RotationHost)
  {
    && DistinctItems(items)
    && forall k :: ItemFor(items, k)
                   == if k in bioKeys && SecondBack(keystore, k, host).Some? then SecondBack(keystore, k, host)
                      else ItemFor(first, k)
  }

  lemma SecondGoesOn(keystore: map<string, Bytes>, first: seq<Item>, items: seq<Item>, bioKeys: seq<string>,
                     host: RotationHost, k: string, got: Option<Bytes>)
    requires SecondDone(keystore, first, items, bioKeys, host) && k !in bioKeys && ItemFor(first, k).None?
    requires SecondBack(keystore, k, host) == if got.Some? then Some(Item(k, got.value, true)) else None
    ensures var items' := if got.Some? then items + [Item(k, got.value, true)] else items;
            SecondDone(keystore, first, items', bioKeys + [k], host)
  {
    hide SecondBack, ItemFor;
    if got.Some? {
      assert ItemFor(items, k).None?;
      forall key ensures ItemFor(items + [Item(k, got.value, true)], key)
                         == if key == k then Some(Item(k, got.value, true)) else ItemFor(items, key)
      {
        ItemForAppend(items, Item(k, got.value, true), key);
      }
    }
  }

  lemma BioReadChangesNothing(config: Caches.Config, s: State, k: string, host: RotationHost,
                              r: Result<Bytes, StorageFailure>, s': State)
    requires r.Ok? <==> SecondRead(s, k, host)
    requires r.Ok? ==> Some(r.value) == Retrieve(config, s, k, true, host.now(k))
    requires Step(config, s, if r.Ok? then Retrieved(k, true, host.now(k), host.addedAt(k)) else Failed, s')
    ensures s' == s
    ensures SecondBack(s.keystore, k, host) == if r.Ok? then Some(Item(k, r.value, true)) else None
  {
  }

  lemma BothDone(config: Caches.Config, keys: seq<string>, seen: seq<State>, first: seq<Item>, items: seq<Item>,
                 bioKeys: seq<string>, host: RotationHost)
    requires FirstDone(config, keys, seen, first, bioKeys, host)
    requires SecondDone(seen[|keys|].keystore, first, items, bioKeys, host)
    ensures ItemsOf(config, keys, seen, items, host)
  {
    hide ItemFor, Step;
    var keystore := seen[|keys|].keystore;
    forall i | 0 <= i < |keys| ensures ItemFor(items, keys[i]) == ItemOf(config, seen[i], keys[i], host) {
      assert seen[i].keystore == keystore;
    }
    forall item | item in items ensures item.key in keys {
      ItemForOnly(items, item);
    }
  }

  // ----- Storing again -----

  function Failures(items: seq<Item>, host: RotationHost): nat {
    if items == [] then 0
    else Failures(items[..|items| - 1], host) + if Storable(items[|items| - 1], host) then 0 else 1
  }

  /** The Keystore holds the storable items and nothing else. */
  ghost predicate HoldsStorable(keystore: map<string, Bytes>, items: seq<Item>, host: RotationHost) {
    forall k :: (if k in keystore then Some(keystore[k]) else None) == StoredData(ItemFor(items, k), host)
  }

  function StoredData(item: Option<Item>, host: RotationHost): Option<Bytes> {
    if item.Some? && Storable(item.value, host) then Some(item.value.data) else None
  }

  /** Phase 4: every item is stored again, and `failures` counts those whose store fails. */
  method Restore(storage: AndroidSecureStorage, items: seq<Item>, host: RotationHost) returns (failures: nat)
    requires storage.keystore == map[] && DistinctItems(items)
    modifies storage`keystore
    ensures failures == Failures(items, host)
    ensures HoldsStorable(storage.keystore, items, host)
  {
    hide ItemFor;
    failures := 0;
    assert HoldsStorable(map[], [], host) by { NothingStored(host); }
    for i := 0 to |items|
      invariant failures == Failures(items[..i], host)
      invariant HoldsStorable(storage.keystore, items[..i], host)
    {
      assert items[..i + 1] == items[..i] + [items[i]] && items[..i + 1][..i] == items[..i];
      ghost var before := storage.keystore;
      var r := storage.StoreSecure(items[i].key, items[i].data, items[i].bio, host.write(items[i].key));
      if r.Err? {
        failures := failures + 1;
      }
      OneMoreStored(before, items[..i], items[i], host, storage.keystore);
    }
    assert items[..|items|] == items;
  }

  lemma NothingStored(host: RotationHost)
    ensures HoldsStorable(map[], [], host)
  {
  }

  lemma OneMoreStored(before: map<string, Bytes>, items: seq<Item>, item: Item, host: RotationHost,
                      after: map<string, Bytes>)
    requires HoldsStorable(before, items, host) && forall other :: other in items ==> other.key != item.key
    requires after == if Storable(item, host) then before[item.key := item.data] else before
    ensures HoldsStorable(after, items + [item], host)
  {
    hide ItemFor, Storable;
    forall k ensures (if k in after then Some(after[k]) else None) == StoredData(ItemFor(items + [item], k), host) {
      ItemForAppend(items, item, k);
      assert (if k in before then Some(before[k]) else None) == StoredData(ItemFor(items, k), host);
    }
  }

  /** The keys whose item cannot be stored again. */
  function LostKeys(config: Caches.Config, keys: seq<string>, seen: seq<State>, host: RotationHost): set<string>
    requires |keys| < |seen|
  {
    set i | 0 <= i < |keys| && ItemOf(config, seen[i], keys[i], host).Some?
            && !Storable(ItemOf(config, seen[i], keys[i], host).value, host) :: keys[i]
  }

  function FailingKeys(items: seq<Item>, host: RotationHost): set<string> {
    set item | item in items && !Storable(item, host) :: item.key
  }

  lemma {:induction false} FailuresAreKeys(items: seq<Item>, host: RotationHost)
    requires DistinctItems(items)
    ensures Failures(items, host) == |FailingKeys(items, host)|
  {
    hide Storable;
    if items != [] {
      var n := |items| - 1;
      FailuresAreKeys(items[..n], host);
      assert items == items[..n] + [items[n]];
      assert FailingKeys(items, host)
             == FailingKeys(items[..n], host) + if Storable(items[n], host) then {} else {items[n].key};
    }
  }

  lemma FailuresAreLostKeys(config: Caches.Config, keys: seq<string>, seen: seq<State>, items: seq<Item>,
                            host: RotationHost)
    requires |keys| < |seen| && ItemsOf(config, keys, seen, items, host)
    ensures Failures(items, host) == |LostKeys(config, keys, seen, host)|
    ensures items == [] <==> forall i :: 0 <= i < |keys| ==> !Readable(config, seen[i], keys[i], host)
  {
    hide Storable, ItemFor;
    FailuresAreKeys(items, host);
    forall item | item in items
      ensures exists i :: 0 <= i < |keys| && ItemOf(config, seen[i], keys[i], host) == Some(item)
    {
      ItemForOnly(items, item);
      var i :| 0 <= i < |keys| && keys[i] == item.key;
    }
    forall i | 0 <= i < |keys| && Readable(config, seen[i], keys[i], host)
      ensures ItemOf(config, seen[i], keys[i], host).Some? && ItemOf(config, seen[i], keys[i], host).value in items
    {
    }
    assert FailingKeys(items, host) == LostKeys(config, keys, seen, host);
    if items != [] {
      assert items[0] in items;
      var i :| 0 <= i < |keys| && ItemOf(config, seen[i], keys[i], host) == Some(items[0]);
      assert Readable(config, seen[i], keys[i], host);
    }
  }

  /** Every key that could be read back holds afterwards what the Keystore held before. */
  ghost predicate KeepsReadable(config: Caches.Config, keys: seq<string>, seen: seq<State>, host: RotationHost,
                                after: State)
    requires |keys| < |seen|
  {
    forall i :: 0 <= i < |keys| && Readable(config, seen[i], keys[i], host) ==>
                  Held(after, keys[i]) == Held(seen[0], keys[i])
  }

  ghost predicate NoStaleRead(config: Caches.Config, keys: seq<string>, seen: seq<State>, host: RotationHost)
    requires |keys| < |seen|
  {
    forall i :: 0 <= i < |keys| ==> !ReadsStale(config, seen[i], keys[i], host)
  }

  /** What was read back is stored again, except for the lost keys. */
  ghost predicate RestoredAll(config: Caches.Config, keys: seq<string>, seen: seq<State>, host: RotationHost,
                              after: State)
    requires |keys| < |seen|
  {
    && (forall k :: k in after.keystore ==> k in keys)
    && forall i :: 0 <= i < |keys| ==>
                     Held(after, keys[i])
                     == if keys[i] in LostKeys(config, keys, seen, host) then None
                        else ReadBack(config, seen[i], keys[i], host)
  }

  lemma RestoredFromItems(config: Caches.Config, keys: seq<string>, seen: seq<State>, items: seq<Item>,
                          host: RotationHost, after: State)
    requires |keys| < |seen| && Distinct(keys) && ItemsOf(config, keys, seen, items, host)
    requires HoldsStorable(after.keystore, items, host)
    ensures RestoredAll(config, keys, seen, host, after)
  {
    hide Storable, ItemFor, Readable;
    forall i | 0 <= i < |keys|
      ensures Held(after, keys[i])
              == if keys[i] in LostKeys(config, keys, seen, host) then None
                 else ReadBack(config, seen[i], keys[i], host)
    {
      assert Held(after, keys[i]) == StoredData(ItemFor(items, keys[i]), host);
    }
    forall k | k in after.keystore ensures k in keys {
      assert Held(after, k) == StoredData(ItemFor(items, k), host);
    }
  }

  lemma KeepsExactlyWithoutStaleRead(config: Caches.Config, keys: seq<string>, seen: seq<State>, host: RotationHost,
                                     after: State)
    requires FirstPass(config, keys, seen, host)
    requires RestoredAll(config, keys, seen, host, after) && LostKeys(config, keys, seen, host) == {}
    ensures KeepsReadable(config, keys, seen, host, after) <==> NoStaleRead(config, keys, seen, host)
  {
    hide Step, Hits, Retrieve, LostKeys;
    forall i | 0 <= i < |keys|
      ensures (Readable(config, seen[i], keys[i], host) ==> Held(after, keys[i]) == Held(seen[0], keys[i]))
              <==> !ReadsStale(config, seen[i], keys[i], host)
    {
      assert seen[i].keystore == seen[0].keystore;
    }
  }

  /** Something can be rotated: there is nothing to keep, or something was read back. */
  ghost predicate Proceeds(config: Caches.Config, keys: seq<string>, seen: seq<State>, host: RotationHost)
    requires |keys| < |seen|
  {
    keys == [] || exists i :: 0 <= i < |keys| && Readable(config, seen[i], keys[i], host)
  }

  /** The answer of a rotation, condition by condition. */
  ghost predicate AnswersRightly(config: Caches.Config, keys: seq<string>, seen: seq<State>, host: RotationHost,
                                 r: Result<(), RotationError>)
    requires |keys| < |seen|
  {
    var lost := LostKeys(config, keys, seen, host);
    && (r.Ok? <==> host.attached && Proceeds(config, keys, seen, host) && host.recreated && lost == {})
    && (r == Err(Unavailable) <==> !host.attached)
    && (r == Err(NothingRead) <==> host.attached && !Proceeds(config, keys, seen, host))
    && (r == Err(NotRecreated) <==> host.attached && Proceeds(config, keys, seen, host) && !host.recreated)
    && (r.Err? && r.error.ItemsLost? <==>
          host.attached && Proceeds(config, keys, seen, host) && host.recreated && lost != {})
    && (r.Err? && r.error.ItemsLost? ==> r.error.failures == |lost|)
  }

  /** `rotate_master_key`, where `keys` is what `listKeys` answered. Every answer has its
      exact condition. Unless the master key is replaced, the Keystore is as it was; and
      then it holds what was read back, except what could not be stored. After a success
      every readable item is kept exactly when no read of the first pass was stale. */
  method RotateMasterKey(storage: AndroidSecureStorage, keys: seq<string>, host: RotationHost)
    returns (r: Result<(), RotationError>, ghost seen: seq<State>)
    requires Distinct(keys)
    modifies storage`keystore, storage.cache
    ensures |seen| == |keys| + 1 && AnswersRightly(storage.Config(), keys, seen, host, r)
    ensures host.attached ==> FirstPass(storage.Config(), keys, seen, host) && seen[0] == old(storage.Contents())
    ensures if r.Ok? || r.error.ItemsLost? then RestoredAll(storage.Config(), keys, seen, host, storage.Contents())
            else storage.keystore == old(storage.keystore)
    ensures r.Ok? ==> (KeepsReadable(storage.Config(), keys, seen, host, storage.Contents())
                       <==> NoStaleRead(storage.Config(), keys, seen, host))
  {
    hide FirstPass, ItemsOf, Readable, LostKeys, Step, KeepsReadable, NoStaleRead, HoldsStorable, RestoredAll;
    ghost var config := storage.Config();
    if !host.attached {
      ghost var unseen := storage.Contents();
      seen := seq(|keys| + 1, _ => unseen);
      return Err(Unavailable), seen;
    }
    var items;
    items, seen := Backup(storage, keys, host);
    FailuresAreLostKeys(config, keys, seen, items, host);
    if items == [] && keys != [] { return Err(NothingRead), seen; }
    if !host.recreated { return Err(NotRecreated), seen; }
    storage.keystore := map[];
    var failures := Restore(storage, items, host);
    RestoredFromItems(config, keys, seen, items, host, storage.Contents());
    if failures > 0 { return Err(ItemsLost(failures)), seen; }
    KeepsExactlyWithoutStaleRead(config, keys, seen, host, storage.Contents());
    return Ok(()), seen;
  }

  // ----- Rotation in a run -----

  function ReadEvents(config: Caches.Config, keys: seq<string>, seen: seq<State>, host: RotationHost): seq<Event>
    requires |keys| < |seen|
  {
    seq(|keys|, i requires 0 <= i < |keys| => ReadEvent(config, seen[i], keys[i], host))
  }

  /** The reads of a rotation go on with the run that led to it, so that which of them are
      stale is what `StaleExactlyWhen` says: an entry that the read may use is fresh, and
      other data was stored since it was filled. */
  lemma StaleReadExactlyWhen(config: Caches.Config, events: seq<Event>, states: seq<State>,
                             keys: seq<string>, seen: seq<State>, host: RotationHost, i: nat)
    returns (events': seq<Event>, states': seq<State>)
    requires IsRun(config, events, states) && FirstPass(config, keys, seen, host) && seen[0] == states[|events|]
    requires i < |keys| && FirstRead(config, seen[i], keys[i], host)
    ensures |events'| == |events| + i && |states'| == |events'| + 1 && events <= events'
    ensures IsRun(config, events', states') && states'[|events'|] == seen[i]
    ensures ReadsStale(config, seen[i], keys[i], host)
            <==> && Hits(config, seen[i], keys[i], false, host.now(keys[i]))
                 && exists p :: && FilledAt(config, events', states', |events'|, keys[i]) == Some(p)
                                && StoredSince(events', p + 1, |events'|, keys[i]).Some?
                                && StoredSince(events', p + 1, |events'|, keys[i]) != Held(states'[p], keys[i])
  {
    events', states' := events + ReadEvents(config, keys, seen, host)[..i], states + seen[1..i + 1];
    forall j | 0 <= j < |events'| ensures Step(config, states'[j], events'[j], states'[j + 1]) {
      if j >= |events| {
        assert states'[j] == seen[j - |events|];
      }
    }
    StaleExactlyWhen(config, events', states', |events'|, keys[i], false, host.now(keys[i]));
  }

  /** After the run of `StoreThenStaleRetrieve` a rotation writes the older data back. */
  lemma RotationWritesStaleDataBack(config: Caches.Config, key: string, first: Bytes, second: Bytes, host: RotationHost)
    returns (events: seq<Event>, states: seq<State>)
    requires config.enabled && config.ttl > 0 && host.read(key).attached
    requires ValidKey(key) && ValidData(first) && ValidData(second) && first != second
    ensures IsRun(config, events, states) && |states| == 4
    ensures Held(states[3], key) == Some(second) && ReadsStale(config, states[3], key, host)
    ensures ReadBack(config, states[3], key, host) == Some(first)
  {
    events, states := StoreThenStaleRetrieve(config, map[], key, first, second, host.now(key));
  }
}
