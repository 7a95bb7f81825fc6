/** The store object of `crates/core/src/storage_tests.rs` and the maintenance
    helpers of `crates/core/src/storage.rs` that run on it. */
module MemoryStores {
  import opened Machine
  import opened WalletTypes
  import opened TextOrder
  import opened Storage
  import opened AgeCutoff

  function PutReply(r: Result<(), StorageError>): Reply {
    match r
    case Ok(_) => Done
    case Err(e) => Failed(e)
  }

  function GetReply(r: Result<Option<CredentialV2>, StorageError>): Reply {
    match r
    case Ok(cred) => Credential(cred)
    case Err(e) => Failed(e)
  }

  class MemoryStore {
    var data: Data
    var metadata: Metadata
    const maxCredentials: nat
    const codec: Codec

    function Contents(): Store
      reads this
    {
      Store(data, metadata)
    }

    /** The state every operation keeps. */
    ghost predicate Good()
      reads this
    {
      codec.Lawful() && Consistent(codec, Contents()) && |metadata| <= maxCredentials
    }

    /** The map of credentials that a good store stands for. */
    ghost function Vault(): (v: Vault)
      requires Good()
      reads this
      ensures v.creds.Keys == metadata.Keys && |v.creds| == |metadata|
      ensures forall id :: id in v.creds ==> v.creds[id].meta == metadata[id] && metadata[id].id == id
    {
      VaultMetadata(codec, Contents());
      VaultOf(codec, Contents())
    }

    /** The two maps changed as `Exec` says, and on a good store, with raw keys
        apart from credentials, the vault changed as `Apply` says. */
    twostate predicate Did(op: Op, reply: Reply)
      reads this
    {
      && (Contents(), reply) == Exec(codec, op, old(Contents()), maxCredentials)
      && (old(Good()) && KeepsApart(op) ==>
            Good() && (Vault(), reply) == Apply(op, old(Vault()), maxCredentials))
    }

    constructor (codec: Codec)
      ensures this.codec == codec && maxCredentials == 32
      ensures Contents() == Store(map[], map[])
      ensures codec.Lawful() ==> Good()
    {
      this.codec := codec;
      data, metadata, maxCredentials := map[], map[], 32;
    }

    constructor WithCapacity(codec: Codec, maxCredentials: nat)
      ensures this.codec == codec && this.maxCredentials == maxCredentials
      ensures Contents() == Store(map[], map[])
      ensures codec.Lawful() ==> Good()
    {
      this.codec := codec;
      this.maxCredentials := maxCredentials;
      data, metadata := map[], map[];
    }

    method PutCredential(cred: CredentialV2, meta: CredentialMetadata) returns (r: Result<(), StorageError>)
      modifies this
      ensures Did(Op.PutCredential(cred, meta), PutReply(r))
    {
      var full := |metadata| >= maxCredentials && meta.id !in metadata;
      if full {
        ExecKeeps(codec, Op.PutCredential(cred, meta), old(Contents()), maxCredentials);
        return Err(StorageFull);
      }
      data := data[CredEntry(meta.id) := codec.Write(cred)];
      metadata := metadata[meta.id := meta];
      ExecKeeps(codec, Op.PutCredential(cred, meta), old(Contents()), maxCredentials);
      return Ok(());
    }

    method GetCredential(id: string) returns (r: Result<Option<CredentialV2>, StorageError>)
      ensures Did(Op.GetCredential(id), GetReply(r))
    {
      if CredEntry(id) in data {
        match codec.Read(data[CredEntry(id)]) {
          case Ok(cred) => r := Ok(Some(cred));
          case Err(e) => r := Err(e);
        }
      } else {
        r := Ok(None);
      }
      ExecKeeps(codec, Op.GetCredential(id), old(Contents()), maxCredentials);
    }

    method DeleteCredential(id: string) returns (removed: bool)
      modifies this
      ensures Did(Op.DeleteCredential(id), Removed(removed))
    {
      var removedData := CredEntry(id) in data;
      data := data - {CredEntry(id)};
      var removedMeta := id in metadata;
      metadata := metadata - {id};
      removed := removedData || removedMeta;
      ExecKeeps(codec, Op.DeleteCredential(id), old(Contents()), maxCredentials);
    }

    method ListCredentials() returns (list: seq<CredentialMetadata>)
      ensures Did(Op.ListCredentials, Listing(list))
    {
      list := ListOf(metadata);
      ExecKeeps(codec, Op.ListCredentials, old(Contents()), maxCredentials);
    }

    method GetBytes(key: string) returns (bytes: Option<Bytes>)
      ensures Did(Op.GetBytes(KeyOf(key)), Raw(bytes))
    {
      bytes := if KeyOf(key) in data then Some(data[KeyOf(key)]) else None;
      ExecKeeps(codec, Op.GetBytes(KeyOf(key)), old(Contents()), maxCredentials);
    }

    method PutBytes(key: string, value: Bytes)
      modifies this
      ensures Did(Op.PutBytes(KeyOf(key), value), Done)
    {
      data := data[KeyOf(key) := value];
      ExecKeeps(codec, Op.PutBytes(KeyOf(key), value), old(Contents()), maxCredentials);
    }

    method Delete(key: string) returns (removed: bool)
      modifies this
      ensures Did(Op.Delete(KeyOf(key)), Removed(removed))
    {
      removed := KeyOf(key) in data;
      data := data - {KeyOf(key)};
      ExecKeeps(codec, Op.Delete(KeyOf(key)), old(Contents()), maxCredentials);
    }

    method ClearAll()
      modifies this
      ensures Did(Op.ClearAll, Done)
    {
      data := map[];
      metadata := map[];
      ExecKeeps(codec, Op.ClearAll, old(Contents()), maxCredentials);
    }
  }

  // ----- Calls on a good store, seen through its vault -----

  method List(store: MemoryStore, ghost v: Vault) returns (list: seq<CredentialMetadata>)
    requires store.Good() && store.Vault() == v
    ensures list == ListOf(MetadataOf(v))
  {
    hide Consistent, VaultOf;
    list := store.ListCredentials();
  }

  method Get(store: MemoryStore, id: string, ghost v: Vault) returns (r: Result<Option<CredentialV2>, StorageError>)
    requires store.Good() && store.Vault() == v
    ensures r == Ok(if id in v.creds then Some(v.creds[id].cred) else None)
  {
    r := store.GetCredential(id);
  }

  method Remove(store: MemoryStore, id: string, ghost v: Vault)
    requires store.Good() && store.Vault() == v
    modifies store
    ensures store.Good() && store.Vault() == v.(creds := v.creds - {id})
  {
    hide Consistent, VaultOf, Exec;
    var _ := store.DeleteCredential(id);
  }

  /** What iterating the metadata map visits: every id once, in order. */
  lemma ListVisitsAll(v: Vault) returns (ids: seq<string>)
    requires forall id :: id in v.creds ==> v.creds[id].meta.id == id
    ensures |ListOf(MetadataOf(v))| == |ids| == |v.creds|
    ensures forall k :: 0 <= k < |ids| ==> ids[k] in v.creds && ListOf(MetadataOf(v))[k] == v.creds[ids[k]].meta
    ensures forall k :: 0 <= k < |ids| ==> ListOf(MetadataOf(v))[k].id == ids[k]
    ensures forall id :: id in v.creds ==> id in ids
    ensures forall j, k :: 0 <= j < k < |ids| ==> Less(ids[j], ids[k]) && ids[j] != ids[k]
  {
    hide ListOf, MetadataOf, InOrder;
    ids := InOrder(v.creds.Keys);
    InOrderVisitsAll(v.creds.Keys);
    ListIsRows(v);
    forall k | 0 <= k < |ids|
      ensures ids[k] in v.creds && ListOf(MetadataOf(v))[k] == v.creds[ids[k]].meta
    {
      assert ids[k] in ids;
      ListRow(v, k);
    }
  }

  lemma ListIsRows(v: Vault)
    ensures |ListOf(MetadataOf(v))| == |InOrder(v.creds.Keys)|
  {
    assert MetadataOf(v).Keys == v.creds.Keys;
  }

  lemma ListRow(v: Vault, k: nat)
    requires k < |InOrder(v.creds.Keys)|
    ensures |ListOf(MetadataOf(v))| == |InOrder(v.creds.Keys)|
    ensures InOrder(v.creds.Keys)[k] in v.creds
    ensures ListOf(MetadataOf(v))[k] == v.creds[InOrder(v.creds.Keys)[k]].meta
  {
    assert MetadataOf(v).Keys == v.creds.Keys;
    InOrderVisitsAll(v.creds.Keys);
    assert InOrder(v.creds.Keys)[k] in InOrder(v.creds.Keys);
    RowAt(InOrder(v.creds.Keys), MetadataOf(v), k);
  }

  // ----- Expiry sweep -----

  /** The vault without its expired credentials; `pending` are not swept yet. */
  function SweptExcept(v: Vault, now: u64, pending: set<string>): Vault {
    v.(creds := map id | id in v.creds && (id in pending || v.creds[id].cred.exp >= now) :: v.creds[id])
  }

  /** Exactly the credentials that expire at `now` or later, and all raw bytes. */
  function Swept(v: Vault, now: u64): Vault {
    SweptExcept(v, now, {})
  }

  function IdsFrom(ids: seq<string>, i: nat): (s: set<string>)
    requires i <= |ids|
  {
    set k | i <= k < |ids| :: ids[k]
  }

  lemma SweepStep(v: Vault, now: u64, ids: seq<string>, i: nat)
    requires i < |ids| && ids[i] in v.creds
    requires forall k :: i < k < |ids| ==> ids[k] != ids[i]
    ensures var before, after := SweptExcept(v, now, IdsFrom(ids, i)), SweptExcept(v, now, IdsFrom(ids, i + 1));
            && ids[i] in before.creds && before.creds[ids[i]] == v.creds[ids[i]]
            && after == (if v.creds[ids[i]].cred.exp < now then before.(creds := before.creds - {ids[i]}) else before)
            && |after.creds| == (if v.creds[ids[i]].cred.exp < now then |before.creds| - 1 else |before.creds|)
  {
    var pending := IdsFrom(ids, i + 1);
    assert IdsFrom(ids, i) == pending + {ids[i]};
    SweepOne(v, now, pending, ids[i]);
  }

  lemma SweepOne(v: Vault, now: u64, pending: set<string>, id: string)
    requires id in v.creds && id !in pending
    ensures var before, after := SweptExcept(v, now, pending + {id}), SweptExcept(v, now, pending);
            && id in before.creds && before.creds[id] == v.creds[id]
            && after == (if v.creds[id].cred.exp < now then before.(creds := before.creds - {id}) else before)
            && |after.creds| == (if v.creds[id].cred.exp < now then |before.creds| - 1 else |before.creds|)
  {
    var before, after := SweptExcept(v, now, pending + {id}), SweptExcept(v, now, pending);
    if v.creds[id].cred.exp < now {
      assert after.creds == before.creds - {id};
      assert after.creds.Keys == before.creds.Keys - {id};
    } else {
      assert after.creds == before.creds;
    }
  }

  /** `cleanup_expired`. */
  method CleanupExpired(store: MemoryStore, now: u64) returns (r: Result<nat, StorageError>)
    requires store.Good()
    modifies store
    ensures store.Good() && store.Vault() == Swept(old(store.Vault()), now)
    ensures r == Ok(|old(store.Vault()).creds| - |Swept(old(store.Vault()), now).creds|)
  {
    hide MemoryStore.Good, MemoryStore.Vault;
    ghost var v := store.Vault();
    var list := List(store, v);
    ghost var ids := ListVisitsAll(v);
    var removed := 0;
    assert SweptExcept(v, now, IdsFrom(ids, 0)).creds == v.creds;
    for i := 0 to |list|
      invariant store.Good()
      invariant store.Vault() == SweptExcept(v, now, IdsFrom(ids, i))
      invariant removed == |v.creds| - |SweptExcept(v, now, IdsFrom(ids, i)).creds|
    {
      SweepStep(v, now, ids, i);
      ghost var current := SweptExcept(v, now, IdsFrom(ids, i));
      var got := Get(store, list[i].id, current);
      match got {
        case Err(e) => return Err(e);
        case Ok(None) =>
        case Ok(Some(cred)) =>
          if cred.exp < now {
            Remove(store, list[i].id, current);
            removed := removed + 1;
          }
      }
    }
    assert IdsFrom(ids, |ids|) == {};
    return Ok(removed);
  }

  /** Sweeping at `t1` and again at `t2` is sweeping at `t2`, and the counts add up. */
  lemma SweepsCompose(v: Vault, t1: u64, t2: u64)
    requires t1 <= t2
    ensures Swept(Swept(v, t1), t2) == Swept(v, t2)
    ensures |Swept(v, t2).creds| <= |Swept(v, t1).creds| <= |v.creds|
    ensures (|v.creds| - |Swept(v, t1).creds|) + (|Swept(v, t1).creds| - |Swept(Swept(v, t1), t2).creds|)
            == |v.creds| - |Swept(v, t2).creds|
  {
    assert Swept(Swept(v, t1), t2).creds == Swept(v, t2).creds;
    SubsetSize(Swept(v, t1).creds.Keys, v.creds.Keys);
    SubsetSize(Swept(v, t2).creds.Keys, Swept(v, t1).creds.Keys);
  }

  // ----- Selection -----

  predicate Qualifies(cred: CredentialV2, cutoffDays: i32, isUnderAge: bool) {
    cred.dobDays.Some?
    && if isUnderAge then cutoffDays <= cred.dobDays.value else cred.dobDays.value <= cutoffDays
  }

  /** `best` is the least id of a credential that satisfies the age predicate. */
  ghost predicate IsBest(v: Vault, best: string, cutoffDays: i32, isUnderAge: bool) {
    && best in v.creds
    && Qualifies(v.creds[best].cred, cutoffDays, isUnderAge)
    && forall id :: id in v.creds && Qualifies(v.creds[id].cred, cutoffDays, isUnderAge) && id != best
        ==> Less(best, id)
  }

  /** The answer that selection owes: the qualifying credential with the least id,
      and none exactly when none qualifies. */
  ghost predicate IsSelection(v: Vault, answer: Option<CredentialV2>, cutoffDays: i32, isUnderAge: bool) {
    match answer
    case None => forall id :: id in v.creds ==> !Qualifies(v.creds[id].cred, cutoffDays, isUnderAge)
    case Some(cred) => exists best :: IsBest(v, best, cutoffDays, isUnderAge) && v.creds[best].cred == cred
  }

  /** The first qualifying credential in iteration order is the best one. */
  lemma FirstHitIsBest(v: Vault, ids: seq<string>, i: nat, cutoffDays: i32, isUnderAge: bool)
    requires i < |ids| && ids[i] in v.creds && Qualifies(v.creds[ids[i]].cred, cutoffDays, isUnderAge)
    requires forall k :: 0 <= k < |ids| ==> ids[k] in v.creds
    requires forall k :: 0 <= k < i ==> !Qualifies(v.creds[ids[k]].cred, cutoffDays, isUnderAge)
    requires forall id :: id in v.creds ==> id in ids
    requires forall k :: i < k < |ids| ==> Less(ids[i], ids[k])
    ensures IsBest(v, ids[i], cutoffDays, isUnderAge)
    ensures IsSelection(v, Some(v.creds[ids[i]].cred), cutoffDays, isUnderAge)
  {
    forall id | id in v.creds && Qualifies(v.creds[id].cred, cutoffDays, isUnderAge) && id != ids[i]
      ensures Less(ids[i], id)
    {
      var k :| 0 <= k < |ids| && ids[k] == id;
    }
    assert IsBest(v, ids[i], cutoffDays, isUnderAge);
  }

  /** `find_best_credential`. */
  method FindBestCredential(store: MemoryStore, cutoffDays: i32, isUnderAge: bool)
    returns (r: Result<Option<CredentialV2>, StorageError>)
    requires store.Good()
    ensures r.Ok? && IsSelection(store.Vault(), r.value, cutoffDays, isUnderAge)
  {
    hide MemoryStore.Good, MemoryStore.Vault, ListOf, MetadataOf;
    ghost var v := store.Vault();
    var list := List(store, v);
    ghost var ids := ListVisitsAll(v);
    for i := 0 to |list|
      invariant forall k :: 0 <= k < i ==> !Qualifies(v.creds[ids[k]].cred, cutoffDays, isUnderAge)
    {
      var got := Get(store, list[i].id, v);
      match got {
        case Err(e) => return Err(e);
        case Ok(None) =>
        case Ok(Some(cred)) =>
          if cred.dobDays.Some? && ValidateAge(cred.dobDays.value, cutoffDays, isUnderAge) {
            FirstHitIsBest(v, ids, i, cutoffDays, isUnderAge);
            return Ok(Some(cred));
          }
      }
    }
    return Ok(None);
  }

  /** Selection has one answer, and it finds a credential whenever one qualifies. */
  lemma SelectionUnique(v: Vault, a: Option<CredentialV2>, b: Option<CredentialV2>, cutoffDays: i32, isUnderAge: bool)
    requires IsSelection(v, a, cutoffDays, isUnderAge) && IsSelection(v, b, cutoffDays, isUnderAge)
    ensures a == b
    ensures a.Some? <==> exists id :: id in v.creds && Qualifies(v.creds[id].cred, cutoffDays, isUnderAge)
  {
    if a.Some? && b.Some? {
      var x :| IsBest(v, x, cutoffDays, isUnderAge) && v.creds[x].cred == a.value;
      var y :| IsBest(v, y, cutoffDays, isUnderAge) && v.creds[y].cred == b.value;
      LessTotal(x, y);
    }
  }
}
