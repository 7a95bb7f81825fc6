/** The credential store of `crates/core/src/storage_tests.rs` (`MemoryStore`):
    two maps and a capacity bound, and the single map of credentials they stand for. */
module Storage {
  import opened Machine
  import opened WalletTypes
  import opened TextOrder

  // ----- Storage format -----

  datatype CredentialStorageData = CredentialStorageData(
    v: u8,
    kid: string,
    issuerVk: Bytes32,
    sigRj: Bytes,
    cBytes: Bytes32,
    iat: u64,
    exp: u64,
    schema: string,
    dobDays: Option<i32>,
    rBits: Option<seq<bool>>)

  datatype StorageError = NotFound | StorageFull | SerializationError

  function FromCredential(cred: CredentialV2): CredentialStorageData {
    CredentialStorageData(cred.v, cred.kid, cred.issuerVk, cred.sigRj, cred.cBytes,
                          cred.iat, cred.exp, cred.schema, cred.dobDays, cred.rBits)
  }

  function IntoCredential(d: CredentialStorageData): Result<CredentialV2, StorageError> {
    if |d.sigRj| != 64 then Err(SerializationError)
    else Ok(CredentialV2(d.v, d.kid, d.issuerVk, d.sigRj, d.cBytes, d.iat, d.exp, d.schema, d.dobDays, d.rBits))
  }

  /** The byte encoding (postcard), whose inner working is not modelled. */
  datatype Codec = Codec(encode: CredentialStorageData -> Bytes, decode: Bytes -> Option<CredentialStorageData>)
  {
    ghost predicate Lawful() {
      forall d :: decode(encode(d)) == Some(d)
    }

    function Write(cred: CredentialV2): Bytes {
      encode(FromCredential(cred))
    }

    function Read(bytes: Bytes): Result<CredentialV2, StorageError> {
      match decode(bytes)
      case None => Err(SerializationError)
      case Some(d) => IntoCredential(d)
    }
  }

  // ----- Keys of the data map -----

  const CRED_PREFIX: string := "cred:"

  /** A key text outside the credential entries. */
  type RawText = s: string | !(CRED_PREFIX <= s)

  /** A key of the data map, split at the `cred:` prefix. */
  datatype Key = CredEntry(id: string) | RawKey(text: RawText)

  function KeyOf(text: string): Key {
    if CRED_PREFIX <= text then CredEntry(text[|CRED_PREFIX|..]) else RawKey(text)
  }

  function KeyText(key: Key): string {
    match key
    case CredEntry(id) => CRED_PREFIX + id
    case RawKey(text) => text
  }

  /** Keys and their texts correspond one to one, and the key under which a credential
      is filed is the text `cred:` followed by its id. */
  lemma KeysAreTexts(text: string, key: Key)
    ensures KeyText(KeyOf(text)) == text
    ensures KeyOf(KeyText(key)) == key
    ensures key.CredEntry? <==> CRED_PREFIX <= KeyText(key)
  {
    if CRED_PREFIX <= text {
      assert text == CRED_PREFIX + text[|CRED_PREFIX|..];
    }
    if key.CredEntry? {
      assert (CRED_PREFIX + key.id)[..|CRED_PREFIX|] == CRED_PREFIX;
    }
  }

  // ----- The two maps -----

  type Data = map<Key, Bytes>
  type Metadata = map<string, CredentialMetadata>

  datatype Store = Store(data: Data, metadata: Metadata)

  /** The metadata of the given ids, one by one. */
  function Rows(ids: seq<string>, metadata: Metadata): (rows: seq<CredentialMetadata>)
    requires forall id :: id in ids ==> id in metadata
    ensures |rows| == |ids|
  {
    if ids == [] then [] else [metadata[ids[0]]] + Rows(ids[1..], metadata)
  }

  lemma {:induction false} RowAt(ids: seq<string>, metadata: Metadata, k: nat)
    requires forall id :: id in ids ==> id in metadata
    requires k < |ids|
    ensures Rows(ids, metadata)[k] == metadata[ids[k]]
  {
    if k > 0 {
      RowAt(ids[1..], metadata, k - 1);
    }
  }

  /** `metadata.values()`, in key order. */
  function ListOf(metadata: Metadata): seq<CredentialMetadata> {
    InOrderVisitsAll(metadata.Keys);
    Rows(InOrder(metadata.Keys), metadata)
  }

  // ----- Operations -----

  datatype Op =
    | PutCredential(cred: CredentialV2, meta: CredentialMetadata)
    | GetCredential(id: string)
    | DeleteCredential(id: string)
    | ListCredentials
    | GetBytes(key: Key)
    | PutBytes(key: Key, value: Bytes)
    | Delete(key: Key)
    | ClearAll

  datatype Reply =
    | Done
    | Credential(cred: Option<CredentialV2>)
    | Removed(removed: bool)
    | Listing(list: seq<CredentialMetadata>)
    | Raw(bytes: Option<Bytes>)
    | Failed(error: StorageError)

  /** The capacity check: it applies to new identifiers only. */
  predicate Refuses(op: Op, metadata: Metadata, capacity: nat) {
    op.PutCredential? && |metadata| >= capacity && op.meta.id !in metadata
  }

  /** What an operation writes to the data map. */
  function WriteData(codec: Codec, op: Op, data: Data): Data {
    match op
    case PutCredential(cred, meta) => data[CredEntry(meta.id) := codec.Write(cred)]
    case DeleteCredential(id) => data - {CredEntry(id)}
    case PutBytes(key, value) => data[key := value]
    case Delete(key) => data - {key}
    case ClearAll => map[]
    case _ => data
  }

  /** What an operation writes to the metadata map, after the data map. */
  function WriteMetadata(op: Op, metadata: Metadata): Metadata {
    match op
    case PutCredential(_, meta) => metadata[meta.id := meta]
    case DeleteCredential(id) => metadata - {id}
    case ClearAll => map[]
    case _ => metadata
  }

  /** What an operation answers, from the two maps as it found them. */
  function Answer(codec: Codec, op: Op, store: Store): Reply {
    match op
    case PutCredential(_, _) => Done
    case GetCredential(id) =>
      if CredEntry(id) !in store.data then Credential(None)
      else
        (match codec.Read(store.data[CredEntry(id)])
         case Ok(cred) => Credential(Some(cred))
         case Err(e) => Failed(e))
    case DeleteCredential(id) => Removed(CredEntry(id) in store.data || id in store.metadata)
    case ListCredentials => Listing(ListOf(store.metadata))
    case GetBytes(key) => Raw(if key in store.data then Some(store.data[key]) else None)
    case PutBytes(_, _) => Done
    case Delete(key) => Removed(key in store.data)
    case ClearAll => Done
  }

  /** One whole operation on the two maps. */
  function Exec(codec: Codec, op: Op, store: Store, capacity: nat): (Store, Reply) {
    if Refuses(op, store.metadata, capacity) then (store, Failed(StorageFull))
    else (Store(WriteData(codec, op, store.data), WriteMetadata(op, store.metadata)), Answer(codec, op, store))
  }

  // ----- What the two maps stand for -----

  datatype Entry = Entry(cred: CredentialV2, meta: CredentialMetadata)

  /** A map of credentials, and beside it the raw bytes. */
  datatype Vault = Vault(creds: map<string, Entry>, raw: map<Key, Bytes>)

  /** Every identifier with metadata has a readable credential entry, every
      credential entry has metadata, and metadata is filed under its own id. */
  predicate Consistent(codec: Codec, store: Store) {
    && (forall id :: id in store.metadata ==>
                       && store.metadata[id].id == id
                       && CredEntry(id) in store.data
                       && codec.Read(store.data[CredEntry(id)]).Ok?)
    && (forall key :: key in store.data && key.CredEntry? ==> key.id in store.metadata)
  }

  function VaultOf(codec: Codec, store: Store): Vault
    requires Consistent(codec, store)
  {
    Vault(map id | id in store.metadata :: Entry(codec.Read(store.data[CredEntry(id)]).value, store.metadata[id]),
          map key | key in store.data && !key.CredEntry? :: store.data[key])
  }

  function MetadataOf(v: Vault): Metadata {
    map id | id in v.creds :: v.creds[id].meta
  }

  /** The operations on the vault: the store's contract in terms of one map. */
  function Apply(op: Op, v: Vault, capacity: nat): (Vault, Reply) {
    match op
    case PutCredential(cred, meta) =>
      if |v.creds| >= capacity && meta.id !in v.creds then (v, Failed(StorageFull))
      else (v.(creds := v.creds[meta.id := Entry(cred, meta)]), Done)
    case GetCredential(id) => (v, Credential(if id in v.creds then Some(v.creds[id].cred) else None))
    case DeleteCredential(id) => (v.(creds := v.creds - {id}), Removed(id in v.creds))
    case ListCredentials => (v, Listing(ListOf(MetadataOf(v))))
    case GetBytes(key) => (v, Raw(if key in v.raw then Some(v.raw[key]) else None))
    case PutBytes(key, value) => (v.(raw := v.raw[key := value]), Done)
    case Delete(key) => (v.(raw := v.raw - {key}), Removed(key in v.raw))
    case ClearAll => (Vault(map[], map[]), Done)
  }

  /** Raw access stays out of the credential entries. */
  predicate KeepsApart(op: Op) {
    (op.GetBytes? || op.PutBytes? || op.Delete?) ==> !op.key.CredEntry?
  }

  // ----- The two maps refine the vault -----

  lemma StorageFormatRoundTrip(codec: Codec, cred: CredentialV2)
    requires codec.Lawful()
    ensures IntoCredential(FromCredential(cred)) == Ok(cred)
    ensures codec.Read(codec.Write(cred)) == Ok(cred)
  {
    assert codec.decode(codec.encode(FromCredential(cred))) == Some(FromCredential(cred));
  }

  /** Bytes read as a credential exactly when they decode to its storage form; every other
      bytes, and a signature of another length than 64, are a serialisation error. */
  lemma ReadExactlyWhen(codec: Codec, bytes: Bytes, cred: CredentialV2)
    ensures codec.Read(bytes) == Ok(cred) <==> codec.decode(bytes) == Some(FromCredential(cred))
    ensures codec.Read(bytes) == Err(SerializationError)
            <==> codec.decode(bytes) == None || |codec.decode(bytes).value.sigRj| != 64
  {
  }

  lemma VaultMetadata(codec: Codec, store: Store)
    requires Consistent(codec, store)
    ensures MetadataOf(VaultOf(codec, store)) == store.metadata
    ensures VaultOf(codec, store).creds.Keys == store.metadata.Keys
    ensures |VaultOf(codec, store).creds| == |store.metadata|
  {
    var v := VaultOf(codec, store);
    assert v.creds.Keys == store.metadata.Keys;
    assert |v.creds| == |v.creds.Keys| && |store.metadata| == |store.metadata.Keys|;
  }

  lemma VaultAfterPut(codec: Codec, store: Store, cred: CredentialV2, meta: CredentialMetadata, after: Store)
    requires Consistent(codec, store) && codec.Read(codec.Write(cred)) == Ok(cred)
    requires after.data == store.data[CredEntry(meta.id) := codec.Write(cred)]
    requires after.metadata == store.metadata[meta.id := meta]
    ensures Consistent(codec, after)
    ensures VaultOf(codec, after).creds == VaultOf(codec, store).creds[meta.id := Entry(cred, meta)]
    ensures VaultOf(codec, after).raw == VaultOf(codec, store).raw
  {
    assert Consistent(codec, after);
    var v, v' := VaultOf(codec, store), VaultOf(codec, after);
    assert v'.creds.Keys == after.metadata.Keys && v.creds.Keys == store.metadata.Keys;
  }

  lemma VaultAfterDeleteCredential(codec: Codec, store: Store, id: string, after: Store)
    requires Consistent(codec, store)
    requires after.data == store.data - {CredEntry(id)} && after.metadata == store.metadata - {id}
    ensures Consistent(codec, after)
    ensures VaultOf(codec, after).creds == VaultOf(codec, store).creds - {id}
    ensures VaultOf(codec, after).raw == VaultOf(codec, store).raw
  {
    assert Consistent(codec, after);
    var v, v' := VaultOf(codec, store), VaultOf(codec, after);
    assert v'.creds.Keys == after.metadata.Keys && v.creds.Keys == store.metadata.Keys;
  }

  lemma VaultAfterPutBytes(codec: Codec, store: Store, key: Key, value: Bytes, after: Store)
    requires Consistent(codec, store) && key.RawKey?
    requires after.data == store.data[key := value] && after.metadata == store.metadata
    ensures Consistent(codec, after)
    ensures VaultOf(codec, after).creds == VaultOf(codec, store).creds
    ensures VaultOf(codec, after).raw == VaultOf(codec, store).raw[key := value]
  {
    assert Consistent(codec, after);
    var v, v' := VaultOf(codec, store), VaultOf(codec, after);
    assert v'.creds.Keys == after.metadata.Keys && v.creds.Keys == store.metadata.Keys;
  }

  lemma VaultAfterDelete(codec: Codec, store: Store, key: Key, after: Store)
    requires Consistent(codec, store) && key.RawKey?
    requires after.data == store.data - {key} && after.metadata == store.metadata
    ensures Consistent(codec, after)
    ensures VaultOf(codec, after).creds == VaultOf(codec, store).creds
    ensures VaultOf(codec, after).raw == VaultOf(codec, store).raw - {key}
  {
    assert Consistent(codec, after);
    var v, v' := VaultOf(codec, store), VaultOf(codec, after);
    assert v'.creds.Keys == after.metadata.Keys && v.creds.Keys == store.metadata.Keys;
  }

  /** The statement of refinement for one operation. */
  ghost predicate Refines(codec: Codec, op: Op, store: Store, capacity: nat)
    requires Consistent(codec, store)
  {
    var (after, reply) := Exec(codec, op, store, capacity);
    && Consistent(codec, after)
    && (VaultOf(codec, after), reply) == Apply(op, VaultOf(codec, store), capacity)
  }

  lemma CredentialWriteRefines(codec: Codec, op: Op, store: Store, capacity: nat)
    requires codec.Lawful() && Consistent(codec, store)
    requires op.PutCredential? || op.DeleteCredential?
    ensures Refines(codec, op, store, capacity)
  {
    VaultMetadata(codec, store);
    var after := Exec(codec, op, store, capacity).0;
    if op.DeleteCredential? {
      VaultAfterDeleteCredential(codec, store, op.id, after);
    } else if !Refuses(op, store.metadata, capacity) {
      StorageFormatRoundTrip(codec, op.cred);
      VaultAfterPut(codec, store, op.cred, op.meta, after);
    }
  }

  lemma RawAccessRefines(codec: Codec, op: Op, store: Store, capacity: nat)
    requires Consistent(codec, store) && KeepsApart(op)
    requires op.PutBytes? || op.Delete? || op.GetBytes?
    ensures Refines(codec, op, store, capacity)
  {
    var after := Exec(codec, op, store, capacity).0;
    if op.PutBytes? {
      VaultAfterPutBytes(codec, store, op.key, op.value, after);
    } else if op.Delete? {
      VaultAfterDelete(codec, store, op.key, after);
    }
  }

  lemma CredentialReadRefines(codec: Codec, op: Op, store: Store, capacity: nat)
    requires Consistent(codec, store)
    requires op.GetCredential? || op.ListCredentials?
    ensures Refines(codec, op, store, capacity)
  {
    VaultMetadata(codec, store);
  }

  /** Every operation keeps the two maps consistent and does to the vault they
      stand for exactly what the vault operation does, with the same answer. */
  lemma ExecRefinesVault(codec: Codec, op: Op, store: Store, capacity: nat)
    requires codec.Lawful() && Consistent(codec, store) && KeepsApart(op)
    ensures var (after, reply) := Exec(codec, op, store, capacity);
            && Consistent(codec, after)
            && (VaultOf(codec, after), reply) == Apply(op, VaultOf(codec, store), capacity)
  {
    assert Refines(codec, op, store, capacity) by {
      match op {
        case PutCredential(_, _) => CredentialWriteRefines(codec, op, store, capacity);
        case DeleteCredential(_) => CredentialWriteRefines(codec, op, store, capacity);
        case GetCredential(_) => CredentialReadRefines(codec, op, store, capacity);
        case ListCredentials => CredentialReadRefines(codec, op, store, capacity);
        case ClearAll =>
        case _ => RawAccessRefines(codec, op, store, capacity);
      }
    }
  }

  /** No operation takes the number of credentials above the capacity. */
  lemma ApplyKeepsCapacity(op: Op, v: Vault, capacity: nat)
    requires |v.creds| <= capacity
    ensures |Apply(op, v, capacity).0.creds| <= capacity
  {
    if op.PutCredential? && op.meta.id in v.creds {
      assert v.creds[op.meta.id := Entry(op.cred, op.meta)].Keys == v.creds.Keys;
    }
    if op.DeleteCredential? {
      assert (v.creds - {op.id}).Keys <= v.creds.Keys;
      SubsetSize((v.creds - {op.id}).Keys, v.creds.Keys);
    }
  }

  /** Refinement and capacity together, for one operation on a good store. */
  lemma ExecKeeps(codec: Codec, op: Op, store: Store, capacity: nat)
    ensures codec.Lawful() && Consistent(codec, store) && |store.metadata| <= capacity && KeepsApart(op) ==>
              var (after, reply) := Exec(codec, op, store, capacity);
              && Consistent(codec, after)
              && |after.metadata| <= capacity
              && (VaultOf(codec, after), reply) == Apply(op, VaultOf(codec, store), capacity)
  {
    if codec.Lawful() && Consistent(codec, store) && |store.metadata| <= capacity && KeepsApart(op) {
      ExecRefinesVault(codec, op, store, capacity);
      VaultMetadata(codec, store);
      VaultMetadata(codec, Exec(codec, op, store, capacity).0);
      ApplyKeepsCapacity(op, VaultOf(codec, store), capacity);
    }
  }

  // ----- Raw access under a credential key -----

  /** Writing raw bytes under a `cred:` key keeps the store consistent exactly when
      that credential exists and the bytes decode to a credential. */
  lemma RawWriteOverCredential(codec: Codec, id: string, value: Bytes, store: Store)
    requires Consistent(codec, store)
    ensures Consistent(codec, Store(WriteData(codec, PutBytes(CredEntry(id), value), store.data), store.metadata))
            <==> id in store.metadata && codec.Read(value).Ok?
  {
    var after := Store(WriteData(codec, PutBytes(CredEntry(id), value), store.data), store.metadata);
    assert CredEntry(id) in after.data && after.data[CredEntry(id)] == value;
  }

  /** Deleting a `cred:` key through the raw interface keeps the store consistent
      exactly when there is no such credential. */
  lemma RawDeleteOfCredential(codec: Codec, id: string, store: Store)
    requires Consistent(codec, store)
    ensures Consistent(codec, Store(WriteData(codec, Delete(CredEntry(id)), store.data), store.metadata))
            <==> id !in store.metadata
  {
    var after := Store(WriteData(codec, Delete(CredEntry(id)), store.data), store.metadata);
    assert CredEntry(id) !in after.data;
  }
}
