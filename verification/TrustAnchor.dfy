/** Trusted issuer keys: `IssuerTrustAnchor::union_merge` of `crates/core/src/types.rs`,
    and `validate_issuer_vk` and `parse_jwks_into_keys` of `crates/core/src/issuance.rs`. */
module TrustAnchors {
  import opened Machine
  import opened WalletTypes
  import opened Base64Url

  datatype TrustedIssuerKey = TrustedIssuerKey(kid: string, vk: Bytes32)

  type Keys = seq<TrustedIssuerKey>

  // ----- Merging -----

  /** Position of the first key with this `kid`, or the length. */
  function Find(keys: Keys, kid: string): (i: nat)
    ensures i <= |keys|
    ensures i < |keys| ==> keys[i].kid == kid
    ensures forall j :: 0 <= j < i ==> keys[j].kid != kid
  {
    if keys == [] || keys[0].kid == kid then 0 else 1 + Find(keys[1..], kid)
  }

  function MergeOne(keys: Keys, k: TrustedIssuerKey): Keys {
    var i := Find(keys, k.kid);
    if i < |keys| then keys[i := keys[i].(vk := k.vk)] else keys + [k]
  }

  function Merge(keys: Keys, newKeys: Keys): Keys {
    if newKeys == [] then keys else MergeOne(Merge(keys, newKeys[..|newKeys| - 1]), newKeys[|newKeys| - 1])
  }

  class IssuerTrustAnchor {
    var keys: Keys
    var fetchedAt: u64

    constructor (keys: Keys, fetchedAt: u64)
      ensures this.keys == keys && this.fetchedAt == fetchedAt
    {
      this.keys, this.fetchedAt := keys, fetchedAt;
    }

    method UnionMerge(newKeys: Keys)
      modifies this`keys
      ensures keys == Merge(old(keys), newKeys)
    {
      for n := 0 to |newKeys|
        invariant keys == Merge(old(keys), newKeys[..n])
      {
        assert newKeys[..n + 1][..n] == newKeys[..n];
        var k := newKeys[n];
        var i := 0;
        while i < |keys| && keys[i].kid != k.kid
          invariant i <= |keys| && forall j :: 0 <= j < i ==> keys[j].kid != k.kid
        {
          i := i + 1;
        }
        assert i == Find(keys, k.kid);
        if i < |keys| {
          if keys[i].vk != k.vk {
            keys := keys[i := keys[i].(vk := k.vk)];
          }
        } else {
          keys := keys + [k];
        }
      }
      assert newKeys[..|newKeys|] == newKeys;
    }

    method ValidateIssuerVk(header: SignedCredentialHeader) returns (r: Result<(), AnchorError>)
      ensures r.Ok? <==> Trusts(keys, header.issuerVk)
      ensures r == Err(NoKeys) <==> keys == []
    {
      if keys == [] {
        return Err(NoKeys);
      }
      for i := 0 to |keys|
        invariant forall j :: 0 <= j < i ==> keys[j].vk != header.issuerVk
      {
        if header.issuerVk == keys[i].vk {
          return Ok(());
        }
      }
      return Err(UnknownKey);
    }
  }

  datatype AnchorError = NoKeys | UnknownKey

  predicate Trusts(keys: Keys, vk: Bytes32) {
    exists i :: 0 <= i < |keys| && keys[i].vk == vk
  }

  // ----- Merging as an update of a map -----

  /** The key material that counts for a `kid`: the first entry's. */
  function Lookup(keys: Keys, kid: string): Option<Bytes32> {
    var i := Find(keys, kid);
    if i < |keys| then Some(keys[i].vk) else None
  }

  /** The key material given last for a `kid`. */
  function Latest(keys: Keys, kid: string): Option<Bytes32> {
    if keys == [] then None
    else if keys[|keys| - 1].kid == kid then Some(keys[|keys| - 1].vk)
    else Latest(keys[..|keys| - 1], kid)
  }

  predicate UniqueKids(keys: Keys) {
    forall i, j :: 0 <= i < j < |keys| ==> keys[i].kid != keys[j].kid
  }

  /** No kid is lost and none moves: the old kids are a prefix of the new ones. */
  predicate KeepsKids(before: Keys, after: Keys) {
    |before| <= |after| && forall i :: 0 <= i < |before| ==> after[i].kid == before[i].kid
  }

  lemma FindUnique(keys: Keys, kid: string, i: nat)
    requires i < |keys| && keys[i].kid == kid
    requires forall j :: 0 <= j < i ==> keys[j].kid != kid
    ensures Find(keys, kid) == i
  {
  }

  lemma MergeOneFacts(keys: Keys, k: TrustedIssuerKey, kid: string)
    ensures KeepsKids(keys, MergeOne(keys, k))
    ensures UniqueKids(keys) ==> UniqueKids(MergeOne(keys, k))
    ensures Lookup(MergeOne(keys, k), kid) == if kid == k.kid then Some(k.vk) else Lookup(keys, kid)
  {
    var merged := MergeOne(keys, k);
    var i := Find(keys, kid);
    if i < |keys| {
      FindUnique(merged, kid, i);
    } else if kid == k.kid {
      FindUnique(merged, kid, |keys|);
    }
  }

  /** Last writer wins: after a merge every kid has the key material given last for it,
      old kids not mentioned keep theirs, no kid is lost, and old kids keep their places. */
  lemma {:induction false} MergeIsLastWriterWins(keys: Keys, newKeys: Keys, kid: string)
    ensures Lookup(Merge(keys, newKeys), kid)
            == if Latest(newKeys, kid).Some? then Latest(newKeys, kid) else Lookup(keys, kid)
    ensures KeepsKids(keys, Merge(keys, newKeys))
    ensures UniqueKids(keys) ==> UniqueKids(Merge(keys, newKeys))
  {
    if newKeys != [] {
      var shorter, k := newKeys[..|newKeys| - 1], newKeys[|newKeys| - 1];
      MergeIsLastWriterWins(keys, shorter, kid);
      MergeOneFacts(Merge(keys, shorter), k, kid);
    }
  }

  /** Merging twice is merging the concatenation, as sequences. */
  lemma {:induction false} MergesConcatenate(keys: Keys, a: Keys, b: Keys)
    ensures Merge(Merge(keys, a), b) == Merge(keys, a + b)
  {
    if b == [] {
      assert a + b == a;
    } else {
      MergesConcatenate(keys, a, b[..|b| - 1]);
      assert (a + b)[..|a + b| - 1] == a + b[..|b| - 1];
    }
  }

  /** Every kid that a merge brings in has a place afterwards. */
  lemma {:induction false} MergedKidsPresent(keys: Keys, newKeys: Keys, kid: string)
    requires Find(keys, kid) < |keys| || Latest(newKeys, kid).Some?
    ensures Find(Merge(keys, newKeys), kid) < |Merge(keys, newKeys)|
  {
    MergeIsLastWriterWins(keys, newKeys, kid);
  }

  /** Merging keys whose kids are all present changes key material only, entry by entry. */
  lemma {:induction false} MergePresent(keys: Keys, newKeys: Keys, i: nat)
    requires forall j :: 0 <= j < |newKeys| ==> Find(keys, newKeys[j].kid) < |keys|
    ensures |Merge(keys, newKeys)| == |keys| && KeepsKids(keys, Merge(keys, newKeys))
    ensures i < |keys| ==>
              Merge(keys, newKeys)[i]
              == (if Find(keys, keys[i].kid) == i && Latest(newKeys, keys[i].kid).Some?
                  then TrustedIssuerKey(keys[i].kid, Latest(newKeys, keys[i].kid).value) else keys[i])
  {
    if newKeys != [] {
      var shorter, k := newKeys[..|newKeys| - 1], newKeys[|newKeys| - 1];
      MergePresent(keys, shorter, i);
      SameFind(keys, Merge(keys, shorter), k.kid);
    }
  }

  lemma SameFind(a: Keys, b: Keys, kid: string)
    requires |a| == |b| && KeepsKids(a, b)
    ensures Find(a, kid) == Find(b, kid)
  {
  }

  /** Repeating a merge changes nothing, whatever duplicates either list holds. */
  lemma RepeatedMergeIsIdle(keys: Keys, newKeys: Keys)
    ensures Merge(Merge(keys, newKeys), newKeys) == Merge(keys, newKeys)
  {
    var once := Merge(keys, newKeys);
    forall j | 0 <= j < |newKeys| ensures Find(once, newKeys[j].kid) < |once| {
      LatestExists(newKeys, j);
      MergedKidsPresent(keys, newKeys, newKeys[j].kid);
    }
    MergePresent(once, newKeys, 0);
    forall i | 0 <= i < |once| ensures Merge(once, newKeys)[i] == once[i] {
      MergePresent(once, newKeys, i);
      MergeIsLastWriterWins(keys, newKeys, once[i].kid);
    }
  }

  lemma {:induction false} LatestExists(keys: Keys, j: nat)
    requires j < |keys|
    ensures Latest(keys, keys[j].kid).Some?
  {
    if j < |keys| - 1 {
      LatestExists(keys[..|keys| - 1], j);
    }
  }

  // ----- Trust over a run of merges -----

  function MergeAll(keys: Keys, batches: seq<Keys>): Keys {
    if batches == [] then keys else Merge(MergeAll(keys, batches[..|batches| - 1]), batches[|batches| - 1])
  }

  function Flatten(batches: seq<Keys>): Keys {
    if batches == [] then [] else Flatten(batches[..|batches| - 1]) + batches[|batches| - 1]
  }

  lemma {:induction false} MergeAllIsOneMerge(keys: Keys, batches: seq<Keys>)
    ensures MergeAll(keys, batches) == Merge(keys, Flatten(batches))
  {
    if batches != [] {
      MergeAllIsOneMerge(keys, batches[..|batches| - 1]);
      MergesConcatenate(keys, Flatten(batches[..|batches| - 1]), batches[|batches| - 1]);
    }
  }

  /** With unique kids an anchor trusts exactly the key material that counts for some kid. */
  lemma TrustIsLookup(keys: Keys, vk: Bytes32)
    requires UniqueKids(keys)
    ensures Trusts(keys, vk) <==> exists kid :: Lookup(keys, kid) == Some(vk)
  {
    if Trusts(keys, vk) {
      var i :| 0 <= i < |keys| && keys[i].vk == vk;
      FindUnique(keys, keys[i].kid, i);
      assert Lookup(keys, keys[i].kid) == Some(vk);
    }
  }

  /** The history of an anchor: its first keys, then every merged batch, in order. */
  function History(first: Keys, batches: seq<Keys>): Keys {
    first + Flatten(batches)
  }

  lemma {:induction false} LatestOfUnique(keys: Keys, kid: string)
    requires UniqueKids(keys)
    ensures Latest(keys, kid) == Lookup(keys, kid)
  {
    if keys != [] {
      var n := |keys| - 1;
      LatestOfUnique(keys[..n], kid);
      if keys[n].kid == kid {
        FindUnique(keys, kid, n);
      } else if Find(keys[..n], kid) < n {
        FindUnique(keys, kid, Find(keys[..n], kid));
      }
    }
  }

  lemma {:induction false} LatestOfAppend(a: Keys, b: Keys, kid: string)
    ensures Latest(a + b, kid) == if Latest(b, kid).Some? then Latest(b, kid) else Latest(a, kid)
  {
    if b == [] {
      assert a + b == a;
    } else {
      LatestOfAppend(a, b[..|b| - 1], kid);
      assert (a + b)[..|a + b| - 1] == a + b[..|b| - 1];
    }
  }

  /** Over any run of merges from an anchor with unique kids, kids stay unique and a key
      is accepted exactly when it is the latest one seen for some kid: a rotated-out key
      is rejected unless another kid still holds it. */
  lemma TrustOverRuns(first: Keys, batches: seq<Keys>, vk: Bytes32)
    requires UniqueKids(first)
    ensures UniqueKids(MergeAll(first, batches))
    ensures Trusts(MergeAll(first, batches), vk)
            <==> exists kid :: Latest(History(first, batches), kid) == Some(vk)
  {
    var keys := MergeAll(first, batches);
    hide UniqueKids, Lookup, Latest, Merge;
    MergeAllIsOneMerge(first, batches);
    MergeIsLastWriterWins(first, Flatten(batches), "");
    forall kid ensures Lookup(keys, kid) == Latest(History(first, batches), kid) {
      MergeIsLastWriterWins(first, Flatten(batches), kid);
      LatestOfUnique(first, kid);
      LatestOfAppend(first, Flatten(batches), kid);
    }
    TrustIsLookup(keys, vk);
    if kid :| Lookup(keys, kid) == Some(vk) {
      assert Latest(History(first, batches), kid) == Some(vk);
    }
  }

  /** Without unique kids the claim fails: an anchor built with the same kid twice still
      accepts the second entry's key after that kid has rotated to another one. */
  lemma DuplicateKidKeepsStaleKey(a: Bytes32, b: Bytes32, c: Bytes32)
    requires a != b && b != c && a != c
    ensures var keys := Merge([TrustedIssuerKey("k", a), TrustedIssuerKey("k", b)], [TrustedIssuerKey("k", c)]);
            Trusts(keys, b) && Lookup(keys, "k") == Some(c)
  {
    var before := [TrustedIssuerKey("k", a), TrustedIssuerKey("k", b)];
    var news := [TrustedIssuerKey("k", c)];
    assert Merge(before, news[..0]) == before;
    var keys := Merge(before, news);
    assert keys == [TrustedIssuerKey("k", c), TrustedIssuerKey("k", b)];
    assert keys[1].vk == b;
  }

  /** An entry that an earlier one with the same kid hides from merges. */
  predicate Shadowed(keys: Keys, i: nat)
    requires i < |keys|
  {
    Find(keys, keys[i].kid) < i
  }

  /** Merges never reach a shadowed entry. */
  lemma {:induction false} MergeKeepsShadowed(keys: Keys, newKeys: Keys, i: nat)
    requires i < |keys| && Shadowed(keys, i)
    ensures var after := Merge(keys, newKeys);
            i < |after| && after[i] == keys[i] && Shadowed(after, i)
  {
    if newKeys != [] {
      var shorter, k := newKeys[..|newKeys| - 1], newKeys[|newKeys| - 1];
      MergeKeepsShadowed(keys, shorter, i);
      var before := Merge(keys, shorter);
      MergeOneFacts(before, k, "");
      FindUnique(MergeOne(before, k), before[i].kid, Find(before, before[i].kid));
    }
  }

  /** Every kid rotated to one key. */
  function Rotated(keys: Keys, vk: Bytes32): Keys {
    if keys == [] then [] else Rotated(keys[..|keys| - 1], vk) + [TrustedIssuerKey(keys[|keys| - 1].kid, vk)]
  }

  lemma {:induction false} LatestOfRotated(keys: Keys, vk: Bytes32, kid: string)
    ensures Latest(Rotated(keys, vk), kid) == if Latest(keys, kid).Some? then Some(vk) else None
  {
    if keys != [] {
      LatestOfRotated(keys[..|keys| - 1], vk, kid);
      var r := Rotated(keys, vk);
      assert r[..|r| - 1] == Rotated(keys[..|keys| - 1], vk);
    }
  }

  /** After merging `batches`, `vk` is accepted exactly when it is the latest of a kid. */
  ghost predicate AcceptsLatestOnly(first: Keys, batches: seq<Keys>, vk: Bytes32) {
    Trusts(MergeAll(first, batches), vk) <==> exists kid :: Latest(History(first, batches), kid) == Some(vk)
  }

  /** Unique kids in the first anchor are exactly what the claim about runs needs: with a
      repeated kid there is always a run after which a rotated-out key is still accepted. */
  lemma LatestOnlyExactlyForUniqueKids(first: Keys)
    ensures UniqueKids(first) <==> forall batches, vk :: AcceptsLatestOnly(first, batches, vk)
  {
    if UniqueKids(first) {
      forall batches, vk ensures AcceptsLatestOnly(first, batches, vk) {
        TrustOverRuns(first, batches, vk);
      }
    } else {
      var i, j :| 0 <= i < j < |first| && first[i].kid == first[j].kid;
      RotationMissesShadowed(first, j);
    }
  }

  lemma RotationMissesShadowed(first: Keys, j: nat)
    requires j < |first| && Shadowed(first, j)
    ensures exists batches :: !AcceptsLatestOnly(first, batches, first[j].vk)
  {
    hide UniqueKids, Lookup, Merge;
    var vk := first[j].vk;
    var other: Bytes32 := seq(32, _ => if vk[0] == 0 then 1 else 0);
    assert other[0] != vk[0];
    var batch := Rotated(first, other);
    assert Flatten([batch]) == batch && MergeAll(first, [batch]) == Merge(first, batch) by {
      assert [batch][..0] == [];
    }
    MergeKeepsShadowed(first, batch, j);
    forall kid ensures Latest(History(first, [batch]), kid) != Some(vk) {
      LatestOfAppend(first, batch, kid);
      LatestOfRotated(first, other, kid);
    }
    assert !AcceptsLatestOnly(first, [batch], vk);
  }

  // ----- Keys from a JWKS document -----

  /** An entry of the `keys` array, its text fields as far as they are strings. */
  datatype JwksEntry = JwksEntry(kty: Option<string>, crv: Option<string>, kid: Option<string>, x: Option<string>)

  /** The key an entry stands for; other entries are skipped. */
  function KeyOfEntry(e: JwksEntry): Option<TrustedIssuerKey> {
    if e.kty != Some("OKP") || e.crv != Some("JUBJUB") || e.kid.None? || e.x.None? then None
    else
      match Decode(e.x.value)
      case Some(bytes) => if |bytes| == 32 then Some(TrustedIssuerKey(e.kid.value, bytes)) else None
      case None => None
  }

  function KeysOf(entries: seq<JwksEntry>): Keys {
    if entries == [] then []
    else KeysOf(entries[..|entries| - 1])
         + match KeyOfEntry(entries[|entries| - 1]) case Some(k) => [k] case None => []
  }

  /** What an issuer publishes: an octet key pair on the curve JUBJUB with its kid and,
      as base64url, its 32 bytes. */
  predicate Gives(e: JwksEntry, k: TrustedIssuerKey) {
    && e.kty == Some("OKP") && e.crv == Some("JUBJUB") && e.kid == Some(k.kid)
    && e.x.Some? && Decode(e.x.value) == Some(k.vk)
  }

  /** `keys` are what the entries at the places `at` give, in order, and every entry that
      gives a key is among them. */
  ghost predicate PicksInOrder(entries: seq<JwksEntry>, keys: Keys, at: seq<nat>) {
    && |at| == |keys|
    && (forall j :: 0 <= j < |at| ==> at[j] < |entries| && Gives(entries[at[j]], keys[j]))
    && (forall i, j :: 0 <= i < j < |at| ==> at[i] < at[j])
    && forall i, k :: 0 <= i < |entries| && Gives(entries[i], k) ==> i in at
  }

  lemma {:induction false} KeysArePicked(entries: seq<JwksEntry>) returns (at: seq<nat>)
    ensures PicksInOrder(entries, KeysOf(entries), at)
  {
    hide Decode;
    if entries == [] {
      at := [];
    } else {
      var n := |entries| - 1;
      at := KeysArePicked(entries[..n]);
      if KeyOfEntry(entries[n]).Some? {
        assert Gives(entries[n], KeyOfEntry(entries[n]).value);
        at := at + [n];
      }
    }
  }

  /** The loop of `parse_jwks_into_keys` over the entries of a well-formed document. */
  method ParseJwksEntries(entries: seq<JwksEntry>) returns (keys: Keys, ghost at: seq<nat>)
    ensures keys == KeysOf(entries) && PicksInOrder(entries, keys, at)
  {
    keys := [];
    for i := 0 to |entries|
      invariant keys == KeysOf(entries[..i])
    {
      assert entries[..i + 1][..i] == entries[..i];
      var e := entries[i];
      if e.kty != Some("OKP") || e.crv != Some("JUBJUB") { continue; }
      if e.kid.None? { continue; }
      if e.x.None? { continue; }
      match Decode(e.x.value) {
        case None => continue;
        case Some(bytes) =>
          if |bytes| != 32 { continue; }
          keys := keys + [TrustedIssuerKey(e.kid.value, bytes)];
      }
    }
    assert entries[..|entries|] == entries;
    at := KeysArePicked(entries);
  }

  function Publish(k: TrustedIssuerKey): JwksEntry {
    JwksEntry(Some("OKP"), Some("JUBJUB"), Some(k.kid), Some(Encode(k.vk)))
  }

  /** `entries` publish `keys` in order, possibly with unrecognised entries in between. */
  ghost predicate Publishes(entries: seq<JwksEntry>, keys: Keys) {
    if entries == [] then keys == []
    else
      var n, m := |entries| - 1, |keys| - 1;
      || ((forall k :: !Gives(entries[n], k)) && Publishes(entries[..n], keys))
      || (keys != [] && entries[n] == Publish(keys[m]) && Publishes(entries[..n], keys[..m]))
  }

  /** A published key set is read back exactly, in order, whatever unrecognised entries
      an issuer mixes in between. */
  lemma {:induction false} PublishedKeysAreReadBack(entries: seq<JwksEntry>, keys: Keys)
    requires Publishes(entries, keys)
    ensures KeysOf(entries) == keys
  {
    hide Decode, Encode;
    if entries != [] {
      var n, m := |entries| - 1, |keys| - 1;
      if (forall k :: !Gives(entries[n], k)) && Publishes(entries[..n], keys) {
        assert KeyOfEntry(entries[n]).Some? ==> Gives(entries[n], KeyOfEntry(entries[n]).value);
        PublishedKeysAreReadBack(entries[..n], keys);
      } else {
        PublishedKeysAreReadBack(entries[..n], keys[..m]);
        DecodeUndoesEncode(keys[m].vk);
        assert keys == keys[..m] + [keys[m]];
      }
    }
  }
}
