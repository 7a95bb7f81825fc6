# Wallet core: a verified model

This project models the stateful and arithmetic core of an age-verification wallet and
proves properties of it:

* **Calendar and cutoff** (`Calendar`, `AgeCutoff`, `IsoDates`): the proleptic Gregorian
  calendar (leap rule of Appendix C and month lengths of section 5.7 of RFC 3339), day
  counts around 1970-01-01, the cutoff "today minus n calendar years" and the age
  predicate, against an independent definition of age in completed calendar years.
* **Prover** (`ProverInit`, `Prover`, `Crypto`): three write-once cells filled by racing
  initialisers as atomic steps, and the chain of gates in front of the proof.
* **Operation cache** (`OperationCaches`, `KeystoreOps`, `KeystoreRace`, `KeyRotation`): a
  bounded map with oldest-first eviction, against the unbounded map of last additions; the
  Keystore calls around it, one at a time and interleaved, against what the Keystore holds;
  and the key rotation that reads back through it.
* **Credential store** (`Storage`, `MemoryStores`, `StoreInterleaving`, `SweepRace`): two
  maps with a capacity bound as one map of credentials, the maintenance loops over it, the
  same operations cut into lock steps of any number of threads, and expiry sweeps as
  threads that make one such operation after another.
* **Trust anchor, issuance, codecs** (`TrustAnchors`, `Issuance`, `BitCodec`,
  `Base64Url`): in-place key merges over whole runs, the two issuance flows, bit packing
  and base64url (section 5 of RFC 4648, strict about unused bits as in section 3.5).
* **Joining them** (`EndToEnd`): from a built request back to a registered date of birth
  and a completed age; from issuance through the shared store to a request.

Objects whose methods change them (`MemoryStore`, `OperationCache`,
`AndroidSecureStorage`, `IssuerTrustAnchor`) are classes; their methods are proved against functions or transition predicates, and
the lemmas below are about those. The clock, random bits and key bytes are parameters.
Cryptography is a record of uninterpreted functions (`Crypto.Functions`), so nothing is
assumed of it except where a lemma says so (`EndToEnd.VouchedFor`, about the one
credential at hand).

## Where the code and its documentation differ

The model follows the code in each case.

* `crates/core/src/types.rs:640-642` says that the under-age direction proves a birth
  strictly after the cutoff; `validate_age` accepts the cutoff date itself.
  `AgeCutoff.UnderAgeAcceptsAnAdult` is an instance (eighteen years and a day old, under
  18 accepted) and `AgeCutoff.UnderAgeIsYoungerOrBornOnCutoff` the exact answer.
* `crates/core/src/prover.rs:456-458` says that later initialisations return
  `AlreadyInitialized`. The code returns success to every initialiser that begins once the
  parameters are set (`ProverInit.LateInitialiserOnlySkips`), and `AlreadyInitialized`
  exactly to one that began on an empty cell, loaded its key, and found the cell set at
  its own `set` (`ProverInit.InitialiserOutcomes`).
* `crates/core/src/prover.rs:545-546` says that `is_prover_initialized` is true once an
  initialisation has completed; it is true from the first of three writes on.
  `ProverInit.OkBeforeReady` is a run in which an initialiser returns success and a
  builder that starts later is still refused; `ProverInit.ReadyExactlyWhenWinnerReturned`
  says when the prover is ready.
* `crates/store-android/src/cache.rs:92` calls the eviction LRU; it goes by the time of
  the last addition, and hits do not renew an entry. `KeystoreOps.KeyUsedLastIsDropped` is
  a run in which the key used last is the one dropped; with advancing clock readings the
  key dropped is the least recently used one exactly when
  `KeystoreOps.DropsLeastRecentlyUsedExactlyWhen` says. When additions share a time stamp
  even the entry just added can go: `OperationCaches.TiesCanEvictTheNewest`, exactly when
  `OperationCaches.NewestEvictedExactlyOnTies` says.
* That a rotated-out key is no longer accepted needs an anchor whose kids were unique to
  begin with: `TrustAnchors.LatestOnlyExactlyForUniqueKids`.
* `crates/core/src/storage.rs:136-137` says that a sweep deletes expired credentials and
  returns how many it removed. With other threads at work it can delete a credential that
  was renewed after the sweep read it (`SweepRace.RenewedCredentialIsLost` is such a run,
  `SweepRace.SweepDeletesRenewedExactlyWhen` the exact condition), and it counts the
  deletions it issues, so two sweeps can both count one removal
  (`SweepRace.TwoSweepsCountTheSame`, `SweepRace.SweepCountsDeletions`).

Apart from documentation, the cache in front of the Keystore can differ from it, in two
ways. `store_secure` leaves the entry of its key alone, so within the time to live a
retrieval can give the data of an earlier store (`KeystoreOps.StoreThenStaleRetrieve`,
exactly when `KeystoreOps.StaleExactlyWhen` says), and a key rotation writes such data back
(`KeyRotation.RotationWritesStaleDataBack`). And no mutex spans a call, so a retrieval that
read before a deletion can fill the cache after it
(`KeystoreRace.DeletedDataIsServed`, exactly when
`KeystoreRace.DeletedDataCachedExactlyWhen` says).

## Model

| member | source | states |
|---|---|---|
| Calendar.NextDayCountsOne | crates/core/src/utils.rs:41-45 | The day count advances by one from each calendar day to the next, over month and year ends and leap days |
| Calendar.AfterDaysAddsToCount | crates/core/src/utils.rs:41-45 | Walking n calendar days from any date adds n to its day count |
| Calendar.SignedDaysCountsCalendarDays | crates/core/src/utils.rs:32-45 | With the offset 719163, the day count of a date is the number of calendar days walked from 1970-01-01 |
| Calendar.DayNumberOrder | crates/core/src/utils.rs:165-171 | Comparing day numbers is comparing dates, on all dates before and after the epoch |
| Calendar.DateOfCeInverts | crates/core/src/utils.rs:52-57 | The date computed by 400-, 100-, 4- and 1-year cycles is the one date with the given day number |
| Calendar.DaysBeforeYearClosedForm | crates/core/src/utils.rs:41-45 | The sum of year lengths has the closed form with floor division, for negative years too |
| AgeCutoff.DaysSinceEpoch | crates/core/src/utils.rs:41-45 | The count is zero exactly up to 1970-01-01, and from then on the number of calendar days that lead from 1970-01-01 to the date |
| AgeCutoff.DateRoundTrip | crates/core/src/utils.rs:41-57 | A date survives day count and back exactly when it is 1970-01-01 or later |
| AgeCutoff.DayCountRoundTrip | crates/core/src/utils.rs:41-57 | Every day count that has a date is recovered from it |
| AgeCutoff.DateFromDaysWalksCalendar | crates/core/src/utils.rs:52-57 | `date_from_days` answers a date exactly when that date lies the given number of calendar days after the epoch and is representable |
| AgeCutoff.CutoffOutcome | crates/core/src/utils.rs:66-93 | The cutoff exists exactly for ages up to 200 with a representable target year, it always fits 32 bits, and each failure is reported as its own error |
| AgeCutoff.OverAgeIsCompletedYears | crates/core/src/utils.rs:66-93 | The over-age check holds exactly when the holder has completed n calendar years, for all births and days including 29 February |
| AgeCutoff.UnderAgeIsYoungerOrBornOnCutoff | crates/core/src/utils.rs:165-171 | The under-age check holds exactly for holders younger than n and those born on the cutoff date |
| AgeCutoff.BothDirectionsOnlyOnCutoffDate | crates/core/src/utils.rs:165-171 | Every holder passes one direction, and exactly those born on the cutoff date pass both |
| AgeCutoff.UnderAgeAcceptsAnAdult | crates/core/src/types.rs:640-642 | A holder aged eighteen and a day passes the under-age check for eighteen |
| AgeCutoff.EachYearMovesCutoff | crates/core/src/utils.rs:66-93 | One more year of age moves the cutoff back by 365 or 366 days |
| AgeCutoff.HigherAgeEarlierCutoff | crates/core/src/utils.rs:66-93 | A higher age has a cutoff, strictly earlier by 365 to 366 days a year, wherever it is defined |
| AgeCutoff.CutoffNeverRetreats | crates/core/src/utils.rs:66-93 | The cutoff never moves back as days pass, so whoever passes the over-age check passes it on every later day |
| IsoDates.DateTextRoundTrip | crates/core/src/issuance.rs:316-331 | Every representable date is read back from its own text |
| IsoDates.ParsedExactlyWhen | crates/core/src/issuance.rs:316-331 | Exactly the texts of a year and an existing month and day, two digits each, between dashes are read, each as that date; every other text is refused |
| IsoDates.DaysSurviveText | crates/core/src/issuance.rs:316-345 | A day number has a text exactly when it is a date of the calendar, and the text gives it back |
| IsoDates.DobTextSurvives | crates/core/src/issuance.rs:316-331 | Parsing a date text gives the signed day count, which from the epoch on is what `days_since_epoch` gives |
| IsoDates.TextOrderIsDateOrder | crates/core/src/issuance.rs:334-345 | For years 0000 to 9999 the texts have ten characters and their order is the order of the dates and day numbers |
| BitCodec.PackBits | crates/core/src/issuance.rs:279-294 | The packing loop returns ceil(n/8) bytes, each the most-significant-first value of its eight bits |
| BitCodec.UnpackBits | crates/core/src/issuance.rs:297-310 | The unpacking loop returns min(count, 8 times the bytes) bits, each read at its place |
| BitCodec.UnpackUndoesPack | crates/core/src/issuance.rs:279-310 | Bits of any length survive packing and unpacking |
| BitCodec.PackUndoesUnpack | crates/core/src/issuance.rs:279-310 | Bytes survive unpacking all their bits and packing |
| BitCodec.PaddingIsZero | crates/core/src/issuance.rs:279-294 | The unused bits of the last packed byte are zero |
| BitCodec.AddBit | crates/core/src/issuance.rs:284-289 | Or-ing in `1 << (7 - i)` extends the value of the first i bits of a chunk by the next bit |
| Base64Url.DecodeUndoesEncode | crates/core/src/utils.rs:116-126 | Every byte string survives base64url |
| Base64Url.EncodeUndoesDecode | crates/core/src/utils.rs:116-126 | Each byte string has one accepted text: unused bits must be zero |
| Base64Url.AlphabetInOrder | crates/core/src/utils.rs:116-126 | The characters are upper case, lower case and digits in order, then `-` and `_` |
| Base64Url.EncodeIsBigEndian | crates/core/src/utils.rs:116-126 | Three bytes are written as the four base-64 digits of one number, first byte first, a shorter end filled up with zero bits |
| TrustAnchors.IssuerTrustAnchor.UnionMerge | crates/core/src/types.rs:301-314 | The in-place loop leaves in the anchor the merge of its keys with the new ones, key by key |
| TrustAnchors.IssuerTrustAnchor.ValidateIssuerVk | crates/core/src/issuance.rs:247-270 | A header is accepted exactly when some key of the anchor equals its issuer key; an empty anchor is its own error |
| TrustAnchors.MergeIsLastWriterWins | crates/core/src/types.rs:295-314 | After a merge every kid has the key given last for it, unmentioned kids keep theirs, no kid is lost, old kids keep their places and unique kids stay unique |
| TrustAnchors.MergesConcatenate | crates/core/src/types.rs:301-314 | Merging A and then B is merging A followed by B, as sequences |
| TrustAnchors.RepeatedMergeIsIdle | crates/core/src/types.rs:301-314 | Repeating a merge changes nothing, whatever duplicates there are |
| TrustAnchors.TrustOverRuns | crates/core/src/issuance.rs:247-270 | After any run of merges from unique kids a key is accepted exactly when it is the latest one seen for some kid |
| TrustAnchors.LatestOnlyExactlyForUniqueKids | crates/core/src/types.rs:301-314 | The claim about runs holds for all runs and keys exactly when the first anchor's kids are unique |
| TrustAnchors.MergeKeepsShadowed | crates/core/src/types.rs:303-308 | An entry behind another one of the same kid is never reached by merges |
| TrustAnchors.DuplicateKidKeepsStaleKey | crates/core/src/types.rs:301-314 | An anchor with one kid twice still accepts the second key after the kid has rotated |
| TrustAnchors.ParseJwksEntries | crates/core/src/issuance.rs:196-237 | The returned keys are, in order, the kid and 32 decoded bytes of exactly the entries with kty OKP, crv JUBJUB, a kid and a decodable x |
| TrustAnchors.PublishedKeysAreReadBack | crates/core/src/issuance.rs:196-237 | A published key set is read back exactly, whatever entries that give no key stand between |
| Issuance.FinalizeYieldsAuthentic | crates/core/src/issuance.rs:94-159 | Issuance returns exactly the credentials with the given header and secrets that open their signed commitment, with a well-formed header and 128 bits |
| Issuance.RefusalNamesCause | crates/core/src/issuance.rs:99-145 | The exact condition of each refusal: version, zero times, their order, number of bits, commitment, signature on the header's own fields |
| Issuance.BlindFinalizeAgrees | crates/core/src/blind_issuance.rs:134-157 | Every flow made from an attestation finalises exactly as `finalize_credential` does on the attested birth date and the drawn bits, refusals included |
| Issuance.FlowMadeExactlyWhen | crates/core/src/blind_issuance.rs:134-157 | A text makes a flow exactly when it decodes to a readable attestation, each failure has its own refusal, and the flow is about the attested birth date |
| Issuance.EitherFlowFinalizes | crates/core/src/blind_issuance.rs:237-299 | A credential from either flow is what `finalize_credential` answers |
| Issuance.RequestCarriesTheBits | crates/core/src/blind_issuance.rs:202-221 | The fields of a blind request decode to the attestation the flow was made from and to exactly the drawn bits |
| Prover.RequestBuiltExactlyWhen | crates/core/src/prover.rs:727-960 | A request is built exactly when key, clock, signature, commitment, challenge, age and circuit shape are in order and the prover delivers a proof for the challenge's cutoff, at once or after one panic; it then carries that proof |
| Prover.RequestProvesTrueStatement | crates/core/src/prover.rs:859-915 | Whenever a request is built, the prover was given a true statement: commitment opened by the secrets, signature valid on the statement's own fields, birth date on the right side of the cutoff, lengths of the circuit, and public inputs that assemble; for this challenge and credential, and the request carries its proof |
| Prover.CompleteProverAlwaysDelivers | crates/core/src/prover.rs:727-960 | With a prover that can prove every true statement, a request is built exactly when credential, age and circuit shape are in order |
| Crypto.Utf8CharDecodes | crates/core/src/prover.rs:866-871 | The bytes of a character give its code point back |
| Crypto.Utf8IsInjective | crates/core/src/prover.rs:866-871 | Different kid or schema texts give the prover different bytes |
| Prover.RefusedForFirstDefect | crates/core/src/prover.rs:774-925 | With the defects each stated by itself, a refusal names the one that comes first in the order of the checks, and a request is built exactly when there is none |
| Prover.AgeRefusalIsAboutAge | crates/core/src/prover.rs:831-834 | The age is blamed exactly for an authentic, presentable, unexpired credential whose birth date fails the predicate |
| Prover.ReportIsTrue | crates/core/src/prover.rs:291-452 | Preflight reports exactly when secrets, challenge, signature and public inputs are in order, and each field of the report is true |
| Prover.RequestFieldsDecode | crates/core/src/prover.rs:933-951 | The request carries the challenge's id, secret, code verifier, key, cutoff and challenge text, and its encoded fields decode to the prover's bytes |
| Prover.IssuedCredentialPassesPreflight | crates/core/src/prover.rs:353-382 | A credential accepted by issuance passes the signature check and matches its commitment |
| ProverInit.CellsComeFromOneThread | crates/core/src/prover.rs:507-522 | In every reachable state vk_id set implies fingerprint set implies parameters set, all from the bytes of one thread, the only one past the first set |
| ProverInit.CellsNeverChange | crates/core/src/prover.rs:115-124 | What a cell shows in some state it shows in every later state |
| ProverInit.OnlyFirstSetFails | crates/core/src/prover.rs:507-520 | `AlreadyInitialized` only ever comes from the first set, and at most one thread passes it |
| ProverInit.InitialiserProgress | crates/core/src/prover.rs:468-531 | In every run an initialiser's position depends only on its number of steps, on whether its key loads, and on whether the parameters were set at its first and third step |
| ProverInit.InitialiserOutcomes | crates/core/src/prover.rs:468-531 | The exact condition of each of the four ways an initialiser returns; `AlreadyInitialized` exactly for one that began on an empty cell, loaded its key and found the cell set at its own set |
| ProverInit.LateInitialiserOnlySkips | crates/core/src/prover.rs:469-474 | An initialiser that begins once the parameters are set is in every continuation still to begin or has returned success at once |
| ProverInit.PastTheReadsUsesWinnersPair | crates/core/src/prover.rs:766-785 | In every reachable state a builder past both reads holds the winner's parameters and their own vk_id, and every answer past them, failed proofs included, is that of the gates on this pair |
| ProverInit.FiveOwnStepsFinish | crates/core/src/prover.rs:468-531 | No thread waits for another: five steps of its own finish any call |
| ProverInit.FinalStates | crates/core/src/prover.rs:468-531 | When all calls have returned, either no key was loadable and no cell is set, or all are set by exactly one completed initialisation |
| ProverInit.ReadyExactlyWhenWinnerReturned | crates/core/src/prover.rs:545-549 | vk_id is set exactly when some initialisation has completed; the prover counts as initialised exactly from the winner's first set on |
| ProverInit.OkBeforeReady | crates/core/src/prover.rs:471-474 | A run in which an initialiser returns success and a builder starting later is refused as not initialised |
| ProverInit.ReadyForLaterBuilders | crates/core/src/prover.rs:766-773 | Once an initialisation has completed, no builder that starts later is refused as not initialised |
| ProverInit.BuiltRequestUsesWinnersKey | crates/core/src/prover.rs:766-785 | Under any interleaving a built request rests on the key bytes of the one winning initialiser: its vk_id, and a proof with its parameters |
| OperationCaches.OperationCache.GetFromCache | crates/store-android/src/cache.rs:66-80 | A hit exactly when the key has an entry whose age in milliseconds is below a thousand times its time to live, in plain integers |
| OperationCaches.FreshMeansYoung | crates/store-android/src/cache.rs:73-76 | The saturating freshness test in plain integers, also for a clock that went back and for a product that is not representable |
| OperationCaches.OperationCache.AddToCache | crates/store-android/src/cache.rs:82-113 | Nothing when disabled; otherwise the entry is written after dropping some entry with the least time stamp when 100 are held |
| OperationCaches.OperationCache.RemoveFromCache | crates/store-android/src/cache.rs:115-121 | Exactly the one key is gone |
| OperationCaches.OperationCache.ClearCache | crates/store-android/src/cache.rs:124-130 | All entries are gone |
| OperationCaches.CacheIsCoherent | crates/store-android/src/cache.rs:82-130 | Over any run and any clock at most 100 entries are held, each the latest addition of its key with no removal or clearing since; a disabled cache holds nothing |
| OperationCaches.HitIsLastAddition | crates/store-android/src/cache.rs:66-80 | A hit returns the data of the latest addition of the key with no removal or clearing since, younger than its time to live |
| OperationCaches.CacheKeepsTheRecent | crates/store-android/src/cache.rs:92-102 | With a clock that never goes back no cached key is older than a live key that was dropped |
| OperationCaches.EvictedWereAddedBefore | crates/store-android/src/cache.rs:92-102 | With an advancing clock every live key that was dropped was last added before every cached key |
| OperationCaches.SurvivesNinetyNineAdds | crates/store-android/src/cache.rs:82-113 | A key stays cached through the next 99 additions of any keys unless removed or cleared |
| OperationCaches.CachedExactlyWhen | crates/store-android/src/cache.rs:82-113 | With an advancing clock a live key is cached exactly when no addition since its own found 99 or more live keys added after it |
| OperationCaches.LookupAgreesWithLastAddition | crates/store-android/src/cache.rs:66-113 | With fewer than 100 additions since a key's own, the cache answers as the map of last additions |
| OperationCaches.HundredNewerKeysEvict | crates/store-android/src/cache.rs:92-102 | A key that 100 live keys were added after is no longer cached |
| OperationCaches.EvictableExactlyOldest | crates/store-android/src/cache.rs:92-102 | An addition can drop another key exactly when the cache is full and the key's time stamp is minimal |
| OperationCaches.NewestEvictedExactlyOnTies | crates/store-android/src/cache.rs:92-102 | The key added last can be dropped by the next addition exactly when the cache is full and all time stamps are equal |
| OperationCaches.TiesCanEvictTheNewest | crates/store-android/src/cache.rs:92-102 | A run with equal time stamps in which the newest key is dropped |
| KeystoreOps.AndroidSecureStorage.StoreSecure | crates/store-android/src/keystore_ops.rs:48-106 | Succeeds exactly with a valid key and data and a cooperating host, with the condition of each refusal; then the Keystore has the data and the cache is untouched |
| KeystoreOps.AndroidSecureStorage.RetrieveSecure | crates/store-android/src/keystore_ops.rs:108-190 | A fresh cache entry answers unless biometrics are required; otherwise the Keystore does, and what it gave is added to the cache; with the condition of each refusal |
| KeystoreOps.AndroidSecureStorage.DeleteSecure | crates/store-android/src/keystore_ops.rs:193-216 | Success does not depend on the Boolean that the Java side answers: the key remains exactly when it was held and the answer was false, and an enabled cache loses its entry either way |
| KeystoreOps.EntriesAreOldReads | crates/store-android/src/keystore_ops.rs:182-186 | Over any run a cache entry is what the Keystore held when it was filled, and the Keystore holds what was stored since, or still the same |
| KeystoreOps.StaleExactlyWhen | crates/store-android/src/keystore_ops.rs:117-125 | A retrieval differs from the Keystore exactly when it may use the cache, the entry is fresh, and other data was stored since it was filled |
| KeystoreOps.StoreThenStaleRetrieve | crates/store-android/src/keystore_ops.rs:48-106 | Store, retrieve, store other data, retrieve: the second retrieval gives the first data |
| KeystoreOps.DropsLeastRecentlyUsedExactlyWhen | crates/store-android/src/cache.rs:92-102 | Over any run with advancing clock readings, a dropped key is the least recently used one exactly when every hit on it comes before the last use of every other cached key |
| KeystoreOps.KeyUsedLastIsDropped | crates/store-android/src/cache.rs:92-102 | A run with advancing clock readings in which the key hit last is the one dropped |
| KeystoreOps.WitnessKeysAreValid | crates/store-android/src/cache.rs:23-63 | The keys and data of the witness runs pass `validate_key` and `validate_data` |
| KeystoreOps.ValidExactlyWhen | crates/store-android/src/cache.rs:23-63 | Valid keys have 1 to 255 base64url characters or dots, valid data 1 byte to 2 MiB |
| KeystoreRace.EntryDiffersExactlyWhen | crates/store-android/src/keystore_ops.rs:108-190 | In every interleaving a cache entry is what its filler had read, and differs from the Keystore exactly when the Keystore was last changed to something else since that read |
| KeystoreRace.AnswersAreOwnReads | crates/store-android/src/keystore_ops.rs:108-190 | In every interleaving a retrieval answers what the Keystore held at one of its own moves or the cache gave it at one; with a biometric check always the former |
| KeystoreRace.DeletedDataCachedExactlyWhen | crates/store-android/src/keystore_ops.rs:193-216 | With no deletion under way, an entry for a key that the Keystore does not hold is there exactly when its filler had read before the last deletion and added after that deletion had cleared the cache |
| KeystoreRace.DeletedDataIsServed | crates/store-android/src/keystore_ops.rs:182-186 | A run in which a retrieval that starts after a deletion has returned gets the deleted data |
| KeyRotation.Backup | crates/store-android/src/lifecycle.rs:130-154 | Each listed key has the one item that the first read gave, else the biometric read, else none; the Keystore is unchanged and the first reads are retrievals one after the other |
| KeyRotation.Restore | crates/store-android/src/lifecycle.rs:188-203 | The Keystore holds exactly the items that can be stored, and the count is that of those that cannot |
| KeyRotation.RotateMasterKey | crates/store-android/src/lifecycle.rs:124-215 | Success and each error have their exact condition, lost items are counted; the Keystore is as before unless the key was replaced, and then holds what was read back except what was lost; after success every readable item is kept exactly when no first read was stale |
| KeyRotation.StaleReadExactlyWhen | crates/store-android/src/lifecycle.rs:134-139 | After any run, which first reads are stale: the entry is fresh and other data was stored since it was filled |
| KeyRotation.RotationWritesStaleDataBack | crates/store-android/src/lifecycle.rs:134-139 | A run after which a rotation keeps the data of the earlier of two stores |
| Storage.StorageFormatRoundTrip | crates/core/src/storage_tests.rs:52-102 | A credential, secrets included, survives conversion to the storage format and back |
| Storage.ReadExactlyWhen | crates/core/src/storage_tests.rs:76-97 | Bytes read as a credential exactly when they decode to its storage form; all else, and a signature not of 64 bytes, is a serialisation error |
| Storage.KeysAreTexts | crates/core/src/storage_tests.rs:180-182 | Keys split at the `cred:` prefix correspond one to one with their texts |
| Storage.ExecRefinesVault | crates/core/src/storage_tests.rs:156-284 | Every operation keeps metadata ids and readable `cred:` entries the same ids, and acts on one map of credentials and one of raw bytes as the store's contract says, with the same answer |
| Storage.ApplyKeepsCapacity | crates/core/src/storage_tests.rs:170-173 | No operation takes the number of credentials above the capacity |
| Storage.RawWriteOverCredential | crates/core/src/storage_tests.rs:245-252 | A raw write under a `cred:` key keeps the store consistent exactly when that credential exists and the bytes decode |
| Storage.RawDeleteOfCredential | crates/core/src/storage_tests.rs:254-265 | A raw deletion of a `cred:` key keeps the store consistent exactly when there is no such credential |
| MemoryStores.MemoryStore.PutCredential | crates/core/src/storage_tests.rs:157-187 | Refuses a new id at capacity and changes nothing; otherwise files the credential under its id, replacing an older one |
| MemoryStores.MemoryStore.GetCredential | crates/core/src/storage_tests.rs:189-205 | The credential filed under the id, none, or a decoding error |
| MemoryStores.MemoryStore.DeleteCredential | crates/core/src/storage_tests.rs:207-227 | The id is gone from both maps; true exactly when it was there |
| MemoryStores.MemoryStore.ListCredentials | crates/core/src/storage_tests.rs:229-235 | The metadata of every id, in id order |
| MemoryStores.MemoryStore.GetBytes | crates/core/src/storage_tests.rs:237-243 | The bytes under a key |
| MemoryStores.MemoryStore.PutBytes | crates/core/src/storage_tests.rs:245-252 | Exactly that key is written |
| MemoryStores.MemoryStore.Delete | crates/core/src/storage_tests.rs:254-265 | Exactly that key is gone; true exactly when it was there |
| MemoryStores.MemoryStore.ClearAll | crates/core/src/storage_tests.rs:267-283 | Both maps are empty |
| MemoryStores.CleanupExpired | crates/core/src/storage.rs:138-155 | Leaves exactly the credentials with exp at least the given time and all raw bytes, and returns the drop in count |
| MemoryStores.SweepsCompose | crates/core/src/storage.rs:138-155 | Sweeping at t1 and then at a later t2 is sweeping at t2, and the counts add up |
| MemoryStores.FindBestCredential | crates/core/src/storage.rs:110-129 | Never fails on a good store; returns the qualifying credential with the least id, and none exactly when none qualifies |
| MemoryStores.SelectionUnique | crates/core/src/storage.rs:110-129 | There is one such answer, and it is a credential exactly when one qualifies |
| StoreInterleaving.EveryRunIsLinearizable | crates/core/src/storage_tests.rs:156-284 | In every interleaving of lock steps each answer is the one of running the operations whole in their order of effect, and the maps stand for the resulting map of credentials |
| StoreInterleaving.LogRespectsRealTime | crates/core/src/storage.rs:56-95 | An operation that had returned before another started takes effect before it |
| StoreInterleaving.QuietStoreIsConsistent | crates/core/src/storage_tests.rs:156-284 | Whenever neither mutex is held, metadata ids are exactly the ids with a `cred:` entry and their number is within the capacity |
| StoreInterleaving.NoDeadlock | crates/core/src/storage_tests.rs:156-284 | Some thread can always move until all have finished |
| StoreInterleaving.StepUsesWork | crates/core/src/storage_tests.rs:156-284 | Every move brings its thread closer to its return, so no run goes on for ever |
| StoreInterleaving.AllCanFinish | crates/core/src/storage_tests.rs:156-284 | From every reachable state some schedule finishes every thread |
| StoreInterleaving.FirstDeletionWins | crates/core/src/storage_tests.rs:207-227 | Among deletions of a present id exactly the first in order of effect answers true |
| StoreInterleaving.ExactlyOneDeletionWins | crates/core/src/storage_tests.rs:207-227 | When threads race to delete one present id and nothing else writes, every interleaving has exactly one true answer |
| SweepRace.RunAllKeeps | crates/core/src/storage.rs:138-155 | In every run of sweeps among other threads the answers and maps are those of the calls in order of effect, every deletion of a sweep follows its own get of that id, and no listed id and no expired read is passed over |
| SweepRace.SweepDeletesRenewedExactlyWhen | crates/core/src/storage.rs:145-152 | In every run, a sweep's deletion takes a credential that is not expired exactly when the last call touching the id since the sweep's own get renewed it, and finds nothing exactly when that call removed it |
| SweepRace.SweepCountsDeletions | crates/core/src/storage.rs:142-154 | The count a sweep returns is the number of deletions it issued; it equals the number of credentials it removed exactly when each of them answered true |
| SweepRace.SweepCoversListing | crates/core/src/storage.rs:142-152 | In every run, a sweep that has returned has listed the store at some moment, read every credential that was there then, and deleted each that it read as expired after reading it |
| SweepRace.SweepAloneIsCleanup | crates/core/src/storage.rs:138-155 | Without another thread in between, a sweep leaves exactly the unexpired credentials and returns how many it removed |
| SweepRace.RenewedCredentialIsLost | crates/core/src/storage.rs:145-152 | A run of a sweep and a renewal in which the renewal is accepted and the renewed credential is gone |
| SweepRace.TwoSweepsCountTheSame | crates/core/src/storage.rs:148-149 | A run of two sweeps over one expired credential in which both return 1 |
| EndToEnd.AuthenticDobIsRegistered | crates/core/src/prover.rs:353-382 | If the commitment under the credential's own verifying signature opens only to a registered birth date, the authentic credential carries that date |
| EndToEnd.AgePredicateIsCalendarAge | crates/core/src/prover.rs:388-391 | For a cutoff computed by `calculate_cutoff_days` preflight's age verdict is a statement about calendar age |
| EndToEnd.RequestProvesRegisteredAge | crates/core/src/prover.rs:727-960 | Soundness under any interleaving, assuming only that of the presented credential: a built request means a registered birth date that meets the challenge, in the over-age direction n completed calendar years, with valid credential, challenge and key |
| EndToEnd.StoredStays | crates/core/src/storage_tests.rs:157-205 | In order of effect, after an accepted put every get answers that credential as long as nobody touches it |
| EndToEnd.PutIsSeenByLaterGet | crates/core/src/storage_tests.rs:157-205 | Under any interleaving a get that starts after the put returned answers exactly the credential that was put |
| EndToEnd.IssuedCredentialIsPresented | crates/core/src/prover.rs:727-960 | Completeness: a credential from either issuance flow is never refused for signature, commitment or missing secrets; with the rest in order a request is built exactly when the birth date meets the challenge, and otherwise the age is blamed |
| EndToEnd.IssuedJobCarriesHeader | crates/core/src/prover.rs:859-872 | For an issued credential the statement that was proved is about the version, kid, commitment, times and schema that the issuer signed |
| EndToEnd.IssuedStoredCredentialIsPresented | crates/core/src/storage_tests.rs:157-205 | Issued, put by one thread and got by a later one under any interleaving: on what the get answers, a request is built exactly when the rest is in order and the birth date meets the challenge |

## Left out

- Groth16, Pedersen, RedJubjub, BLAKE2 and BLAKE3 and `assemble_public_inputs_canonical`: uninterpreted functions; that a proof convinces a verifier is not modelled.
- The prover's own outputs: only the cutoff of a returned proof is checked by the code, so the issuer key and nullifier in a request are whatever the prover returned, and no more is claimed.
- postcard: an encoding with a left inverse (`Storage.Codec.Lawful`); serialisation errors on writing are left out.
- JSON and URL parsing, `validate_field_lengths`, deep links, `validate_uuid_format` and `format_timestamp`.
- IsoDates.DateTextRoundTrip: the parser accepts the canonical text only; chrono also takes unpadded months and days and leading white space.
- Clock, randomness, memory mapping, Keystore and Keychain calls: time, random bits, key bytes and the behaviour of the Java side are parameters.
- KeystoreOps.AndroidSecureStorage.RetrieveSecure: calls run one at a time (interleaved in `KeystoreRace`), the Java side changes nothing on its own or when it fails, and metrics, StrongBox and security events are not modelled.
- KeyRotation.RotateMasterKey: `listKeys` names each key once; an interruption between the key replacement and the last store is not modelled.
- KeystoreRace.DeletedDataCachedExactlyWhen: valid arguments and a cooperating host.
- `wipe_all`, and the iOS store, whose calls update the cache on a store.
- Mutex poisoning and panics while a lock is held; thread pools and the hand-over to a fresh thread in `build_verify_request`.
- ProverInit.BuiltRequestUsesWinnersKey: the gates after the two cell reads are one step; they read the cells again only to fill the diagnostic report.
- Hash map order: eviction may choose any entry with the least time stamp.
- Integer widths of lengths and of the sweep counter: unbounded, since collections in memory cannot reach 64 bits.
- StoreInterleaving.EveryRunIsLinearizable: a thread makes one call; threads that make several are modelled for `cleanup_expired` only (`SweepRace`), `find_best_credential` runs without concurrent writers.
- Error message texts, Debug redaction, zeroisation, logging, and constant-time comparison (plain equality here).
- `network.rs` (HTTP requests), `async_flow.rs` (a polling loop) and `parallel.rs` (thread-count clamps and pool set-up).
