/** What the components give together: from issuance through the shared store and the
    racing initialisers to a request, and from a request back to the holder's age. */
module EndToEnd {
  import opened Machine
  import opened Calendar
  import opened AgeCutoff
  import opened WalletTypes
  import opened Crypto
  import opened Issuance
  import opened Prover
  import Storage
  import Shared = StoreInterleaving
  import Init = ProverInit

  // ----- From a request to the age of the holder -----

  /** Of all dates of birth, the commitment opens to this one only. */
  ghost predicate OpensOnlyTo(crypto: Functions, c: Bytes32, dob: NaiveDate) {
    forall d, r :: crypto.commit(d, r) == Some(c) ==> d == DobDays(dob)
  }

  /** If the credential's own signature verifies, the commitment under it opens to the
      birth date of someone in `register` and to no other. */
  ghost predicate VouchedFor(crypto: Functions, cred: CredentialV2, register: set<NaiveDate>) {
    crypto.verifySignature(MessageOf(HeaderOf(cred)), cred.sigRj, cred.issuerVk) ==>
      exists dob :: dob in register && OpensOnlyTo(crypto, cred.cBytes, dob)
  }

  /** The date of birth in an authentic credential is one the issuer vouched for. */
  lemma AuthenticDobIsRegistered(crypto: Functions, cred: CredentialV2, register: set<NaiveDate>)
    returns (dob: NaiveDate)
    requires VouchedFor(crypto, cred, register)
    requires Authentic(crypto, cred)
    ensures dob in register && cred.dobDays == Some(DobDays(dob))
  {
    var d :| d in register && OpensOnlyTo(crypto, cred.cBytes, d);
    dob := d;
  }

  /** The age that a challenge asks for, as a calendar statement about the day `today`. */
  predicate MeetsChallenge(dob: NaiveDate, today: NaiveDate, n: u32, qr: QrChallengePayload) {
    if IsUnderAge(qr) then CompletedYears(dob, today) < n || CutoffDate(today, today.year - n) == Some(dob)
    else CompletedYears(dob, today) >= n
  }

  lemma AgePredicateIsCalendarAge(dob: NaiveDate, today: NaiveDate, n: u32, qr: QrChallengePayload)
    requires CalculateCutoffDays(today, n) == Ok(qr.cutoffDays)
    ensures ValidateAge(DobDays(dob), qr.cutoffDays, IsUnderAge(qr)) <==> MeetsChallenge(dob, today, n, qr)
  {
    if IsUnderAge(qr) {
      UnderAgeIsYoungerOrBornOnCutoff(dob, today, n);
    } else {
      OverAgeIsCompletedYears(dob, today, n);
    }
  }

  /** Soundness. Any number of initialisers and builders race; one builder returns a
      request. Then the holder's date of birth is one the issuer signed for, and on the
      day the cutoff was computed for it meets the challenge: for the over-age direction,
      `n` completed calendar years. Credential and challenge were valid at `now`, the key
      is the one the challenge names, and the public fields are the challenge's own. */
  lemma RequestProvesRegisteredAge(crypto: Functions, register: set<NaiveDate>, s0: Init.System, schedule: seq<nat>,
                                   b: nat, req: SubmitProofRequest, today: NaiveDate, n: u32) returns (dob: NaiveDate)
    requires Init.Initial(s0) && b < |s0.threads|
    requires var s := Init.Run(crypto, s0, schedule);
             && b < |s.threads| && s.threads[b].Builder? && s.threads[b].bpc == Init.Answered(Ok(req))
             && CalculateCutoffDays(today, n) == Ok(s.threads[b].qr.cutoffDays)
             && VouchedFor(crypto, s.threads[b].cred, register)
    ensures var s := Init.Run(crypto, s0, schedule);
            var (cred, qr, now) := (s.threads[b].cred, s.threads[b].qr, s.threads[b].now);
            && dob in register && cred.dobDays == Some(DobDays(dob))
            && MeetsChallenge(dob, today, n, qr)
            && now <= cred.exp && now < qr.expiresAt
            && s.globals.vkId == Some(qr.verifyingKeyId)
            && req.challengeId == qr.challengeId && req.proof.verifyingKeyId == qr.verifyingKeyId
            && req.proof.public.cutoffDays == qr.cutoffDays && req.proof.public.rpChallenge == qr.rpChallenge
  {
    hide Init.Run, Gates, ValidateAge, CalculateCutoffDays, MeetsChallenge, VouchedFor, FitsCircuit, Delivers, JobFor;
    var w := Init.AnswerIsGatesWithSetCells(crypto, s0, schedule, b);
    var s := Init.Run(crypto, s0, schedule);
    var th := s.threads[b];
    RequestBuiltExactlyWhen(crypto, s.globals.params.value, s.globals.vkId.value, s.globals.fingerprint, s.globals.vkId,
                            th.cred, th.qr, th.now, req);
    dob := AuthenticDobIsRegistered(crypto, th.cred, register);
    AgePredicateIsCalendarAge(dob, today, n, th.qr);
  }

  // ----- From issuance through the store to a request -----

  /** An operation that neither replaces nor removes credential `id`. */
  predicate LeavesAlone(op: Storage.Op, id: string) {
    match op
    case PutCredential(_, meta) => meta.id != id
    case DeleteCredential(other) => other != id
    case ClearAll => false
    case _ => true
  }

  predicate StoresAs(op: Storage.Op, id: string, cred: CredentialV2) {
    op.PutCredential? && op.meta.id == id && op.cred == cred
  }

  lemma StoredByOne(op: Storage.Op, v: Storage.Vault, capacity: nat, id: string, cred: CredentialV2)
    requires StoresAs(op, id, cred) && Storage.Apply(op, v, capacity).1 == Storage.Done
    ensures var v' := Storage.Apply(op, v, capacity).0; id in v'.creds && v'.creds[id].cred == cred
  {
  }

  lemma LeftAloneByOne(op: Storage.Op, v: Storage.Vault, capacity: nat, id: string)
    requires LeavesAlone(op, id) && id in v.creds
    ensures var (v', reply) := Storage.Apply(op, v, capacity);
            && id in v'.creds && v'.creds[id] == v.creds[id]
            && (op == Storage.GetCredential(id) ==> reply == Storage.Credential(Some(v.creds[id].cred)))
  {
  }

  /** In a legal log, after an accepted put every get answers that credential, as long as
      no other entry touches it. */
  lemma {:induction false} StoredStays(capacity: nat, v: Storage.Vault, log: seq<Shared.Event>, i: nat, id: string,
                                       cred: CredentialV2)
    requires Shared.Legal(capacity, v, log)
    requires i < |log| && StoresAs(log[i].op, id, cred) && log[i].reply == Storage.Done
    requires forall k :: i < k < |log| ==> LeavesAlone(log[k].op, id)
    ensures var v' := Shared.Replay(capacity, v, log); id in v'.creds && v'.creds[id].cred == cred
    ensures forall j :: i < j < |log| && log[j].op == Storage.GetCredential(id) ==>
              log[j].reply == Storage.Credential(Some(cred))
  {
    hide Storage.Apply, LeavesAlone, StoresAs;
    var prefix, last := log[..|log| - 1], log[|log| - 1];
    var before := Shared.Replay(capacity, v, prefix);
    if i == |log| - 1 {
      StoredByOne(last.op, before, capacity, id, cred);
    } else {
      assert forall k :: 0 <= k < |prefix| ==> prefix[k] == log[k];
      StoredStays(capacity, v, prefix, i, id, cred);
      LeftAloneByOne(last.op, before, capacity, id);
    }
  }

  /** Under any interleaving of any threads that leave the credential alone, a get that
      starts after its put has returned answers exactly the credential that was put. */
  lemma PutIsSeenByLaterGet(env: Shared.Env, s0: Shared.System, v0: Storage.Vault, earlier: seq<nat>, later: seq<nat>,
                            p: nat, g: nat, id: string, cred: CredentialV2)
    requires Shared.Initial(env, s0, v0)
    requires p < |s0.threads| && StoresAs(s0.threads[p].op, id, cred)
    requires g < |s0.threads| && s0.threads[g].op == Storage.GetCredential(id)
    requires forall t :: 0 <= t < |s0.threads| && t != p ==> LeavesAlone(s0.threads[t].op, id)
    requires var s := Shared.Run(env, s0, earlier);
             p < |s.threads| && s.threads[p].pc == Shared.Finished(Storage.Done)
             && g < |s.threads| && s.threads[g].pc == Shared.Ready
    requires var s := Shared.Run(env, s0, earlier + later);
             g < |s.threads| && s.threads[g].pc.Finished?
    ensures Shared.Run(env, s0, earlier + later).threads[g].pc == Shared.Finished(Storage.Credential(Some(cred)))
  {
    hide Shared.Run, Shared.Log, Shared.Legal, Shared.Shows, Shared.LocksOk, Shared.Next, Shared.Initial, Shared.Apart;
    hide Shared.Replay, LeavesAlone, StoresAs;
    Shared.EveryRunIsLinearizable(env, s0, v0, earlier);
    Shared.EveryRunIsLinearizable(env, s0, v0, earlier + later);
    Shared.LogGrows(env, s0, earlier, later);
    var short, log := Shared.Log(env, s0, earlier), Shared.Log(env, s0, earlier + later);
    var i, j := PutAndGetInLog(Shared.Run(env, s0, earlier), Shared.Run(env, s0, earlier + later), short, log, p, g);
    Shared.LogRespectsRealTime(env, s0, v0, earlier, later, i, j);
    StoredStays(env.capacity, v0, log, i, id, cred);
  }

  lemma PutAndGetInLog(s: Shared.System, s': Shared.System, short: seq<Shared.Event>, log: seq<Shared.Event>, p: nat,
                       g: nat)
    returns (i: nat, j: nat)
    requires Shared.Records(s, short) && Shared.Records(s', log) && short <= log
    requires p < |s.threads| && s.threads[p].pc == Shared.Finished(Storage.Done)
    requires g < |s'.threads| && s'.threads[g].pc.Finished?
    ensures i < |log| && log[i] == Shared.Event(p, s.threads[p].op, Storage.Done)
    ensures j < |log| && log[j] == Shared.Event(g, s'.threads[g].op, s'.threads[g].pc.reply)
    ensures forall k :: 0 <= k < |log| && k != i ==> log[k].thread != p && log[k].op == s'.threads[log[k].thread].op
  {
    i :| 0 <= i < |short| && short[i].thread == p;
    assert log[i] == short[i];
    j :| 0 <= j < |log| && log[j].thread == g;
  }

  /** The conditions of a request that do not depend on the date of birth: key, clock,
      challenge, circuit shape and a prover that delivers. */
  ghost predicate RestHolds(crypto: Functions, params: Params, loadedVkId: u32, cred: CredentialV2,
                            qr: QrChallengePayload, now: u64)
    requires cred.dobDays.Some? && cred.rBits.Some?
  {
    && loadedVkId == qr.verifyingKeyId
    && now <= cred.exp && now < qr.expiresAt
    && DecodeB64Of32(qr.rpChallenge).Ok?
    && PublicInputs(crypto, cred, qr, DecodeB64Of32(qr.rpChallenge).value).Some?
    && FitsCircuit(cred)
    && exists p :: Delivers(crypto, JobFor(params, cred, qr), p) && p.cutoff == qr.cutoffDays
  }

  /** Completeness. A credential issued for birth date `dob`, by either flow, is never
      refused for its signature, its commitment or a missing secret: when everything else
      is in order a request is built exactly when the date meets the challenge, and the
      age is blamed exactly when it does not. */
  lemma IssuedCredentialIsPresented(crypto: Functions, header: SignedCredentialHeader, dob: NaiveDate, rBits: seq<bool>,
                                    cred: CredentialV2, params: Params, loadedVkId: u32, fp: Option<string>,
                                    reported: Option<u32>, qr: QrChallengePayload, now: u64, today: NaiveDate, n: u32)
    requires IssuedBy(crypto, header, DobDays(dob), rBits, cred)
    requires CalculateCutoffDays(today, n) == Ok(qr.cutoffDays)
    ensures cred.dobDays.Some? && cred.rBits.Some?
    ensures var answer := Gates(crypto, params, loadedVkId, fp, reported, cred, qr, now);
            && (answer.Ok? <==>
                  RestHolds(crypto, params, loadedVkId, cred, qr, now) && MeetsChallenge(dob, today, n, qr))
            && (RestHolds(crypto, params, loadedVkId, cred, qr, now) ==>
                  (answer == Err(AgeRequirementNotMet) <==> !MeetsChallenge(dob, today, n, qr)))
            && answer !in {Err(SignatureInvalid), Err(CommitmentDiffers), Err(MissingPrivateFields),
                           Err(RBitsLengthMismatch)}
  {
    hide Gates, RestHolds, FinalizeCredential, CalculateCutoffDays, MeetsChallenge, ValidateAge, IssuedBy;
    EitherFlowFinalizes(crypto, header, DobDays(dob), rBits, cred);
    FinalizeYieldsAuthentic(crypto, header, DobDays(dob), rBits, cred);
    AgePredicateIsCalendarAge(dob, today, n, qr);
    GatesOnAuthentic(crypto, params, loadedVkId, fp, reported, cred, qr, now);
  }

  /** For an issued credential the statement that the prover proves is about the very fields
      that the issuer signed. */
  lemma IssuedJobCarriesHeader(crypto: Functions, header: SignedCredentialHeader, dobDays: i32, rBits: seq<bool>,
                               cred: CredentialV2, params: Params, loadedVkId: u32, fp: Option<string>,
                               reported: Option<u32>, qr: QrChallengePayload, now: u64, req: SubmitProofRequest)
    returns (job: ProveJob, p: AgeProof)
    requires IssuedBy(crypto, header, dobDays, rBits, cred)
    requires Gates(crypto, params, loadedVkId, fp, reported, cred, qr, now) == Ok(req)
    ensures Delivers(crypto, job, p) && CarriesProof(req, qr, p) && AsksFor(job, params, qr)
    ensures IsTrueStatement(crypto, job, header.kid, header.schema)
    ensures job.wit.v == header.v && job.wit.cBytes == header.cBytes && job.wit.issuerVk == header.issuerVk
    ensures job.wit.iat == header.iat && job.wit.exp == header.exp && job.wit.sigRj == header.sigRj
    ensures job.wit.dobDays == dobDays && job.wit.rBits == rBits
    ensures header.v == 2 && 0 < header.iat <= header.exp
    ensures var message := CredMsgV2(header.v, header.kid, header.cBytes, header.iat, header.exp, header.schema);
            crypto.verifySignature(message, header.sigRj, header.issuerVk)
  {
    hide Gates, FinalizeCredential, IssuedBy, Delivers, CarriesProof, AsksFor, Utf8;
    EitherFlowFinalizes(crypto, header, dobDays, rBits, cred);
    FinalizeYieldsAuthentic(crypto, header, dobDays, rBits, cred);
    job, p := RequestProvesTrueStatement(crypto, params, loadedVkId, fp, reported, cred, qr, now, req);
  }

  /** From issuance through the shared store to a request: the credential is issued, put
      by one thread, and got by another that starts after the put returned, under any
      interleaving with threads that leave it alone. What the get answers is presented:
      a request is built exactly when the rest is in order and the date of birth for which
      the credential was issued meets the challenge. */
  lemma IssuedStoredCredentialIsPresented(
    crypto: Functions, header: SignedCredentialHeader, dob: NaiveDate, rBits: seq<bool>, cred: CredentialV2,
    env: Shared.Env, s0: Shared.System, v0: Storage.Vault, earlier: seq<nat>, later: seq<nat>,
    p: nat, g: nat, id: string,
    params: Params, loadedVkId: u32, fp: Option<string>, reported: Option<u32>, qr: QrChallengePayload, now: u64,
    today: NaiveDate, n: u32)
    requires IssuedBy(crypto, header, DobDays(dob), rBits, cred)
    requires Shared.Initial(env, s0, v0)
    requires p < |s0.threads| && StoresAs(s0.threads[p].op, id, cred)
    requires g < |s0.threads| && s0.threads[g].op == Storage.GetCredential(id)
    requires forall t :: 0 <= t < |s0.threads| && t != p ==> LeavesAlone(s0.threads[t].op, id)
    requires var s := Shared.Run(env, s0, earlier);
             p < |s.threads| && s.threads[p].pc == Shared.Finished(Storage.Done)
             && g < |s.threads| && s.threads[g].pc == Shared.Ready
    requires var s := Shared.Run(env, s0, earlier + later);
             g < |s.threads| && s.threads[g].pc.Finished?
    requires CalculateCutoffDays(today, n) == Ok(qr.cutoffDays)
    ensures var reply := Shared.Run(env, s0, earlier + later).threads[g].pc.reply;
            && reply.Credential? && reply.cred.Some?
            && var got := reply.cred.value;
            && got.dobDays == Some(DobDays(dob)) && got.rBits.Some?
            && (Gates(crypto, params, loadedVkId, fp, reported, got, qr, now).Ok?
                <==> RestHolds(crypto, params, loadedVkId, got, qr, now) && MeetsChallenge(dob, today, n, qr))
  {
    hide Gates, RestHolds, FinalizeCredential, CalculateCutoffDays, MeetsChallenge, IssuedBy;
    hide Shared.Run, Shared.Initial, LeavesAlone, StoresAs;
    PutIsSeenByLaterGet(env, s0, v0, earlier, later, p, g, id, cred);
    EitherFlowFinalizes(crypto, header, DobDays(dob), rBits, cred);
    FinalizeYieldsAuthentic(crypto, header, DobDays(dob), rBits, cred);
    IssuedCredentialIsPresented(crypto, header, dob, rBits, cred, params, loadedVkId, fp, reported, qr, now, today, n);
  }

  lemma GatesOnAuthentic(crypto: Functions, params: Params, loadedVkId: u32, fp: Option<string>,
                         reported: Option<u32>, cred: CredentialV2, qr: QrChallengePayload, now: u64)
    requires Authentic(crypto, cred) && |cred.rBits.value| == R_BITS_LEN
    ensures var answer := Gates(crypto, params, loadedVkId, fp, reported, cred, qr, now);
            var ageOk := ValidateAge(cred.dobDays.value, qr.cutoffDays, IsUnderAge(qr));
            && (answer.Ok? <==> RestHolds(crypto, params, loadedVkId, cred, qr, now) && ageOk)
            && (RestHolds(crypto, params, loadedVkId, cred, qr, now) ==>
                  (answer == Err(AgeRequirementNotMet) <==> !ageOk))
            && answer !in {Err(SignatureInvalid), Err(CommitmentDiffers), Err(MissingPrivateFields),
                           Err(RBitsLengthMismatch)}
  {
    var answer := Gates(crypto, params, loadedVkId, fp, reported, cred, qr, now);
    if answer.Ok? {
      RequestBuiltExactlyWhen(crypto, params, loadedVkId, fp, reported, cred, qr, now, answer.value);
    }
    if RestHolds(crypto, params, loadedVkId, cred, qr, now) {
      var p :| Delivers(crypto, JobFor(params, cred, qr), p) && p.cutoff == qr.cutoffDays;
      RequestBuiltExactlyWhen(crypto, params, loadedVkId, fp, reported, cred, qr, now, RequestFor(qr, p));
    }
    AgeRefusalIsAboutAge(crypto, params, loadedVkId, fp, reported, cred, qr, now);
    NoFalseBlame(crypto, params, loadedVkId, fp, reported, cred, qr, now);
  }

  lemma NoFalseBlame(crypto: Functions, params: Params, loadedVkId: u32, fp: Option<string>,
                     reported: Option<u32>, cred: CredentialV2, qr: QrChallengePayload, now: u64)
    requires Authentic(crypto, cred) && |cred.rBits.value| == R_BITS_LEN
    ensures Gates(crypto, params, loadedVkId, fp, reported, cred, qr, now)
            !in {Err(SignatureInvalid), Err(CommitmentDiffers), Err(MissingPrivateFields), Err(RBitsLengthMismatch)}
  {
  }
}
