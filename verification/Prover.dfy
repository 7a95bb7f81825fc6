/** The checks before proof generation in `crates/core/src/prover.rs`: preflight, the
    chain of gates of `build_verify_request_internal`, and the retry around the prover. */
module Prover {
  import opened Machine
  import opened WalletTypes
  import opened Crypto
  import opened AgeCutoff
  import opened Base64Url
  import opened Issuance

  /** `InvalidInput` of the source is split by what was invalid. */
  datatype ProverError =
    | NotInitialized
    | AlreadyInitialized
    | InvalidProvingKey
    | InvalidBase64
    | MissingPrivateFields
    | RBitsLengthMismatch
    | SignatureInvalid
    | PublicInputsInvalid
    | CommitmentDiffers
    | ShapeMismatch
    | ProofGenerationFailed
    | VkIdMismatch(loaded: u32, expected: u32)
    | AgeRequirementNotMet
    | CredentialExpired
    | ChallengeExpired

  const EXPECTED_KID_LEN: nat := 14
  const EXPECTED_SCHEMA_LEN: nat := 12

  predicate IsUnderAge(qr: QrChallengePayload) {
    qr.proofDirection == Some("under_age")
  }

  /** `decode_b64_32`. */
  function DecodeB64Of32(s: string): Result<Bytes32, ProverError> {
    match Decode(s)
    case None => Err(InvalidBase64)
    case Some(bytes) => if |bytes| == 32 then Ok(bytes) else Err(InvalidBase64)
  }

  datatype PreflightReport = PreflightReport(
    dobDaysPresent: bool,
    rBitsLen: nat,
    cutoffDays: i32,
    cBytes: Bytes32,
    recomputed: Bytes32,
    commitmentMatches: bool,
    ageOk: bool,
    issuerB64: string,
    credNullifierB64: string,
    provingKeyFp: Option<string>,
    verifyingKeyId: u32,
    loadedVkId: Option<u32>,
    vkIdMatches: bool,
    publicInputs: seq<Bytes32>)

  /** The public inputs that the verifier will see. */
  function PublicInputs(crypto: Functions, cred: CredentialV2, qr: QrChallengePayload, rpChallenge: Bytes32)
    : Option<seq<Bytes32>>
  {
    crypto.assemblePublicInputs(!IsUnderAge(qr), qr.cutoffDays, crypto.blake2s(rpChallenge), cred.issuerVk,
                                crypto.nullifier(cred.cBytes))
  }

  /** `preflight_report`, with the two diagnostic cells as parameters. */
  function Preflight(crypto: Functions, provingKeyFp: Option<string>, loadedVkId: Option<u32>,
                     cred: CredentialV2, qr: QrChallengePayload): Result<PreflightReport, ProverError>
  {
    if cred.dobDays.None? then Err(MissingPrivateFields)
    else if cred.rBits.None? then Err(MissingPrivateFields)
    else if |cred.rBits.value| != R_BITS_LEN then Err(RBitsLengthMismatch)
    else
      var rpChallenge :- DecodeB64Of32(qr.rpChallenge);
      if !crypto.verifySignature(MessageOf(HeaderOf(cred)), cred.sigRj, cred.issuerVk) then Err(SignatureInvalid)
      else
        var (recomputed, matches) :=
          match crypto.commit(cred.dobDays.value, cred.rBits.value)
          case Some(c) => (c, c == cred.cBytes)
          case None => (seq(32, _ => 0), false);
        match PublicInputs(crypto, cred, qr, rpChallenge)
        case None => Err(PublicInputsInvalid)
        case Some(publics) =>
          Ok(PreflightReport(
            true, |cred.rBits.value|, qr.cutoffDays, cred.cBytes, recomputed, matches,
            ValidateAge(cred.dobDays.value, qr.cutoffDays, IsUnderAge(qr)),
            Encode(cred.issuerVk), Encode(crypto.nullifier(cred.cBytes)), provingKeyFp,
            qr.verifyingKeyId, loadedVkId, loadedVkId == Some(qr.verifyingKeyId), publics))
  }

  /** `verify_circuit_shape`. */
  function VerifyCircuitShape(w: AgeWitness): Result<(), ProverError> {
    if |w.kid| != EXPECTED_KID_LEN then Err(ShapeMismatch)
    else if |w.schema| != EXPECTED_SCHEMA_LEN then Err(ShapeMismatch)
    else if |w.rBits| != 128 then Err(ShapeMismatch)
    else if |w.sigRj| != 64 then Err(ShapeMismatch)
    else Ok(())
  }

  /** `generate_proof_safe`: a panic, and only a panic, earns one more attempt. */
  function GenerateProofSafe(crypto: Functions, job: ProveJob): Result<AgeProof, ProverError> {
    match crypto.prove(0, job)
    case Proved(proof) => Ok(proof)
    case Refused => Err(ProofGenerationFailed)
    case Panicked =>
      match crypto.prove(1, job)
      case Proved(proof) => Ok(proof)
      case Refused => Err(ProofGenerationFailed)
      case Panicked => Err(ProofGenerationFailed)
  }

  function WitnessOf(cred: CredentialV2): AgeWitness
    requires cred.dobDays.Some? && cred.rBits.Some?
  {
    AgeWitness(cred.dobDays.value, cred.rBits.value, cred.issuerVk, cred.sigRj, cred.v, Utf8(cred.kid),
               cred.cBytes, cred.iat, cred.exp, Utf8(cred.schema))
  }

  function RequestFor(qr: QrChallengePayload, p: AgeProof): SubmitProofRequest {
    SubmitProofRequest(
      qr.challengeId, qr.submitSecret, qr.codeVerifier,
      AgeProofJson(qr.verifyingKeyId,
                   AgePublicJson(qr.cutoffDays, qr.rpChallenge, Encode(p.issuerVk), Encode(p.credNullifier)),
                   Encode(p.proof)))
  }

  /** `build_verify_request_internal` from the point where it holds the parameters and
      the loaded vk_id. */
  function Gates(crypto: Functions, params: Params, loadedVkId: u32, provingKeyFp: Option<string>,
                 reportedVkId: Option<u32>, cred: CredentialV2, qr: QrChallengePayload, now: u64)
    : Result<SubmitProofRequest, ProverError>
  {
    if loadedVkId != qr.verifyingKeyId then Err(VkIdMismatch(loadedVkId, qr.verifyingKeyId))
    else if cred.exp < now then Err(CredentialExpired)
    else if qr.expiresAt <= now then Err(ChallengeExpired)
    else
      var report :- Preflight(crypto, provingKeyFp, reportedVkId, cred, qr);
      if !report.commitmentMatches then Err(CommitmentDiffers)
      else if !report.ageOk then Err(AgeRequirementNotMet)
      else
        var rpChallenge :- DecodeB64Of32(qr.rpChallenge);
        var wit := WitnessOf(cred);
        var _ :- VerifyCircuitShape(wit);
        var direction := if IsUnderAge(qr) then Under else Over;
        var job := ProveJob(params, qr.cutoffDays, rpChallenge, wit, qr.verifyingKeyId, direction);
        var p :- GenerateProofSafe(crypto, job);
        if p.cutoff != qr.cutoffDays then Err(ProofGenerationFailed)
        else Ok(RequestFor(qr, p))
  }

  // ----- What the gates let through -----

  /** The conditions on credential, challenge and clock, in no particular order. */
  predicate Presentable(crypto: Functions, cred: CredentialV2, qr: QrChallengePayload, now: u64) {
    && Authentic(crypto, cred)
    && |cred.rBits.value| == R_BITS_LEN
    && now <= cred.exp && now < qr.expiresAt
    && DecodeB64Of32(qr.rpChallenge).Ok?
    && PublicInputs(crypto, cred, qr, DecodeB64Of32(qr.rpChallenge).value).Some?
  }

  predicate FitsCircuit(cred: CredentialV2) {
    |Utf8(cred.kid)| == EXPECTED_KID_LEN && |Utf8(cred.schema)| == EXPECTED_SCHEMA_LEN
  }

  function JobFor(params: Params, cred: CredentialV2, qr: QrChallengePayload): ProveJob
    requires cred.dobDays.Some? && cred.rBits.Some? && DecodeB64Of32(qr.rpChallenge).Ok?
  {
    ProveJob(params, qr.cutoffDays, DecodeB64Of32(qr.rpChallenge).value, WitnessOf(cred), qr.verifyingKeyId,
             if IsUnderAge(qr) then Under else Over)
  }

  /** The prover delivers `p`: at once, or after exactly one panic. */
  predicate Delivers(crypto: Functions, job: ProveJob, p: AgeProof) {
    || crypto.prove(0, job) == Proved(p)
    || (crypto.prove(0, job) == Panicked && crypto.prove(1, job) == Proved(p))
  }

  /** A request is built exactly when every condition holds and the prover delivers a
      proof for the challenge's cutoff; the request then carries that proof. */
  lemma RequestBuiltExactlyWhen(crypto: Functions, params: Params, loadedVkId: u32, fp: Option<string>,
                                reported: Option<u32>, cred: CredentialV2, qr: QrChallengePayload, now: u64,
                                req: SubmitProofRequest)
    ensures Gates(crypto, params, loadedVkId, fp, reported, cred, qr, now) == Ok(req)
            <==> && loadedVkId == qr.verifyingKeyId
                 && Presentable(crypto, cred, qr, now)
                 && ValidateAge(cred.dobDays.value, qr.cutoffDays, IsUnderAge(qr))
                 && FitsCircuit(cred)
                 && exists p :: && Delivers(crypto, JobFor(params, cred, qr), p)
                                && p.cutoff == qr.cutoffDays && req == RequestFor(qr, p)
  {
    hide Decode, Encode, Utf8;
    if Gates(crypto, params, loadedVkId, fp, reported, cred, qr, now) == Ok(req) {
      var p := GenerateProofSafe(crypto, JobFor(params, cred, qr)).value;
      assert Delivers(crypto, JobFor(params, cred, qr), p);
    }
  }

  /** The age refusal is reported exactly for an authentic, unexpired credential whose
      date of birth fails the predicate: never to hide another defect. */
  lemma AgeRefusalIsAboutAge(crypto: Functions, params: Params, loadedVkId: u32, fp: Option<string>,
                             reported: Option<u32>, cred: CredentialV2, qr: QrChallengePayload, now: u64)
    ensures Gates(crypto, params, loadedVkId, fp, reported, cred, qr, now) == Err(AgeRequirementNotMet)
            <==> && loadedVkId == qr.verifyingKeyId
                 && Presentable(crypto, cred, qr, now)
                 && !ValidateAge(cred.dobDays.value, qr.cutoffDays, IsUnderAge(qr))
  {
    hide Decode, Encode, Utf8;
  }

  predicate SecretsPresent(cred: CredentialV2) {
    cred.dobDays.Some? && cred.rBits.Some? && |cred.rBits.value| == R_BITS_LEN
  }

  /** The defect that `e` reports, each in itself and where the parts it speaks of exist. */
  ghost predicate HasDefect(e: ProverError, crypto: Functions, params: Params, loadedVkId: u32, cred: CredentialV2,
                            qr: QrChallengePayload, now: u64)
  {
    match e
    case VkIdMismatch(loaded, expected) => loaded == loadedVkId && expected == qr.verifyingKeyId && loaded != expected
    case CredentialExpired => cred.exp < now
    case ChallengeExpired => qr.expiresAt <= now
    case MissingPrivateFields => cred.dobDays.None? || cred.rBits.None?
    case RBitsLengthMismatch => cred.rBits.Some? && |cred.rBits.value| != R_BITS_LEN
    case InvalidBase64 => DecodeB64Of32(qr.rpChallenge).Err?
    case SignatureInvalid => !crypto.verifySignature(MessageOf(HeaderOf(cred)), cred.sigRj, cred.issuerVk)
    case PublicInputsInvalid =>
      DecodeB64Of32(qr.rpChallenge).Ok? && PublicInputs(crypto, cred, qr, DecodeB64Of32(qr.rpChallenge).value).None?
    case CommitmentDiffers =>
      cred.dobDays.Some? && cred.rBits.Some? && crypto.commit(cred.dobDays.value, cred.rBits.value) != Some(cred.cBytes)
    case AgeRequirementNotMet =>
      cred.dobDays.Some? && !ValidateAge(cred.dobDays.value, qr.cutoffDays, IsUnderAge(qr))
    case ShapeMismatch => !FitsCircuit(cred)
    case ProofGenerationFailed =>
      && cred.dobDays.Some? && cred.rBits.Some? && DecodeB64Of32(qr.rpChallenge).Ok?
      && forall p :: Delivers(crypto, JobFor(params, cred, qr), p) ==> p.cutoff != qr.cutoffDays
    case _ => false
  }

  /** The order in which defects are looked for. */
  function Rank(e: ProverError): nat {
    match e
    case VkIdMismatch(_, _) => 0
    case CredentialExpired => 1
    case ChallengeExpired => 2
    case MissingPrivateFields => 3
    case RBitsLengthMismatch => 4
    case InvalidBase64 => 5
    case SignatureInvalid => 6
    case PublicInputsInvalid => 7
    case CommitmentDiffers => 8
    case AgeRequirementNotMet => 9
    case ShapeMismatch => 10
    case ProofGenerationFailed => 11
    case _ => 12
  }

  /** A request is refused for its first defect: whatever is wrong with it, the refusal
      names the lowest-ranked thing that is, and without any defect it is built. */
  lemma RefusedForFirstDefect(crypto: Functions, params: Params, loadedVkId: u32, fp: Option<string>,
                              reported: Option<u32>, cred: CredentialV2, qr: QrChallengePayload,
                              now: u64, e: ProverError)
    ensures Gates(crypto, params, loadedVkId, fp, reported, cred, qr, now) == Err(e)
            <==> && HasDefect(e, crypto, params, loadedVkId, cred, qr, now)
                 && forall d :: HasDefect(d, crypto, params, loadedVkId, cred, qr, now) ==> Rank(e) <= Rank(d)
    ensures Gates(crypto, params, loadedVkId, fp, reported, cred, qr, now).Ok?
            <==> forall d :: !HasDefect(d, crypto, params, loadedVkId, cred, qr, now)
  {
    hide HasDefect, Gates, Rank;
    var answer := Gates(crypto, params, loadedVkId, fp, reported, cred, qr, now);
    forall d | HasDefect(d, crypto, params, loadedVkId, cred, qr, now)
      ensures answer.Err? && Rank(answer.error) <= Rank(d)
    {
      NoEarlierDefect(crypto, params, loadedVkId, fp, reported, cred, qr, now, d);
    }
    if answer.Err? {
      RefusalIsDefect(crypto, params, loadedVkId, fp, reported, cred, qr, now);
      if HasDefect(e, crypto, params, loadedVkId, cred, qr, now) && Rank(e) == Rank(answer.error) {
        RankTellsDefects(crypto, params, loadedVkId, cred, qr, now, e, answer.error);
      }
    }
  }

  lemma RankTellsDefects(crypto: Functions, params: Params, loadedVkId: u32, cred: CredentialV2, qr: QrChallengePayload,
                         now: u64, d: ProverError, e: ProverError)
    requires HasDefect(d, crypto, params, loadedVkId, cred, qr, now)
            && HasDefect(e, crypto, params, loadedVkId, cred, qr, now)
    requires Rank(d) == Rank(e)
    ensures d == e
  {
  }

  lemma NoEarlierDefect(crypto: Functions, params: Params, loadedVkId: u32, fp: Option<string>, reported: Option<u32>,
                        cred: CredentialV2, qr: QrChallengePayload, now: u64, d: ProverError)
    requires HasDefect(d, crypto, params, loadedVkId, cred, qr, now)
    ensures var answer := Gates(crypto, params, loadedVkId, fp, reported, cred, qr, now);
            answer.Err? && Rank(answer.error) <= Rank(d)
  {
    hide Gates, Decode, Encode, Utf8, PublicInputs, JobFor, Delivers, ValidateAge;
    if d.ProofGenerationFailed? {
      NoProofNoRequest(crypto, params, loadedVkId, fp, reported, cred, qr, now);
    } else if Rank(d) <= Rank(PublicInputsInvalid) {
      NoneBeforeEarlyDefect(crypto, params, loadedVkId, fp, reported, cred, qr, now, d);
    } else {
      NoneBeforeLateDefect(crypto, params, loadedVkId, fp, reported, cred, qr, now, d);
    }
  }

  lemma NoneBeforeEarlyDefect(crypto: Functions, params: Params, loadedVkId: u32, fp: Option<string>,
                              reported: Option<u32>, cred: CredentialV2, qr: QrChallengePayload,
                              now: u64, d: ProverError)
    requires HasDefect(d, crypto, params, loadedVkId, cred, qr, now) && Rank(d) <= Rank(PublicInputsInvalid)
    ensures var answer := Gates(crypto, params, loadedVkId, fp, reported, cred, qr, now);
            answer.Err? && Rank(answer.error) <= Rank(d)
  {
    hide Decode, Encode, Utf8, PublicInputs, RequestFor, JobFor, Delivers, FitsCircuit, ValidateAge;
  }

  lemma NoneBeforeLateDefect(crypto: Functions, params: Params, loadedVkId: u32, fp: Option<string>,
                             reported: Option<u32>, cred: CredentialV2, qr: QrChallengePayload,
                              now: u64, d: ProverError)
    requires HasDefect(d, crypto, params, loadedVkId, cred, qr, now)
    requires Rank(PublicInputsInvalid) < Rank(d) < Rank(ProofGenerationFailed)
    ensures var answer := Gates(crypto, params, loadedVkId, fp, reported, cred, qr, now);
            answer.Err? && Rank(answer.error) <= Rank(d)
  {
    hide DecodeB64Of32, Decode, Encode, Utf8, PublicInputs, RequestFor, JobFor, Delivers, ValidateAge;
    DecodingFailsOneWay(qr.rpChallenge);
  }

  lemma DecodingFailsOneWay(s: string)
    ensures DecodeB64Of32(s).Err? ==> DecodeB64Of32(s) == Err(InvalidBase64)
  {
  }

  lemma NoProofNoRequest(crypto: Functions, params: Params, loadedVkId: u32, fp: Option<string>, reported: Option<u32>,
                         cred: CredentialV2, qr: QrChallengePayload, now: u64)
    requires HasDefect(ProofGenerationFailed, crypto, params, loadedVkId, cred, qr, now)
    ensures var answer := Gates(crypto, params, loadedVkId, fp, reported, cred, qr, now);
            answer.Err? && Rank(answer.error) <= Rank(ProofGenerationFailed)
  {
    hide DecodeB64Of32, Decode, Encode, Utf8, PublicInputs, RequestFor, WitnessOf;
    var answer := Gates(crypto, params, loadedVkId, fp, reported, cred, qr, now);
    if answer.Ok? {
      RequestBuiltExactlyWhen(crypto, params, loadedVkId, fp, reported, cred, qr, now, answer.value);
    }
  }

  lemma RefusalIsDefect(crypto: Functions, params: Params, loadedVkId: u32, fp: Option<string>, reported: Option<u32>,
                        cred: CredentialV2, qr: QrChallengePayload, now: u64)
    requires Gates(crypto, params, loadedVkId, fp, reported, cred, qr, now).Err?
    ensures HasDefect(Gates(crypto, params, loadedVkId, fp, reported, cred, qr, now).error,
                      crypto, params, loadedVkId, cred, qr, now)
  {
    hide Decode, Encode, Utf8, PublicInputs;
    if Gates(crypto, params, loadedVkId, fp, reported, cred, qr, now) == Err(ProofGenerationFailed) {
      forall p | Delivers(crypto, JobFor(params, cred, qr), p) ensures p.cutoff != qr.cutoffDays {
        assert GenerateProofSafe(crypto, JobFor(params, cred, qr)) == Ok(p);
      }
    }
  }

  /** Preflight reports exactly when the secrets are there, the challenge decodes, the
      signature verifies and the public inputs assemble; and then its verdicts are true. */
  lemma ReportIsTrue(crypto: Functions, fp: Option<string>, loaded: Option<u32>, cred: CredentialV2,
                     qr: QrChallengePayload)
    ensures var report := Preflight(crypto, fp, loaded, cred, qr);
            && (report.Ok? <==>
                  && SecretsPresent(cred) && DecodeB64Of32(qr.rpChallenge).Ok?
                  && crypto.verifySignature(MessageOf(HeaderOf(cred)), cred.sigRj, cred.issuerVk)
                  && PublicInputs(crypto, cred, qr, DecodeB64Of32(qr.rpChallenge).value).Some?)
            && (report.Ok? ==>
                  && report.value.dobDaysPresent && report.value.rBitsLen == 128
                  && report.value.cutoffDays == qr.cutoffDays && report.value.verifyingKeyId == qr.verifyingKeyId
                  && report.value.provingKeyFp == fp && report.value.loadedVkId == loaded
                  && report.value.cBytes == cred.cBytes
                  && DecodeB64Of32(qr.rpChallenge).Ok?
                  && crypto.assemblePublicInputs(
                       qr.proofDirection != Some("under_age"), qr.cutoffDays,
                       crypto.blake2s(DecodeB64Of32(qr.rpChallenge).value), cred.issuerVk,
                       crypto.nullifier(cred.cBytes))
                     == Some(report.value.publicInputs)
                  && (match crypto.commit(cred.dobDays.value, cred.rBits.value)
                      case Some(c) => report.value.recomputed == c
                      case None => report.value.recomputed == seq(32, _ => 0))
                  && (report.value.commitmentMatches <==> Authentic(crypto, cred))
                  && (report.value.ageOk <==> ValidateAge(cred.dobDays.value, qr.cutoffDays, IsUnderAge(qr)))
                  && (report.value.vkIdMatches <==> loaded == Some(qr.verifyingKeyId))
                  && DecodeB64Of32(report.value.issuerB64) == Ok(cred.issuerVk)
                  && DecodeB64Of32(report.value.credNullifierB64) == Ok(crypto.nullifier(cred.cBytes)))
  {
    hide Decode, Encode;
    DecodeUndoesEncode(cred.issuerVk);
    DecodeUndoesEncode(crypto.nullifier(cred.cBytes));
  }

  /** A request carries the challenge's own values, and its encoded fields can be read
      back as the prover's bytes. */
  lemma RequestFieldsDecode(qr: QrChallengePayload, p: AgeProof)
    ensures CarriesProof(RequestFor(qr, p), qr, p)
  {
    DecodeUndoesEncode(p.proof);
    DecodeUndoesEncode(p.issuerVk);
    DecodeUndoesEncode(p.credNullifier);
  }

  predicate CarriesProof(req: SubmitProofRequest, qr: QrChallengePayload, p: AgeProof) {
    && req.challengeId == qr.challengeId && req.submitSecret == qr.submitSecret && req.codeVerifier == qr.codeVerifier
    && req.proof.verifyingKeyId == qr.verifyingKeyId
    && req.proof.public.cutoffDays == qr.cutoffDays && req.proof.public.rpChallenge == qr.rpChallenge
    && Decode(req.proof.proof) == Some(p.proof)
    && Decode(req.proof.public.issuer) == Some(p.issuerVk)
    && Decode(req.proof.public.credNullifier) == Some(p.credNullifier)
  }

  // ----- What the prover is asked to prove -----

  /** The statement of the circuit on the job's own fields: the secrets open the commitment,
      the signature is the issuer's on the message that the fields make, the date of birth
      is on the right side of the cutoff, the lengths are those of the circuit, and the
      public inputs assemble. */
  predicate IsTrueStatement(crypto: Functions, job: ProveJob, kid: string, schema: string) {
    var w := job.wit;
    && crypto.commit(w.dobDays, w.rBits) == Some(w.cBytes)
    && w.kid == Utf8(kid) && w.schema == Utf8(schema)
    && |w.sigRj| == 64
    && crypto.verifySignature(CredMsgV2(w.v, kid, w.cBytes, w.iat, w.exp, schema), w.sigRj, w.issuerVk)
    && (match job.direction case Over => w.dobDays <= job.cutoffDays case Under => job.cutoffDays <= w.dobDays)
    && |w.kid| == 14 && |w.schema| == 12 && |w.rBits| == 128
    && crypto.assemblePublicInputs(job.direction == Over, job.cutoffDays, crypto.blake2s(job.rpChallenge), w.issuerVk,
                                   crypto.nullifier(w.cBytes)).Some?
  }

  /** The job asks for what the challenge names. */
  predicate AsksFor(job: ProveJob, params: Params, qr: QrChallengePayload) {
    && job.params == params && job.cutoffDays == qr.cutoffDays && job.vkId == qr.verifyingKeyId
    && Decode(qr.rpChallenge) == Some(job.rpChallenge)
    && (job.direction == Under <==> qr.proofDirection == Some("under_age"))
  }

  lemma JobIsTrueStatement(crypto: Functions, params: Params, cred: CredentialV2, qr: QrChallengePayload, now: u64)
    requires Presentable(crypto, cred, qr, now) && FitsCircuit(cred)
    requires ValidateAge(cred.dobDays.value, qr.cutoffDays, IsUnderAge(qr))
    ensures IsTrueStatement(crypto, JobFor(params, cred, qr), cred.kid, cred.schema)
    ensures AsksFor(JobFor(params, cred, qr), params, qr)
  {
    hide Decode, Utf8;
  }

  /** Whenever a request is built, the prover was given a true statement about the
      credential for this challenge, and the request carries the proof it gave for it. */
  lemma RequestProvesTrueStatement(crypto: Functions, params: Params, loadedVkId: u32, fp: Option<string>,
                                   reported: Option<u32>, cred: CredentialV2, qr: QrChallengePayload, now: u64,
                                   req: SubmitProofRequest)
    returns (job: ProveJob, p: AgeProof)
    requires Gates(crypto, params, loadedVkId, fp, reported, cred, qr, now) == Ok(req)
    ensures Delivers(crypto, job, p) && p.cutoff == qr.cutoffDays && CarriesProof(req, qr, p)
    ensures IsTrueStatement(crypto, job, cred.kid, cred.schema) && AsksFor(job, params, qr)
    ensures job.wit.issuerVk == cred.issuerVk && job.wit.cBytes == cred.cBytes
    ensures Some(job.wit.dobDays) == cred.dobDays && Some(job.wit.rBits) == cred.rBits
    ensures job.wit.v == cred.v && job.wit.iat == cred.iat && job.wit.exp == cred.exp && job.wit.sigRj == cred.sigRj
  {
    hide Gates, Decode, Encode, Utf8, IsTrueStatement, AsksFor, CarriesProof;
    RequestBuiltExactlyWhen(crypto, params, loadedVkId, fp, reported, cred, qr, now, req);
    job := JobFor(params, cred, qr);
    p :| Delivers(crypto, job, p) && p.cutoff == qr.cutoffDays && req == RequestFor(qr, p);
    JobIsTrueStatement(crypto, params, cred, qr, now);
    RequestFieldsDecode(qr, p);
  }

  /** The prover answers every true statement with a proof for its cutoff. */
  ghost predicate IsComplete(crypto: Functions) {
    forall job, kid, schema :: IsTrueStatement(crypto, job, kid, schema) ==>
                                 crypto.prove(0, job).Proved? && crypto.prove(0, job).proof.cutoff == job.cutoffDays
  }

  /** With a prover that can prove true statements, a request is built exactly when the
      credential is presentable, of the right age and fits the circuit. */
  lemma CompleteProverAlwaysDelivers(crypto: Functions, params: Params, loadedVkId: u32, fp: Option<string>,
                                     reported: Option<u32>, cred: CredentialV2, qr: QrChallengePayload, now: u64)
    requires IsComplete(crypto)
    ensures Gates(crypto, params, loadedVkId, fp, reported, cred, qr, now).Ok?
            <==> && loadedVkId == qr.verifyingKeyId
                 && Presentable(crypto, cred, qr, now)
                 && ValidateAge(cred.dobDays.value, qr.cutoffDays, IsUnderAge(qr))
                 && FitsCircuit(cred)
  {
    hide Gates, Decode, Encode, Utf8, IsTrueStatement, AsksFor, Presentable, FitsCircuit, ValidateAge, JobFor;
    var answer := Gates(crypto, params, loadedVkId, fp, reported, cred, qr, now);
    if answer.Ok? {
      RequestBuiltExactlyWhen(crypto, params, loadedVkId, fp, reported, cred, qr, now, answer.value);
    } else {
      CompleteProverBuilds(crypto, params, loadedVkId, fp, reported, cred, qr, now);
    }
  }

  lemma CompleteProverBuilds(crypto: Functions, params: Params, loadedVkId: u32, fp: Option<string>,
                             reported: Option<u32>, cred: CredentialV2, qr: QrChallengePayload, now: u64)
    requires IsComplete(crypto)
    ensures loadedVkId == qr.verifyingKeyId && Presentable(crypto, cred, qr, now)
            && ValidateAge(cred.dobDays.value, qr.cutoffDays, IsUnderAge(qr)) && FitsCircuit(cred)
            ==> Gates(crypto, params, loadedVkId, fp, reported, cred, qr, now).Ok?
  {
    hide Gates, Decode, Encode, Utf8, IsTrueStatement;
    if Presentable(crypto, cred, qr, now) && FitsCircuit(cred)
       && ValidateAge(cred.dobDays.value, qr.cutoffDays, IsUnderAge(qr)) {
      JobIsTrueStatement(crypto, params, cred, qr, now);
      var job := JobFor(params, cred, qr);
      var p := crypto.prove(0, job).proof;
      assert Delivers(crypto, job, p) && p.cutoff == qr.cutoffDays;
      RequestBuiltExactlyWhen(crypto, params, loadedVkId, fp, reported, cred, qr, now, RequestFor(qr, p));
    }
  }

  // ----- From issuance to proof -----

  /** Every credential that issuance accepts passes preflight's signature check and
      matches its commitment: the report exists exactly when the challenge decodes and
      its public inputs assemble, and then it shows the truth about the age. */
  lemma IssuedCredentialPassesPreflight(crypto: Functions, header: SignedCredentialHeader, dobDays: i32,
                                        rBits: seq<bool>, fp: Option<string>, loaded: Option<u32>,
                                        qr: QrChallengePayload)
    requires FinalizeCredential(crypto, header, dobDays, rBits).Ok?
    ensures var cred := FinalizeCredential(crypto, header, dobDays, rBits).value;
            var report := Preflight(crypto, fp, loaded, cred, qr);
            && (report.Ok? <==> DecodeB64Of32(qr.rpChallenge).Ok?
                                && PublicInputs(crypto, cred, qr, DecodeB64Of32(qr.rpChallenge).value).Some?)
            && (report.Ok? ==> report.value.commitmentMatches
                               && (report.value.ageOk <==> ValidateAge(dobDays, qr.cutoffDays, IsUnderAge(qr))))
  {
    hide Decode, Encode;
    FinalizeYieldsAuthentic(crypto, header, dobDays, rBits, FinalizeCredential(crypto, header, dobDays, rBits).value);
  }
}
