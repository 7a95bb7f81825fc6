/** `finalize_credential` of `crates/core/src/issuance.rs` and the blind flow of
    `crates/core/src/blind_issuance.rs`. */
module Issuance {
  import opened Machine
  import opened WalletTypes
  import opened Crypto
  import opened BitCodec
  import opened Base64Url

  datatype IssuanceError =
    | UnsupportedVersion
    | ZeroTimestamp
    | IatAfterExp
    | BadRBitsLength
    | CommitmentRejected
    | CommitmentMismatch
    | SignatureRejected

  /** The header checks that both flows start with. */
  function CheckHeader(header: SignedCredentialHeader): Result<(), IssuanceError> {
    if header.v != 2 then Err(UnsupportedVersion)
    else if header.iat == 0 || header.exp == 0 then Err(ZeroTimestamp)
    else if header.iat > header.exp then Err(IatAfterExp)
    else Ok(())
  }

  function WithSecrets(header: SignedCredentialHeader, dobDays: i32, rBits: seq<bool>): CredentialV2 {
    CredentialV2(header.v, header.kid, header.issuerVk, header.sigRj, header.cBytes, header.iat, header.exp,
                 header.schema, Some(dobDays), Some(rBits))
  }

  /** The commitment and signature checks that both flows end with. */
  function CheckAndAssemble(crypto: Functions, header: SignedCredentialHeader, dobDays: i32, rBits: seq<bool>)
    : Result<CredentialV2, IssuanceError>
  {
    match crypto.commit(dobDays, rBits)
    case None => Err(CommitmentRejected)
    case Some(c) =>
      if c != header.cBytes then Err(CommitmentMismatch)
      else if !crypto.verifySignature(MessageOf(header), header.sigRj, header.issuerVk) then Err(SignatureRejected)
      else Ok(WithSecrets(header, dobDays, rBits))
  }

  function FinalizeCredential(crypto: Functions, header: SignedCredentialHeader, dobDays: i32, rBits: seq<bool>)
    : Result<CredentialV2, IssuanceError>
  {
    var _ :- CheckHeader(header);
    if |rBits| != R_BITS_LEN then Err(BadRBitsLength)
    else CheckAndAssemble(crypto, header, dobDays, rBits)
  }

  // ----- Blind issuance -----

  /** The issuer's attestation: the date of birth, and the fields that are passed on. */
  datatype DobAttestation = DobAttestation(dobDays: i32, rest: Bytes)

  /** The JSON form of an attestation, whose inner working is not modelled. */
  datatype Json = Json(write: DobAttestation -> Bytes, read: Bytes -> Option<DobAttestation>)
  {
    ghost predicate Lawful() {
      forall a :: read(write(a)) == Some(a)
    }
  }

  /** What `generate_commitment_randomness` draws. */
  type RandomBits = bits: seq<bool> | |bits| == R_BITS_LEN witness seq(R_BITS_LEN, _ => false)

  datatype BlindIssuanceError = BadBase64 | BadJson

  datatype BlindIssuanceFlow = BlindIssuanceFlow(attestation: DobAttestation, rBits: seq<bool>, dobDays: i32)
  {
    function PrepareRequest(json: Json): BlindIssuanceRequest {
      BlindIssuanceRequest(Encode(json.write(attestation)), Encode(Packed(rBits)))
    }

    function Finalize(crypto: Functions, header: SignedCredentialHeader): Result<CredentialV2, IssuanceError> {
      var _ :- CheckHeader(header);
      CheckAndAssemble(crypto, header, dobDays, rBits)
    }
  }

  datatype BlindIssuanceRequest = BlindIssuanceRequest(attestation: string, rBits: string)

  /** `from_attestation`, the only way to make a flow, with the drawn bits as a parameter. */
  function FromAttestation(json: Json, text: string, random: RandomBits)
    : Result<BlindIssuanceFlow, BlindIssuanceError>
  {
    match Decode(text)
    case None => Err(BadBase64)
    case Some(bytes) =>
      match json.read(bytes)
      case None => Err(BadJson)
      case Some(a) => Ok(BlindIssuanceFlow(a, random, a.dobDays))
  }

  /** The issuer reads back from a request the attestation that the flow was made from and
      exactly the drawn bits. */
  lemma RequestCarriesTheBits(json: Json, text: string, random: RandomBits)
    requires json.Lawful() && FromAttestation(json, text, random).Ok?
    ensures var flow := FromAttestation(json, text, random).value;
            var r := flow.PrepareRequest(json);
            && Decode(text).Some? && Decode(r.attestation).Some?
            && json.read(Decode(r.attestation).value) == json.read(Decode(text).value) == Some(flow.attestation)
            && flow.dobDays == flow.attestation.dobDays
            && Decode(r.rBits).Some?
            && Unpacked(Decode(r.rBits).value, R_BITS_LEN) == random
  {
    var flow := FromAttestation(json, text, random).value;
    DecodeUndoesEncode(json.write(flow.attestation));
    DecodeUndoesEncode(Packed(random));
    UnpackUndoesPack(random);
  }

  // ----- What an accepted credential is -----

  /** A credential whose secrets open the signed commitment. */
  predicate Authentic(crypto: Functions, cred: CredentialV2) {
    && cred.dobDays.Some? && cred.rBits.Some?
    && crypto.commit(cred.dobDays.value, cred.rBits.value) == Some(cred.cBytes)
    && crypto.verifySignature(MessageOf(HeaderOf(cred)), cred.sigRj, cred.issuerVk)
  }

  predicate WellFormed(header: SignedCredentialHeader) {
    header.v == 2 && 0 < header.iat <= header.exp && header.exp > 0
  }

  /** `finalize_credential` returns exactly the authentic credentials with 128 bits of
      randomness and a well-formed header: each of its inputs comes back unchanged, and
      each such credential can be obtained. */
  lemma FinalizeYieldsAuthentic(crypto: Functions, header: SignedCredentialHeader, dobDays: i32, rBits: seq<bool>,
                                cred: CredentialV2)
    ensures FinalizeCredential(crypto, header, dobDays, rBits) == Ok(cred)
            <==> && HeaderOf(cred) == header && cred.dobDays == Some(dobDays) && cred.rBits == Some(rBits)
                 && Authentic(crypto, cred) && WellFormed(header) && |rBits| == R_BITS_LEN
  {
  }

  /** The exact condition of each refusal: the header's defects in their order, then the
      number of bits, then the commitment, then the signature. */
  lemma RefusalNamesCause(crypto: Functions, header: SignedCredentialHeader, dobDays: i32, rBits: seq<bool>)
    ensures var (r, c) := (FinalizeCredential(crypto, header, dobDays, rBits), crypto.commit(dobDays, rBits));
            var message := CredMsgV2(header.v, header.kid, header.cBytes, header.iat, header.exp, header.schema);
            var proceeds := header.v == 2 && 0 < header.iat <= header.exp && |rBits| == 128;
            && (r == Err(UnsupportedVersion) <==> header.v != 2)
            && (r == Err(ZeroTimestamp) <==> header.v == 2 && (header.iat == 0 || header.exp == 0))
            && (r == Err(IatAfterExp) <==> header.v == 2 && 0 < header.exp < header.iat)
            && (r == Err(BadRBitsLength) <==> header.v == 2 && 0 < header.iat <= header.exp && |rBits| != 128)
            && (r == Err(CommitmentRejected) <==> proceeds && c == None)
            && (r == Err(CommitmentMismatch) <==> proceeds && c.Some? && c.value != header.cBytes)
            && (r == Err(SignatureRejected) <==>
                  && proceeds && c == Some(header.cBytes)
                  && !crypto.verifySignature(message, header.sigRj, header.issuerVk))
  {
  }

  /** A text makes a flow exactly when it decodes to a readable attestation; otherwise the
      refusal says which of the two failed. The flow is about the attested birth date and
      holds the drawn bits. */
  lemma FlowMadeExactlyWhen(json: Json, text: string, random: RandomBits)
    ensures var r := FromAttestation(json, text, random);
            && (r == Err(BadBase64) <==> Decode(text) == None)
            && (r == Err(BadJson) <==> Decode(text).Some? && json.read(Decode(text).value) == None)
            && (r.Ok? <==> Decode(text).Some? && json.read(Decode(text).value).Some?)
            && (r.Ok? ==> json.read(Decode(text).value) == Some(r.value.attestation)
                          && r.value.dobDays == r.value.attestation.dobDays && r.value.rBits == random)
  {
    hide Decode;
  }

  /** On every flow that can be made, blind finalisation is `finalize_credential` on the
      attested date of birth and the drawn bits: same credentials, same refusals. */
  lemma BlindFinalizeAgrees(crypto: Functions, json: Json, text: string, random: RandomBits,
                            header: SignedCredentialHeader)
    requires FromAttestation(json, text, random).Ok?
    ensures var flow := FromAttestation(json, text, random).value;
            flow.Finalize(crypto, header) == FinalizeCredential(crypto, header, flow.attestation.dobDays, random)
  {
  }

  /** The credential came out of one of the two issuance flows. */
  ghost predicate IssuedBy(crypto: Functions, header: SignedCredentialHeader, dobDays: i32, rBits: seq<bool>,
                           cred: CredentialV2)
  {
    || FinalizeCredential(crypto, header, dobDays, rBits) == Ok(cred)
    || exists json, text, random ::
         && FromAttestation(json, text, random).Ok? && random == rBits
         && FromAttestation(json, text, random).value.dobDays == dobDays
         && FromAttestation(json, text, random).value.Finalize(crypto, header) == Ok(cred)
  }

  /** Either way it is what `finalize_credential` answers. */
  lemma EitherFlowFinalizes(crypto: Functions, header: SignedCredentialHeader, dobDays: i32, rBits: seq<bool>,
                            cred: CredentialV2)
    requires IssuedBy(crypto, header, dobDays, rBits, cred)
    ensures FinalizeCredential(crypto, header, dobDays, rBits) == Ok(cred)
  {
    if json, text, random :|
      && FromAttestation(json, text, random).Ok? && random == rBits
      && FromAttestation(json, text, random).value.dobDays == dobDays
      && FromAttestation(json, text, random).value.Finalize(crypto, header) == Ok(cred)
    {
      BlindFinalizeAgrees(crypto, json, text, random, header);
    }
  }
}
