/** Records of `crates/core/src/types.rs`. */
module WalletTypes {
  import opened Machine

  type Bytes32 = b: Bytes | |b| == 32 witness seq(32, _ => 0)
  type Bytes64 = b: Bytes | |b| == 64 witness seq(64, _ => 0)

  datatype CredentialV2 = CredentialV2(
    v: u8,
    kid: string,
    issuerVk: Bytes32,
    sigRj: Bytes64,
    cBytes: Bytes32,
    iat: u64,
    exp: u64,
    schema: string,
    dobDays: Option<i32>,
    rBits: Option<seq<bool>>)

  datatype SignedCredentialHeader = SignedCredentialHeader(
    v: u8,
    kid: string,
    issuerVk: Bytes32,
    sigRj: Bytes64,
    cBytes: Bytes32,
    iat: u64,
    exp: u64,
    schema: string)

  /** The public part of a credential: what the issuer signed. */
  function HeaderOf(cred: CredentialV2): SignedCredentialHeader {
    SignedCredentialHeader(cred.v, cred.kid, cred.issuerVk, cred.sigRj, cred.cBytes, cred.iat, cred.exp, cred.schema)
  }

  datatype CredentialMetadata = CredentialMetadata(
    id: string,
    userLabel: Option<string>,
    importedAt: u64,
    issuerName: Option<string>)

  datatype QrChallengePayload = QrChallengePayload(
    challengeId: string,
    rpChallenge: string,
    cutoffDays: i32,
    verifyingKeyId: u32,
    submitSecret: string,
    expiresAt: u64,
    verifyUrl: string,
    codeVerifier: Option<string>,
    proofDirection: Option<string>)

  datatype AgePublicJson = AgePublicJson(cutoffDays: i32, rpChallenge: string, issuer: string, credNullifier: string)

  datatype AgeProofJson = AgeProofJson(verifyingKeyId: u32, public: AgePublicJson, proof: string)

  datatype SubmitProofRequest = SubmitProofRequest(
    challengeId: string,
    submitSecret: string,
    codeVerifier: Option<string>,
    proof: AgeProofJson)
}
