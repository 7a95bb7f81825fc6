/** The cryptography that the wallet calls, as uninterpreted functions, and the records
    that pass between the wallet and it. */
module Crypto {
  import opened Machine
  import opened WalletTypes

  const R_BITS_LEN: nat := 128

  datatype CredMsgV2 = CredMsgV2(v: u8, kid: string, c: Bytes32, iat: u64, exp: u64, schema: string)

  /** The message under the issuer's signature. */
  function MessageOf(header: SignedCredentialHeader): CredMsgV2 {
    CredMsgV2(header.v, header.kid, header.cBytes, header.iat, header.exp, header.schema)
  }

  datatype AgeDirection = Over | Under

  datatype AgeWitness = AgeWitness(
    dobDays: i32,
    rBits: seq<bool>,
    issuerVk: Bytes32,
    sigRj: Bytes,
    v: u8,
    kid: Bytes,
    cBytes: Bytes32,
    iat: u64,
    exp: u64,
    schema: Bytes)

  /** Deserialised proving parameters. */
  datatype Params = Params(content: Bytes)

  datatype AgeProof = AgeProof(proof: Bytes, cutoff: i32, issuerVk: Bytes32, credNullifier: Bytes32)

  /** Everything one call of the prover gets. */
  datatype ProveJob = ProveJob(
    params: Params,
    cutoffDays: i32,
    rpChallenge: Bytes32,
    wit: AgeWitness,
    vkId: u32,
    direction: AgeDirection)

  datatype ProveOutcome = Proved(proof: AgeProof) | Refused | Panicked

  /** `commit` fails when the randomness is rejected. The prover is randomised and may
      panic, so its outcome depends on the number of the attempt. */
  datatype Functions = Functions(
    commit: (i32, seq<bool>) -> Option<Bytes32>,
    verifySignature: (CredMsgV2, Bytes64, Bytes32) -> bool,
    nullifier: Bytes32 -> Bytes32,
    blake2s: Bytes32 -> Bytes32,
    assemblePublicInputs: (bool, i32, Bytes32, Bytes32, Bytes32) -> Option<seq<Bytes32>>,
    loadProvingKey: Bytes -> Option<Params>,
    fingerprint: Bytes -> string,
    vkId: Params -> u32,
    prove: (nat, ProveJob) -> ProveOutcome)

  // ----- UTF-8 (section 3 of RFC 3629), the bytes of a Rust string -----

  function Utf8Char(c: char): Bytes {
    var n := c as int;
    if n < 0x80 then [n]
    else if n < 0x800 then [0xC0 + n / 0x40, 0x80 + n % 0x40]
    else if n < 0x10000 then [0xE0 + n / 0x1000, 0x80 + (n / 0x40) % 0x40, 0x80 + n % 0x40]
    else [0xF0 + n / 0x40000, 0x80 + (n / 0x1000) % 0x40, 0x80 + (n / 0x40) % 0x40, 0x80 + n % 0x40]
  }

  function Utf8(s: string): Bytes {
    if s == "" then [] else Utf8Char(s[0]) + Utf8(s[1..])
  }

  /** The number that the payload bits of one encoded character make. */
  function CodePoint(b: seq<int>): int {
    if |b| == 1 then b[0]
    else if |b| == 2 then (b[0] - 0xC0) * 0x40 + (b[1] - 0x80)
    else if |b| == 3 then (b[0] - 0xE0) * 0x1000 + (b[1] - 0x80) * 0x40 + (b[2] - 0x80)
    else if |b| == 4 then (b[0] - 0xF0) * 0x40000 + (b[1] - 0x80) * 0x1000 + (b[2] - 0x80) * 0x40 + (b[3] - 0x80)
    else -1
  }

  /** An encoded character gives its code point back. */
  lemma Utf8CharDecodes(c: char)
    ensures CodePoint(Utf8Char(c)) == c as int
  {
    SixBitGroups(c as int);
  }

  lemma SixBitGroups(n: nat)
    ensures n == (n / 0x40) * 0x40 + n % 0x40
    ensures n / 0x40 == (n / 0x1000) * 0x40 + (n / 0x40) % 0x40
    ensures n / 0x1000 == (n / 0x40000) * 0x40 + (n / 0x1000) % 0x40
  {
  }

  /** It is encoded in the shortest form, and its first byte tells its length. */
  lemma Utf8CharShape(c: char)
    ensures var (n, b) := (c as int, Utf8Char(c));
            && (|b| == if n < 0x80 then 1 else if n < 0x800 then 2 else if n < 0x10000 then 3 else 4)
            && (|b| == if b[0] < 0x80 then 1 else if b[0] < 0xE0 then 2 else if b[0] < 0xF0 then 3 else 4)
            && forall i :: 1 <= i < |b| ==> 0x80 <= b[i] < 0xC0
  {
  }

  /** Different texts have different bytes. */
  lemma {:induction false} Utf8IsInjective(s: string, t: string)
    requires Utf8(s) == Utf8(t)
    ensures s == t
  {
    if s != "" && t != "" {
      Utf8CharShape(s[0]);
      Utf8CharShape(t[0]);
      Utf8CharDecodes(s[0]);
      Utf8CharDecodes(t[0]);
      assert Utf8(s)[0] == Utf8Char(s[0])[0] && Utf8(t)[0] == Utf8Char(t[0])[0];
      var n := |Utf8Char(s[0])|;
      assert Utf8Char(s[0]) == Utf8(s)[..n] && Utf8Char(t[0]) == Utf8(t)[..n];
      assert s[0] == t[0];
      assert Utf8(s[1..]) == Utf8(s)[n..] && Utf8(t[1..]) == Utf8(t)[n..];
      Utf8IsInjective(s[1..], t[1..]);
    } else if s != "" {
      Utf8CharShape(s[0]);
    } else if t != "" {
      Utf8CharShape(t[0]);
    }
  }
}
