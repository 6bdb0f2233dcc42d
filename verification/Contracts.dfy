/** Contract revisions, the proposals and decisions that carry them, and the time window they hold in. */
module Contracts {
  import opened Json
  import opened Options
  import opened Crypto
  import Dsse

  datatype Identity = Identity(issuer: string, agent: string, root: string)

  datatype PartKind = TextKind | DataKind

  datatype CanonicalRule = Utf8Exact | Jcs

  datatype InputEntry = InputEntry(id: string, messageId: string, partIndex: nat, kind: PartKind, mediaType: string,
                                   canonicalRule: CanonicalRule, byteLength: nat, sha256: string,
                                   workerVisible: bool, processorVisible: bool)

  /** The members the engine reads; `other` is everything else in the payload. */
  datatype Contract = Contract(contractId: string, revision: nat, predecessorDigest: Option<string>, messageId: string,
                               requester: Identity, performer: Identity, inputs: seq<InputEntry>,
                               createdAt: string, expiresAt: string, other: Json)

  datatype ParsedContract = ParsedContract(contract: Contract, digest: string, payload: string)

  /** `read` is the payload pipeline: I-JSON, canonical bytes, schema and typed fields. */
  function ParsePayload(lib: Lib, read: string -> Option<Contract>, payload: string): Option<ParsedContract> {
    if read(payload).None? then None else Some(ParsedContract(read(payload).value, lib.sha(payload), payload))
  }

  /** What `ParsePayload` yields. */
  predicate Parsed(lib: Lib, read: string -> Option<Contract>, p: ParsedContract) {
    ParsePayload(lib, read, p.payload) == Some(p)
  }

  lemma ParsedMeans(lib: Lib, read: string -> Option<Contract>, p: ParsedContract)
    ensures Parsed(lib, read, p) <==> read(p.payload) == Some(p.contract) && p.digest == lib.sha(p.payload)
  {
  }

  // ---- Signed proposals ----

  const PROPOSAL_TYPE := "application/vnd.akson-dev.contract.v1+json"

  datatype ProposalError = Purpose | BadEnvelope(cause: Dsse.Error) | BadContract
    | RequesterMismatch | PerformerMismatch

  datatype ProposalResult = Verified(proposal: ParsedContract) | NotVerified(error: ProposalError)

  function VerifyProposal(lib: Lib, read: string -> Option<Contract>, envelope: Dsse.Envelope,
                          key: PurposeVerifyingKey): ProposalResult {
    if key.purpose != ContractProposal then NotVerified(Purpose)
    else
      var unsealed := Dsse.Verify(lib, envelope, PROPOSAL_TYPE, key.key);
      if unsealed.Err? then NotVerified(BadEnvelope(unsealed.error))
      else
        var parsed := ParsePayload(lib, read, unsealed.payload);
        if parsed.None? then NotVerified(BadContract) else Verified(parsed.value)
  }

  /** A proposal verifies exactly when an envelope of the contract type carries its payload under a
      proposal key, and is what the payload reads as. */
  lemma ProposalVerifies(lib: Lib, read: string -> Option<Contract>, envelope: Dsse.Envelope,
                         key: PurposeVerifyingKey, p: ParsedContract)
    ensures VerifyProposal(lib, read, envelope, key) == Verified(p) <==>
      && key.purpose == ContractProposal
      && Dsse.Carries(lib, envelope, "application/vnd.akson-dev.contract.v1+json", key.key, p.payload)
      && read(p.payload) == Some(p.contract) && p.digest == lib.sha(p.payload)
    ensures VerifyProposal(lib, read, envelope, key) == NotVerified(Purpose) <==> key.purpose != ContractProposal
    ensures VerifyProposal(lib, read, envelope, key) == NotVerified(BadContract) <==>
      var unsealed := Dsse.Verify(lib, envelope, PROPOSAL_TYPE, key.key);
      key.purpose == ContractProposal && unsealed.Ok? && read(unsealed.payload).None?
  {
    var unsealed := Dsse.Verify(lib, envelope, PROPOSAL_TYPE, key.key);
    Dsse.VerifiesExactly(lib, envelope, PROPOSAL_TYPE, key.key, p.payload);
  }

  function IdentityError(c: Contract, origin: Identity, local: Identity): Option<ProposalError> {
    if c.requester != origin then Some(RequesterMismatch)
    else if c.performer != local then Some(PerformerMismatch)
    else None
  }

  // ---- Decisions ----

  datatype Decision = Decision(contractId: string, contractRevision: nat, contractDigest: string, decider: Identity)

  /** The first field that does not bind, by the source's name for it. */
  function BindingError(d: Decision, p: ParsedContract): Option<string> {
    if d.contractId != p.contract.contractId then Some("contract id")
    else if d.contractRevision != p.contract.revision then Some("contract revision")
    else if d.contractDigest != p.digest then Some("contract digest")
    else if d.decider != p.contract.performer then Some("decider is not the performer")
    else None
  }

  /** A decision binds exactly when it names this contract, revision and digest and its performer
      decided; otherwise the first of these that differs is named. */
  lemma BindsDecision(d: Decision, p: ParsedContract)
    ensures BindingError(d, p).None? <==>
      d == Decision(p.contract.contractId, p.contract.revision, p.digest, p.contract.performer)
    ensures BindingError(d, p) == Some("contract id") <==> d.contractId != p.contract.contractId
    ensures BindingError(d, p) == Some("contract revision") <==>
      d.contractId == p.contract.contractId && d.contractRevision != p.contract.revision
    ensures BindingError(d, p) == Some("contract digest") <==>
      && d.contractId == p.contract.contractId && d.contractRevision == p.contract.revision
      && d.contractDigest != p.digest
    ensures BindingError(d, p) == Some("decider is not the performer") <==>
      && d.contractId == p.contract.contractId && d.contractRevision == p.contract.revision
      && d.contractDigest == p.digest && d.decider != p.contract.performer
  {
  }

  // ---- Trusted time ----

  const LEEWAY := 5

  datatype Validity = Valid | NotYetValid | Expired

  /** `seconds` parses an RFC 3339 instant to unix seconds; `None` when a timestamp does not parse. */
  function ValidityAt(seconds: string -> Option<int>, c: Contract, now: int): Option<Validity> {
    var created, expires := seconds(c.createdAt), seconds(c.expiresAt);
    if created.None? || expires.None? then None
    else if created.value >= expires.value then Some(Expired)
    else if now < created.value - LEEWAY then Some(NotYetValid)
    else if now >= expires.value then Some(Expired)
    else Some(Valid)
  }

  /** Before the window, in it or after it; an empty or inverted window is always over. */
  lemma ValidityExactly(seconds: string -> Option<int>, c: Contract, now: int)
    ensures ValidityAt(seconds, c, now).None? <==> seconds(c.createdAt).None? || seconds(c.expiresAt).None?
    ensures seconds(c.createdAt).Some? && seconds(c.expiresAt).Some? ==>
      var opens, closes, r := seconds(c.createdAt).value - 5, seconds(c.expiresAt).value, ValidityAt(seconds, c, now);
      && (r == Some(Expired) <==> closes <= opens + 5 || closes <= now)
      && (r == Some(NotYetValid) <==> opens + 5 < closes && now < opens)
      && (r == Some(Valid) <==> opens + 5 < closes && opens <= now < closes)
  {
  }

  lemma IdentityRefusals(c: Contract, origin: Identity, local: Identity)
    ensures IdentityError(c, origin, local) == Some(RequesterMismatch) <==> c.requester != origin
    ensures IdentityError(c, origin, local) == Some(PerformerMismatch) <==>
      c.requester == origin && c.performer != local
  {
  }
}
