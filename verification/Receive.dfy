/** The receive path: split a Message into its contract envelope and worker inputs, verify the
    proposal, bind the inputs, and check trusted time. */
module Receive {
  import opened Json
  import opened Options
  import opened Crypto
  import opened Contracts
  import opened Lists
  import opened Manifest
  import Dsse
  import Jws
  import World

  /** The mappings this path calls: protobuf value to JSON, JSON to envelope, payload to contract,
      RFC 3339 to unix seconds. */
  datatype Intake = Intake(toJson: string -> Option<Json>, toEnvelope: Json -> Option<Dsse.Envelope>,
                           read: string -> Option<Contract>, seconds: string -> Option<int>)

  datatype Content = Text(text: string) | Data(value: string) | Raw | Url

  datatype Part = Part(mediaType: string, content: Option<Content>)

  const DSSE_MEDIA_TYPE := "application/vnd.akson-dev.dsse.v1+json"

  // ---- Extraction ----

  datatype ExtractError = MissingContractPart | MultipleContractParts | ContractPartNotData | MalformedEnvelope
    | UnsupportedPartKind(index: nat) | EmptyPart(index: nat) | NonJsonData(index: nat)

  datatype Extracted = Extracted(envelope: Dsse.Envelope, inputs: seq<InputPart>) | NotExtracted(error: ExtractError)

  predicate Control(p: Part) { p.mediaType == DSSE_MEDIA_TYPE }

  lemma ControlIsByMediaType(p: Part)
    ensures Control(p) <==> p.mediaType == "application/vnd.akson-dev.dsse.v1+json"
  {
  }

  function EnvelopeOf(intake: Intake, p: Part): Option<Dsse.Envelope>
    requires p.content.Some? && p.content.value.Data?
  {
    var json := intake.toJson(p.content.value.value);
    if json.None? then None else intake.toEnvelope(json.value)
  }

  /** The body of a worker input, when the Part can be one. */
  function BodyOf(intake: Intake, p: Part): Option<PartBody> {
    match p.content
    case None => None
    case Some(Text(t)) => Some(TextBody(t))
    case Some(Data(v)) => (match intake.toJson(v) case None => None case Some(json) => Some(DataBody(json)))
    case Some(Raw) => None
    case Some(Url) => None
  }

  /** A Part's index, cast to 32 bits. */
  function Cast(i: nat): nat { i % U32 }

  function InputAt(messageId: string, i: nat, p: Part, body: PartBody): InputPart {
    InputPart(messageId, Cast(i), p.mediaType, body)
  }

  function InputError(p: Part, i: nat): ExtractError {
    match p.content
    case None => EmptyPart(Cast(i))
    case Some(Data(_)) => NonJsonData(Cast(i))
    case Some(_) => UnsupportedPartKind(Cast(i))
  }

  /** A Part is an input exactly when it holds text, or data that is JSON; otherwise it is empty, data
      that is not JSON, or of a kind the worker cannot be given, and its index is named. */
  lemma InputExactly(intake: Intake, p: Part, i: nat)
    ensures BodyOf(intake, p).Some? <==>
      && p.content.Some?
      && (p.content.value.Text? || (p.content.value.Data? && intake.toJson(p.content.value.value).Some?))
    ensures p.content.Some? && p.content.value.Text? ==> BodyOf(intake, p) == Some(TextBody(p.content.value.text))
    ensures p.content.Some? && p.content.value.Data? && BodyOf(intake, p).Some? ==>
      BodyOf(intake, p) == Some(DataBody(intake.toJson(p.content.value.value).value))
    ensures InputError(p, i) == EmptyPart(i % 0x1_0000_0000) <==> p.content.None?
    ensures InputError(p, i) == NonJsonData(i % 0x1_0000_0000) <==> p.content.Some? && p.content.value.Data?
    ensures InputError(p, i) == UnsupportedPartKind(i % 0x1_0000_0000) <==>
      p.content.Some? && !p.content.value.Data?
  {
  }

  /** The loop from Part `i` on, with what it has gathered so far. */
  function ExtractFrom(intake: Intake, messageId: string, parts: seq<Part>, i: nat,
                       envelope: Option<Dsse.Envelope>, inputs: seq<InputPart>): Extracted
    requires i <= |parts|
    decreases |parts| - i
  {
    if i == |parts| then (if envelope.None? then NotExtracted(MissingContractPart)
      else Extracted(envelope.value, inputs))
    else
      var p := parts[i];
      if Control(p) then
        if p.content.None? || !p.content.value.Data? then NotExtracted(ContractPartNotData)
        else if envelope.Some? then NotExtracted(MultipleContractParts)
        else if EnvelopeOf(intake, p).None? then NotExtracted(MalformedEnvelope)
        else ExtractFrom(intake, messageId, parts, i + 1, EnvelopeOf(intake, p), inputs)
      else if BodyOf(intake, p).None? then NotExtracted(InputError(p, i))
      else ExtractFrom(intake, messageId, parts, i + 1, envelope,
        inputs + [InputAt(messageId, i, p, BodyOf(intake, p).value)])
  }

  function Extract(intake: Intake, messageId: string, parts: seq<Part>): Extracted {
    ExtractFrom(intake, messageId, parts, 0, None, [])
  }

  method ExtractProposal(intake: Intake, messageId: string, parts: seq<Part>) returns (r: Extracted)
    ensures r == Extract(intake, messageId, parts)
  {
    var envelope: Option<Dsse.Envelope> := None;
    var inputs: seq<InputPart> := [];
    for i := 0 to |parts|
      invariant ExtractFrom(intake, messageId, parts, i, envelope, inputs) == Extract(intake, messageId, parts)
    {
      var p := parts[i];
      if Control(p) {
        if p.content.None? || !p.content.value.Data? {
          return NotExtracted(ContractPartNotData);
        }
        if envelope.Some? {
          return NotExtracted(MultipleContractParts);
        }
        envelope := EnvelopeOf(intake, p);
        if envelope.None? {
          return NotExtracted(MalformedEnvelope);
        }
      } else {
        var body := BodyOf(intake, p);
        if body.None? {
          return NotExtracted(InputError(p, i));
        }
        inputs := inputs + [InputAt(messageId, i, p, body.value)];
      }
    }
    r := if envelope.None? then NotExtracted(MissingContractPart) else Extracted(envelope.value, inputs);
  }

  /** Where the input made from Part `i` stands among the inputs. */
  function Slot(control: nat, i: nat): nat
    requires i != control
  {
    if i < control then i else i - 1
  }

  /** The worker inputs of the Parts before `n`, skipping the control Part. */
  predicate Gathered(intake: Intake, messageId: string, parts: seq<Part>, n: nat, inputs: seq<InputPart>, control: nat)
    requires n <= |parts|
  {
    && |inputs| == (if control < n then n - 1 else n)
    && forall i :: 0 <= i < n && i != control ==>
         && !Control(parts[i]) && BodyOf(intake, parts[i]).Some?
         && inputs[Slot(control, i)] == InputAt(messageId, i, parts[i], BodyOf(intake, parts[i]).value)
  }

  /** Part `c` is a control Part carrying this envelope. */
  predicate ControlAt(intake: Intake, parts: seq<Part>, c: nat, envelope: Dsse.Envelope) {
    && c < |parts| && Control(parts[c]) && parts[c].content.Some? && parts[c].content.value.Data?
    && EnvelopeOf(intake, parts[c]) == Some(envelope)
  }

  lemma {:induction false} GatherRest(intake: Intake, messageId: string, parts: seq<Part>, n: nat,
                                      envelope: Option<Dsse.Envelope>, inputs: seq<InputPart>, control: nat)
      returns (c: nat)
    requires n <= |parts| && Gathered(intake, messageId, parts, n, inputs, control)
    requires if envelope.Some? then control < n && ControlAt(intake, parts, control, envelope.value)
      else control == |parts|
    requires ExtractFrom(intake, messageId, parts, n, envelope, inputs).Extracted?
    ensures ControlAt(intake, parts, c, ExtractFrom(intake, messageId, parts, n, envelope, inputs).envelope)
    ensures Gathered(intake, messageId, parts, |parts|,
      ExtractFrom(intake, messageId, parts, n, envelope, inputs).inputs, c)
    decreases |parts| - n
  {
    if n == |parts| {
      c := control;
    } else if Control(parts[n]) {
      c := GatherRest(intake, messageId, parts, n + 1, EnvelopeOf(intake, parts[n]), inputs, n);
    } else {
      c := GatherRest(intake, messageId, parts, n + 1, envelope,
                      inputs + [InputAt(messageId, n, parts[n], BodyOf(intake, parts[n]).value)], control);
    }
  }

  /** A Message that splits has exactly one control Part, whose envelope is extracted, and every other
      Part is an input, in order. */
  lemma OneControlPart(intake: Intake, messageId: string, parts: seq<Part>) returns (c: nat)
    requires Extract(intake, messageId, parts).Extracted?
    ensures ControlAt(intake, parts, c, Extract(intake, messageId, parts).envelope)
    ensures forall i :: 0 <= i < |parts| && Control(parts[i]) ==> i == c
    ensures Gathered(intake, messageId, parts, |parts|, Extract(intake, messageId, parts).inputs, c)
  {
    c := GatherRest(intake, messageId, parts, 0, None, [], |parts|);
  }

  /** Conversely, one readable control Part among readable inputs is all it takes to split. */
  lemma {:induction false} WholeMessagesSplit(intake: Intake, messageId: string, parts: seq<Part>, n: nat,
                                              envelope: Option<Dsse.Envelope>,
                                              inputs: seq<InputPart>, c: nat, found: Dsse.Envelope)
    requires n <= |parts| && ControlAt(intake, parts, c, found) && envelope == (if c < n then Some(found) else None)
    requires forall i :: 0 <= i < |parts| && i != c ==> !Control(parts[i]) && BodyOf(intake, parts[i]).Some?
    ensures ExtractFrom(intake, messageId, parts, n, envelope, inputs).Extracted?
    ensures ExtractFrom(intake, messageId, parts, n, envelope, inputs).envelope == found
    decreases |parts| - n
  {
    if n < |parts| {
      if n == c {
        WholeMessagesSplit(intake, messageId, parts, n + 1, Some(found), inputs, c, found);
      } else {
        WholeMessagesSplit(intake, messageId, parts, n + 1, envelope,
                           inputs + [InputAt(messageId, n, parts[n], BodyOf(intake, parts[n]).value)], c, found);
      }
    }
  }

  /** Splitting succeeds exactly on one readable control Part among readable inputs. */
  lemma SplitsExactly(intake: Intake, messageId: string, parts: seq<Part>)
    ensures Extract(intake, messageId, parts).Extracted? <==>
      exists c, e :: ControlAt(intake, parts, c, e) && forall i :: 0 <= i < |parts| && i != c ==>
        !Control(parts[i]) && BodyOf(intake, parts[i]).Some?
  {
    if Extract(intake, messageId, parts).Extracted? {
      var c := OneControlPart(intake, messageId, parts);
    }
    if c, e :| ControlAt(intake, parts, c, e) && forall i :: 0 <= i < |parts| && i != c ==>
      !Control(parts[i]) && BodyOf(intake, parts[i]).Some? {
      WholeMessagesSplit(intake, messageId, parts, 0, None, [], c, e);
    }
  }

  /** Every input carries its Part's own position. */
  predicate Positioned(inputs: seq<InputPart>, n: nat, control: nat) {
    forall i :: 0 <= i < n && i != control ==> Slot(control, i) < |inputs| && inputs[Slot(control, i)].partIndex == i
  }

  /** Input indices are the Parts' own positions exactly for Messages of at most 2^32 Parts, or one
      more when the control Part comes last; past that the 32-bit cast aliases them. */
  lemma PositionsAreExact(intake: Intake, messageId: string, parts: seq<Part>) returns (c: nat)
    requires Extract(intake, messageId, parts).Extracted?
    ensures c < |parts| && Control(parts[c])
    ensures Gathered(intake, messageId, parts, |parts|, Extract(intake, messageId, parts).inputs, c)
    ensures Positioned(Extract(intake, messageId, parts).inputs, |parts|, c) <==>
      |parts| <= U32 || (|parts| == U32 + 1 && c == U32)
  {
    c := OneControlPart(intake, messageId, parts);
    var inputs := Extract(intake, messageId, parts).inputs;
    if |parts| > U32 && !(|parts| == U32 + 1 && c == U32) {
      var i := if c == U32 then U32 + 1 else U32;
      assert inputs[Slot(c, i)] == InputAt(messageId, i, parts[i], BodyOf(intake, parts[i]).value);
    } else {
      assert forall i :: 0 <= i < |parts| && i != c ==> Cast(i) == i;
      assert forall i :: 0 <= i < |parts| && i != c ==> inputs[Slot(c, i)].partIndex == Cast(i);
    }
  }

  // ---- The composed path ----

  datatype ReceiveError = NoExtract(extract: ExtractError) | NoProposal(proposal: ProposalError)
    | NoBind(bind: BindError)
    | Late | Early | Timestamp

  datatype Received = Received(proposal: ParsedContract, inputs: seq<InputPart>) | Rejected(error: ReceiveError)

  /** What one call is given, apart from the time. */
  datatype Delivery = Delivery(messageId: string, parts: seq<Part>, key: PurposeVerifyingKey,
                               origin: Identity, local: Identity)

  function Split(intake: Intake, d: Delivery): Extracted { Extract(intake, d.messageId, d.parts) }

  /** Steps 1 to 4: everything that does not depend on the time. */
  function Inspect(lib: Lib, intake: Intake, d: Delivery): Received {
    var extracted := Split(intake, d);
    if extracted.NotExtracted? then Rejected(NoExtract(extracted.error))
    else Judge(lib, VerifyProposal(lib, intake.read, extracted.envelope, d.key), extracted.inputs, d.origin, d.local)
  }

  /** Identity and manifest checks on a verified proposal. */
  function Judge(lib: Lib, verified: ProposalResult, inputs: seq<InputPart>, origin: Identity,
                 local: Identity): Received {
    if verified.NotVerified? then Rejected(NoProposal(verified.error))
    else
      var c := verified.proposal.contract;
      if IdentityError(c, origin, local).Some? then Rejected(NoProposal(IdentityError(c, origin, local).value))
      else
        var bound := Bind(lib, c.inputs, inputs);
        if bound.Some? then Rejected(NoBind(bound.value)) else Received(verified.proposal, inputs)
  }

  function AtTime(intake: Intake, r: Received, now: int): Received {
    if r.Rejected? then r
    else
      match ValidityAt(intake.seconds, r.proposal.contract, now)
      case None => Rejected(Timestamp)
      case Some(Valid) => r
      case Some(Expired) => Rejected(Late)
      case Some(NotYetValid) => Rejected(Early)
  }

  function ReceiveProposal(lib: Lib, intake: Intake, d: Delivery, now: int): Received {
    AtTime(intake, Inspect(lib, intake, d), now)
  }

  /** A refusal carries the cause of the first step that fails: split, proposal, identities, binding, time. */
  lemma RefusedFor(lib: Lib, intake: Intake, d: Delivery, now: int)
    ensures Split(intake, d).NotExtracted? ==>
      ReceiveProposal(lib, intake, d, now) == Rejected(NoExtract(Split(intake, d).error))
    ensures Split(intake, d).Extracted? ==>
      var v := VerifyProposal(lib, intake.read, Split(intake, d).envelope, d.key);
      && (v.NotVerified? ==> ReceiveProposal(lib, intake, d, now) == Rejected(NoProposal(v.error)))
      && (v.Verified? ==>
            var who := IdentityError(v.proposal.contract, d.origin, d.local);
            var bound := Bind(lib, v.proposal.contract.inputs, Split(intake, d).inputs);
            && (who.Some? ==> ReceiveProposal(lib, intake, d, now) == Rejected(NoProposal(who.value)))
            && (who.None? && bound.Some? ==> ReceiveProposal(lib, intake, d, now) == Rejected(NoBind(bound.value))))
  {
  }

  lemma RefusedByTime(intake: Intake, r: Received, now: int)
    requires r.Received?
    ensures var v := ValidityAt(intake.seconds, r.proposal.contract, now);
      && (AtTime(intake, r, now) == Rejected(Timestamp) <==> v == None)
      && (AtTime(intake, r, now) == Rejected(Early) <==> v == Some(NotYetValid))
      && (AtTime(intake, r, now) == Rejected(Late) <==> v == Some(Expired))
  {
  }

  lemma JudgedExactly(lib: Lib, v: ProposalResult, inputs: seq<InputPart>, origin: Identity, local: Identity)
    ensures var r := Judge(lib, v, inputs, origin, local);
      && (r.Received? <==>
          && v.Verified? && v.proposal.contract.requester == origin && v.proposal.contract.performer == local
          && Bindable(lib, v.proposal.contract.inputs, inputs))
      && (r.Received? ==> r == Received(v.proposal, inputs))
  {
    if v.Verified? {
      BindsExactly(lib, v.proposal.contract.inputs, inputs);
    }
  }

  /** From five seconds before its creation until its expiry; never for an empty or inverted window. */
  predicate InWindow(seconds: string -> Option<int>, c: Contract, now: int) {
    var created, expires := seconds(c.createdAt), seconds(c.expiresAt);
    created.Some? && expires.Some? && created.value < expires.value && created.value - 5 <= now < expires.value
  }

  lemma Window(intake: Intake, r: Received, now: int)
    ensures AtTime(intake, r, now).Received? <==> r.Received? && InWindow(intake.seconds, r.proposal.contract, now)
    ensures AtTime(intake, r, now).Received? ==> AtTime(intake, r, now) == r
  {
  }

  lemma Lapse(intake: Intake, r: Received, now: int, later: int)
    requires AtTime(intake, r, now) == Rejected(Late) && now <= later
    ensures AtTime(intake, r, later) == Rejected(Late)
  {
  }

  /** A Message is accepted exactly when it splits, its proposal verifies, both parties are the right
      ones, its inputs bind, and the trusted time lies in the contract's window. */
  lemma ReceivesExactly(lib: Lib, intake: Intake, d: Delivery, now: int, p: ParsedContract, inputs: seq<InputPart>)
    ensures ReceiveProposal(lib, intake, d, now) == Received(p, inputs) <==>
      && Split(intake, d).Extracted? && Split(intake, d).inputs == inputs
      && VerifyProposal(lib, intake.read, Split(intake, d).envelope, d.key) == Verified(p)
      && p.contract.requester == d.origin && p.contract.performer == d.local
      && Bindable(lib, p.contract.inputs, inputs) && InWindow(intake.seconds, p.contract, now)
  {
    var x := Split(intake, d);
    if x.Extracted? {
      JudgedExactly(lib, VerifyProposal(lib, intake.read, x.envelope, d.key), x.inputs, d.origin, d.local);
    }
    Window(intake, Inspect(lib, intake, d), now);
  }

  /** The times a Message is accepted at are exactly the half-open window of its contract, opened five
      seconds early; an empty or inverted window has none. */
  lemma AcceptanceWindow(lib: Lib, intake: Intake, d: Delivery, now: int)
    ensures var r := Inspect(lib, intake, d);
      ReceiveProposal(lib, intake, d, now).Received? <==>
      r.Received? && InWindow(intake.seconds, r.proposal.contract, now)
  {
    Window(intake, Inspect(lib, intake, d), now);
  }

  /** Once expired, no later time revives a contract. */
  lemma ExpiryIsFinal(lib: Lib, intake: Intake, d: Delivery, now: int, later: int)
    requires ReceiveProposal(lib, intake, d, now) == Rejected(Late) && now <= later
    ensures ReceiveProposal(lib, intake, d, later) == Rejected(Late)
  {
    Lapse(intake, Inspect(lib, intake, d), now, later);
  }

  /** Entries are tied to the Message, the contract's own message id is not: two Messages with the
      same inputs whose proposals verify to contracts that differ in nothing but that id, hence in
      payload and digest, are accepted at the same times. */
  lemma ContractMessageIdIsNotCompared(lib: Lib, intake: Intake, d: Delivery, e: Delivery, p: ParsedContract,
                                       q: ParsedContract, now: int)
    requires e == d.(parts := e.parts) && Split(intake, d).Extracted? && Split(intake, e).Extracted?
    requires Split(intake, e).inputs == Split(intake, d).inputs
    requires VerifyProposal(lib, intake.read, Split(intake, d).envelope, d.key) == Verified(p)
    requires VerifyProposal(lib, intake.read, Split(intake, e).envelope, e.key) == Verified(q)
    requires q.contract == p.contract.(messageId := q.contract.messageId)
    ensures ReceiveProposal(lib, intake, d, now).Received? <==> ReceiveProposal(lib, intake, e, now).Received?
  {
    SameVerdict(lib, intake, p, q, Split(intake, d).inputs, d.origin, d.local, now);
  }

  lemma SameVerdict(lib: Lib, intake: Intake, p: ParsedContract, q: ParsedContract, inputs: seq<InputPart>,
                    origin: Identity, local: Identity, now: int)
    requires q.contract == p.contract.(messageId := q.contract.messageId)
    ensures AtTime(intake, Judge(lib, Verified(p), inputs, origin, local), now).Received? <==>
      AtTime(intake, Judge(lib, Verified(q), inputs, origin, local), now).Received?
  {
  }

  lemma InspectMeans(lib: Lib, intake: Intake, d: Delivery)
    requires Inspect(lib, intake, d).Received?
    ensures Split(intake, d).Extracted?
    ensures var r := Inspect(lib, intake, d);
      && r.inputs == Split(intake, d).inputs && Bind(lib, r.proposal.contract.inputs, r.inputs).None?
      && VerifyProposal(lib, intake.read, Split(intake, d).envelope, d.key) == Verified(r.proposal)
  {
  }

  // ---- What an accepted Message looks like ----

  /** Entry `e` names the Part at its own index, and that Part's content is what `e` says it is. */
  predicate Names(lib: Lib, intake: Intake, messageId: string, parts: seq<Part>, control: nat, e: InputEntry) {
    && e.messageId == messageId && e.partIndex < |parts| && e.partIndex != control
    && var p := parts[e.partIndex];
      && BodyOf(intake, p).Some? && e.mediaType == p.mediaType
      && e.kind.TextKind? == BodyOf(intake, p).value.TextBody?
      && |CanonicalBytes(BodyOf(intake, p).value)| == e.byteLength
      && lib.sha(CanonicalBytes(BodyOf(intake, p).value)) == e.sha256
  }

  /** Distinct coordinates make distinct casts. */
  lemma CastsDiffer(intake: Intake, messageId: string, parts: seq<Part>, c: nat, inputs: seq<InputPart>, i: nat, j: nat)
    requires c < |parts| && Gathered(intake, messageId, parts, |parts|, inputs, c) && DistinctBy(PartAt, inputs)
    requires i < j < |parts| && i != c && j != c
    ensures Cast(i) != Cast(j)
  {
    var x, y := Slot(c, i), Slot(c, j);
    assert x < y < |inputs|;
    assert inputs[x] == InputAt(messageId, i, parts[i], BodyOf(intake, parts[i]).value);
    assert inputs[y] == InputAt(messageId, j, parts[j], BodyOf(intake, parts[j]).value);
    assert PartAt(inputs[x]) != PartAt(inputs[y]);
  }

  /** So a Message that binds has at most one Part more than there are indices, and then the envelope
      is its first or its last. */
  lemma IndicesSuffice(intake: Intake, messageId: string, parts: seq<Part>, c: nat, inputs: seq<InputPart>)
    requires c < |parts| && Gathered(intake, messageId, parts, |parts|, inputs, c) && DistinctBy(PartAt, inputs)
    ensures |parts| <= U32 + 1
    ensures |parts| == U32 + 1 ==> c == 0 || c == U32
  {
    if |parts| > U32 && c != 0 && c != U32 {
      CastsDiffer(intake, messageId, parts, c, inputs, 0, U32);
    } else if |parts| > U32 + 1 {
      CastsDiffer(intake, messageId, parts, c, inputs, 1, U32 + 1);
    }
  }

  /** The input an entry is bound to, and the position of its Part. */
  lemma PositionOf(lib: Lib, intake: Intake, messageId: string, parts: seq<Part>, c: nat, entries: seq<InputEntry>,
                   inputs: seq<InputPart>, e: InputEntry) returns (i: nat)
    requires c < |parts| && Gathered(intake, messageId, parts, |parts|, inputs, c)
    requires Bindable(lib, entries, inputs) && e in entries
    ensures i < |parts| && i != c && e.partIndex == Cast(i)
    ensures e.partIndex == i ==> Names(lib, intake, messageId, parts, c, e)
  {
    var k :| 0 <= k < |entries| && entries[k] == e;
    assert EntryAt(e) in KeysOf(EntryAt, entries);
    var j :| 0 <= j < |inputs| && PartAt(inputs[j]) == EntryAt(e);
    i := if j < c then j else j + 1;
    assert Slot(c, i) == j && inputs[j] == InputAt(messageId, i, parts[i], BodyOf(intake, parts[i]).value);
    assert inputs[j] in inputs && Agree(lib, e, inputs[j]);
  }

  /** Every Part but the envelope has an entry that carries its cast index. */
  lemma EntryFor(lib: Lib, intake: Intake, messageId: string, parts: seq<Part>, c: nat, entries: seq<InputEntry>,
                 inputs: seq<InputPart>, i: nat) returns (e: InputEntry)
    requires c < |parts| && Gathered(intake, messageId, parts, |parts|, inputs, c)
    requires Bindable(lib, entries, inputs) && i < |parts| && i != c
    ensures e in entries && EntryAt(e) == Coords(messageId, Cast(i))
  {
    var j := Slot(c, i);
    assert inputs[j] == InputAt(messageId, i, parts[i], BodyOf(intake, parts[i]).value);
    assert PartAt(inputs[j]) in KeysOf(PartAt, inputs);
    var k :| 0 <= k < |entries| && EntryAt(entries[k]) == PartAt(inputs[j]);
    e := entries[k];
  }

  /** Every entry names its own Part, save in the one Message shape where an index wraps. */
  predicate Wraps(parts: seq<Part>, c: nat) { |parts| == U32 + 1 && c == 0 }

  lemma EntriesNameParts(lib: Lib, intake: Intake, messageId: string, parts: seq<Part>, c: nat,
                         entries: seq<InputEntry>, inputs: seq<InputPart>)
    requires c < |parts| && Gathered(intake, messageId, parts, |parts|, inputs, c)
    requires Bind(lib, entries, inputs).None?
    ensures |parts| == |entries| + 1 && |parts| <= U32 + 1 && DistinctBy(EntryAt, entries)
    ensures (forall e :: e in entries ==> Names(lib, intake, messageId, parts, c, e)) <==> !Wraps(parts, c)
    ensures Wraps(parts, c) ==> exists e :: e in entries && EntryAt(e) == Coords(messageId, c)
  {
    BindsExactly(lib, entries, inputs);
    DistinctKeysCount(EntryAt, entries);
    DistinctKeysCount(PartAt, inputs);
    IndicesSuffice(intake, messageId, parts, c, inputs);
    if Wraps(parts, c) {
      var e := EntryFor(lib, intake, messageId, parts, c, entries, inputs, U32);
      assert !Names(lib, intake, messageId, parts, c, e);
    } else {
      forall e | e in entries ensures Names(lib, intake, messageId, parts, c, e) {
        var i := PositionOf(lib, intake, messageId, parts, c, entries, inputs, e);
      }
    }
  }

  /** End to end: an accepted Message has at most 2^32 + 1 Parts, exactly one of them the envelope, and
      one entry for every other. Every entry names, in this Message, the very Part whose bytes it
      digests, except exactly when there are 2^32 + 1 Parts and the envelope is the first: then an
      entry points at the envelope. */
  lemma ReceivedIsWhole(lib: Lib, intake: Intake, d: Delivery, now: int) returns (c: nat)
    requires ReceiveProposal(lib, intake, d, now).Received?
    ensures c < |d.parts| <= U32 + 1 && Control(d.parts[c])
    ensures forall i :: 0 <= i < |d.parts| && Control(d.parts[i]) ==> i == c
    ensures var entries := ReceiveProposal(lib, intake, d, now).proposal.contract.inputs;
      && |d.parts| == |entries| + 1 && DistinctBy(EntryAt, entries)
      && ((forall e :: e in entries ==> Names(lib, intake, d.messageId, d.parts, c, e)) <==> !Wraps(d.parts, c))
      && (Wraps(d.parts, c) ==> exists e :: e in entries && EntryAt(e) == Coords(d.messageId, c))
  {
    var r := Inspect(lib, intake, d);
    Window(intake, r, now);
    InspectMeans(lib, intake, d);
    c := OneControlPart(intake, d.messageId, d.parts);
    EntriesNameParts(lib, intake, d.messageId, d.parts, c, r.proposal.contract.inputs, r.inputs);
  }

  lemma BoundedIndicesBoundParts(lib: Lib, intake: Intake, messageId: string, parts: seq<Part>, c: nat,
                                 entries: seq<InputEntry>, inputs: seq<InputPart>, bound: nat)
    requires c < |parts| && Gathered(intake, messageId, parts, |parts|, inputs, c)
    requires Bind(lib, entries, inputs).None?
    requires bound + 2 < U32 && forall e :: e in entries ==> e.partIndex <= bound
    ensures |parts| <= bound + 2
  {
    if |parts| > bound + 2 {
      BindsExactly(lib, entries, inputs);
      var i := if c == bound + 1 then bound + 2 else bound + 1;
      var e := EntryFor(lib, intake, messageId, parts, c, entries, inputs, i);
      assert false;
    }
  }

  /** A contract schema that caps the declared indices rules the exception out: then every entry names
      its Part, and the Message has no more Parts than the cap allows. */
  lemma CappedIndicesNeverWrap(lib: Lib, intake: Intake, d: Delivery, now: int, bound: nat) returns (c: nat)
    requires ReceiveProposal(lib, intake, d, now).Received? && bound + 2 < U32
    requires forall e :: e in ReceiveProposal(lib, intake, d, now).proposal.contract.inputs ==> e.partIndex <= bound
    ensures c < |d.parts| <= bound + 2 && Control(d.parts[c])
    ensures forall e :: e in ReceiveProposal(lib, intake, d, now).proposal.contract.inputs ==>
      Names(lib, intake, d.messageId, d.parts, c, e)
  {
    var r := Inspect(lib, intake, d);
    Window(intake, r, now);
    InspectMeans(lib, intake, d);
    c := OneControlPart(intake, d.messageId, d.parts);
    EntriesNameParts(lib, intake, d.messageId, d.parts, c, r.proposal.contract.inputs, r.inputs);
    BoundedIndicesBoundParts(lib, intake, d.messageId, d.parts, c, r.proposal.contract.inputs, r.inputs, bound);
  }

  // ---- The approval surface ----

  datatype ExposedInput = ExposedInput(id: string, mediaType: string, byteLength: nat, workerVisible: bool,
                                       processorVisible: bool)

  datatype RiskCard = RiskCard(requester: Identity, revision: nat, revisionDigest: string, inputs: seq<ExposedInput>)

  function Exposed(e: InputEntry): ExposedInput {
    ExposedInput(e.id, e.mediaType, e.byteLength, e.workerVisible, e.processorVisible)
  }

  function ProjectRiskCard(p: ParsedContract): RiskCard {
    var entries := p.contract.inputs;
    RiskCard(p.contract.requester, p.contract.revision, p.digest,
             seq(|entries|, i requires 0 <= i < |entries| => Exposed(entries[i])))
  }

  /** The card shows requester, revision and digest, and every entry's id, media type, length and
      visibility, in the order signed. */
  lemma CardShows(p: ParsedContract, i: nat)
    requires i < |p.contract.inputs|
    ensures var card, e := ProjectRiskCard(p), p.contract.inputs[i];
      && card.requester == p.contract.requester && card.revision == p.contract.revision
      && card.revisionDigest == p.digest && |card.inputs| == |p.contract.inputs|
      && card.inputs[i].id == e.id && card.inputs[i].mediaType == e.mediaType
      && card.inputs[i].byteLength == e.byteLength
      && card.inputs[i].workerVisible == e.workerVisible && card.inputs[i].processorVisible == e.processorVisible
  {
  }

  function ShownBytes(x: ExposedInput): nat { x.byteLength }

  /** What summing in 64 bits leaves of a total. */
  function ShownTotal(card: RiskCard): nat { Sum(ShownBytes, card.inputs) % U64 }

  /** The total the card shows. */
  method TotalBytes(card: RiskCard) returns (total: nat)
    ensures total == ShownTotal(card)
  {
    total := 0;
    for i := 0 to |card.inputs|
      invariant total == Sum(ShownBytes, card.inputs[..i]) % U64
    {
      SumSnoc(ShownBytes, card.inputs, i);
      total := (total + card.inputs[i].byteLength) % U64;
    }
    assert card.inputs[..|card.inputs|] == card.inputs;
  }

  lemma {:induction false} ProjectionKeepsBytes(entries: seq<InputEntry>, shown: seq<ExposedInput>)
    requires |shown| == |entries| && forall i :: 0 <= i < |entries| ==> shown[i] == Exposed(entries[i])
    ensures Sum(ShownBytes, shown) == Sum(DeclaredBytes, entries)
  {
    if |entries| > 0 {
      ProjectionKeepsBytes(entries[1..], shown[1..]);
    }
  }

  /** The card's total is `supplied` exactly when that fits in 64 bits, and then no partial sum overflows. */
  predicate ShowsTotal(card: RiskCard, supplied: nat) {
    && (ShownTotal(card) == supplied <==> supplied < U64)
    && (supplied < U64 ==> forall i :: 0 <= i <= |card.inputs| ==> Sum(ShownBytes, card.inputs[..i]) < U64)
  }

  lemma CardBytes(lib: Lib, p: ParsedContract, inputs: seq<InputPart>)
    requires Bind(lib, p.contract.inputs, inputs).None?
    ensures ShowsTotal(ProjectRiskCard(p), Sum(SuppliedBytes, inputs))
  {
    BytesAreConserved(lib, p.contract.inputs, inputs);
    ProjectionKeepsBytes(p.contract.inputs, ProjectRiskCard(p).inputs);
    SumIsShown(ProjectRiskCard(p), Sum(SuppliedBytes, inputs));
  }

  lemma SumIsShown(card: RiskCard, supplied: nat)
    requires Sum(ShownBytes, card.inputs) == supplied
    ensures ShowsTotal(card, supplied)
  {
    forall i | 0 <= i <= |card.inputs| ensures Sum(ShownBytes, card.inputs[..i]) <= supplied {
      SumSplits(ShownBytes, card.inputs, i);
    }
  }

  /** The total the operator is shown for a received proposal is the number of canonical bytes of the
      Parts supplied, exactly when that number fits in 64 bits. */
  lemma CardShowsWhatWasSupplied(lib: Lib, intake: Intake, d: Delivery, now: int)
    requires ReceiveProposal(lib, intake, d, now).Received?
    ensures var r := ReceiveProposal(lib, intake, d, now);
      ShowsTotal(ProjectRiskCard(r.proposal), Sum(SuppliedBytes, r.inputs))
  {
    var r := Inspect(lib, intake, d);
    Window(intake, r, now);
    InspectMeans(lib, intake, d);
    CardBytes(lib, r.proposal, r.inputs);
  }

  // ---- On every run ----

  lemma ProposalWasSigned(lib: Lib, read: string -> Option<Contract>, honest: Key -> bool, steps: seq<World.Step>,
                          envelope: Dsse.Envelope, key: PurposeVerifyingKey, p: ParsedContract) returns (i: nat)
    requires Jws.Base64Url(lib.urlSafeNoPad) && World.Allowed(honest, steps) && honest(key.key)
    requires VerifyProposal(lib, read, envelope, key) == Verified(p)
    requires World.EnvelopeDelivered(lib, World.Run(lib, steps), envelope)
    ensures i < |World.Run(lib, steps).ops|
    ensures World.Run(lib, steps).ops[i] == World.SignEnvelope(key.key, PROPOSAL_TYPE, p.payload)
  {
    i := World.EnvelopeAgrees(lib, honest, steps, envelope, PROPOSAL_TYPE, key.key);
  }

  /** An accepted Message's proposal was signed by the holder of the pinned key, byte for byte. */
  lemma ReceivedWasProposed(lib: Lib, intake: Intake, honest: Key -> bool, steps: seq<World.Step>, d: Delivery,
                            now: int) returns (i: nat)
    requires Jws.Base64Url(lib.urlSafeNoPad) && World.Allowed(honest, steps) && honest(d.key.key)
    requires ReceiveProposal(lib, intake, d, now).Received? && Split(intake, d).Extracted?
    requires World.EnvelopeDelivered(lib, World.Run(lib, steps), Split(intake, d).envelope)
    ensures var payload := ReceiveProposal(lib, intake, d, now).proposal.payload;
      && i < |World.Run(lib, steps).ops|
      && World.Run(lib, steps).ops[i] == World.SignEnvelope(d.key.key, PROPOSAL_TYPE, payload)
  {
    var r := Inspect(lib, intake, d);
    Window(intake, r, now);
    InspectMeans(lib, intake, d);
    i := ProposalWasSigned(lib, intake.read, honest, steps, Split(intake, d).envelope, d.key, r.proposal);
  }
}
