/** The result manifest: every array in its normative order, one canonical text, one bundle digest. */
module ResultManifest {
  import opened Json
  import opened Ordering
  import opened Options
  import opened Crypto
  import Dsse
  import Jws
  import World

  datatype Header = Header(taskId: string, contextId: string, contractId: string, contractRevision: nat,
                           contractDigest: string, attemptDigest: string, receiptDigest: string)

  datatype Output = Output(role: string, artifactId: string, partIndex: nat, mediaType: string, byteLength: nat,
                           sha256: string)

  datatype Evidence = Evidence(role: string, payloadType: string, byteLength: nat, sha256: string, signerKeyid: string)

  datatype SlotResult = Passed | Failed | Error | NotRun | Unavailable

  datatype Disclosure = Full | Summary | Redacted

  datatype Slot = Slot(slotId: string, evidenceRole: Option<string>, result: SlotResult, disclosure: Disclosure)

  datatype Omission = Omission(subject: string, reasonCode: string)

  datatype Manifest = Manifest(schemaVersion: nat, header: Header, outputs: seq<Output>, evidence: seq<Evidence>,
                               slots: seq<Slot>, omissions: seq<Omission>)

  // ---- Normative order ----

  function OutputKey(o: Output): seq<Atom> { [Text(o.role), Text(o.artifactId), Number(o.partIndex), Text(o.sha256)] }

  function EvidenceKey(e: Evidence): seq<Atom> { [Text(e.role), Text(e.payloadType), Text(e.sha256)] }

  function SlotKey(s: Slot): seq<Atom> { [Text(s.slotId)] }

  function OmissionKey(o: Omission): seq<Atom> { [Text(o.subject), Text(o.reasonCode)] }

  /** `s` before `t`, or equal and `next`. */
  predicate Then(s: string, t: string, next: bool) { StringLess(s, t) || (s == t && next) }

  /** Outputs go by role, artifact, Part index and digest. */
  lemma OutputOrder(x: Output, y: Output)
    ensures Ordered(OutputKey, [x, y]) <==>
      Then(x.role, y.role, Then(x.artifactId, y.artifactId,
        x.partIndex < y.partIndex || (x.partIndex == y.partIndex && Then(x.sha256, y.sha256, true))))
  {
    StringOrder();
    PairIsOrdered(OutputKey, x, y);
    LessFour(AtomLess, OutputKey(y), OutputKey(x));
  }

  /** Evidence goes by role, payload type and digest. */
  lemma EvidenceOrder(x: Evidence, y: Evidence)
    ensures Ordered(EvidenceKey, [x, y]) <==>
      Then(x.role, y.role, Then(x.payloadType, y.payloadType, Then(x.sha256, y.sha256, true)))
  {
    StringOrder();
    PairIsOrdered(EvidenceKey, x, y);
    LessThree(AtomLess, EvidenceKey(y), EvidenceKey(x));
  }

  /** Slots go by id. */
  lemma SlotOrder(x: Slot, y: Slot)
    ensures Ordered(SlotKey, [x, y]) <==> Then(x.slotId, y.slotId, true)
  {
    StringOrder();
    PairIsOrdered(SlotKey, x, y);
    LessOne(AtomLess, SlotKey(y), SlotKey(x));
  }

  /** Omissions go by subject and reason. */
  lemma OmissionOrder(x: Omission, y: Omission)
    ensures Ordered(OmissionKey, [x, y]) <==> Then(x.subject, y.subject, Then(x.reasonCode, y.reasonCode, true))
  {
    StringOrder();
    PairIsOrdered(OmissionKey, x, y);
    LessTwo(AtomLess, OmissionKey(y), OmissionKey(x));
  }

  function Assemble(h: Header, outputs: seq<Output>, evidence: seq<Evidence>, slots: seq<Slot>,
                    omissions: seq<Omission>): Manifest {
    Manifest(1, h, SortBy(OutputKey, outputs), SortBy(EvidenceKey, evidence), SortBy(SlotKey, slots),
      SortBy(OmissionKey, omissions))
  }

  predicate CanonicallyOrdered(m: Manifest) {
    && Ordered(OutputKey, m.outputs) && Ordered(EvidenceKey, m.evidence)
    && Ordered(SlotKey, m.slots) && Ordered(OmissionKey, m.omissions)
  }

  /** The two manifests list the same things, in some order. */
  predicate SameContents(m: Manifest, n: Manifest) {
    && m.schemaVersion == n.schemaVersion && m.header == n.header
    && multiset(m.outputs) == multiset(n.outputs) && multiset(m.evidence) == multiset(n.evidence)
    && multiset(m.slots) == multiset(n.slots) && multiset(m.omissions) == multiset(n.omissions)
  }

  /** Within each array, equal sort keys mean equal entries. */
  ghost predicate KeysDetermineEntries(m: Manifest) {
    && KeyDetermines(OutputKey, m.outputs) && KeyDetermines(EvidenceKey, m.evidence)
    && KeyDetermines(SlotKey, m.slots) && KeyDetermines(OmissionKey, m.omissions)
  }

  function Reassemble(m: Manifest): Manifest { Assemble(m.header, m.outputs, m.evidence, m.slots, m.omissions) }

  /** Assembly permutes and orders every array. */
  lemma AssemblyOrders(m: Manifest)
    requires m.schemaVersion == 1
    ensures CanonicallyOrdered(Reassemble(m)) && SameContents(Reassemble(m), m)
  {
    SortByOrders(OutputKey, m.outputs);
    SortByOrders(EvidenceKey, m.evidence);
    SortByOrders(SlotKey, m.slots);
    SortByOrders(OmissionKey, m.omissions);
  }

  /** When keys determine entries, the ordering check accepts exactly one arrangement: the assembled one. */
  lemma AssemblyIsTheOnlyOrder(m: Manifest, n: Manifest)
    requires m.schemaVersion == 1 && SameContents(n, m) && KeysDetermineEntries(n)
    ensures CanonicallyOrdered(n) <==> n == Reassemble(m)
  {
    AssemblyOrders(m);
    var r := Reassemble(m);
    if CanonicallyOrdered(n) {
      OrderedIsUnique(OutputKey, n.outputs, r.outputs);
      OrderedIsUnique(EvidenceKey, n.evidence, r.evidence);
      OrderedIsUnique(SlotKey, n.slots, r.slots);
      OrderedIsUnique(OmissionKey, n.omissions, r.omissions);
    }
  }

  /** The same inputs in any order yield the same manifest. */
  ghost predicate Blind(m: Manifest) {
    forall n :: SameContents(n, m) ==> Reassemble(n) == Reassemble(m)
  }

  lemma DeterminedIsBlind(m: Manifest, n: Manifest)
    requires KeysDetermineEntries(m) && SameContents(n, m)
    ensures Reassemble(n) == Reassemble(m)
  {
    SortBlind(OutputKey, m.outputs, n.outputs);
    SortBlind(EvidenceKey, m.evidence, n.evidence);
    SortBlind(SlotKey, m.slots, n.slots);
    SortBlind(OmissionKey, m.omissions, n.omissions);
  }

  lemma OutputsAreDetermined(m: Manifest)
    requires Blind(m)
    ensures KeyDetermines(OutputKey, m.outputs)
  {
    SortBlindIffKeyDetermines(OutputKey, m.outputs);
    forall t | multiset(t) == multiset(m.outputs) ensures SortBy(OutputKey, t) == SortBy(OutputKey, m.outputs) {
      var n := m.(outputs := t);
      assert SameContents(n, m);
      assert Reassemble(n) == Reassemble(m);
    }
  }

  lemma EvidenceIsDetermined(m: Manifest)
    requires Blind(m)
    ensures KeyDetermines(EvidenceKey, m.evidence)
  {
    SortBlindIffKeyDetermines(EvidenceKey, m.evidence);
    forall t | multiset(t) == multiset(m.evidence) ensures SortBy(EvidenceKey, t) == SortBy(EvidenceKey, m.evidence) {
      var n := m.(evidence := t);
      assert SameContents(n, m);
      assert Reassemble(n) == Reassemble(m);
    }
  }

  lemma SlotsAreDetermined(m: Manifest)
    requires Blind(m)
    ensures KeyDetermines(SlotKey, m.slots)
  {
    SortBlindIffKeyDetermines(SlotKey, m.slots);
    forall t | multiset(t) == multiset(m.slots) ensures SortBy(SlotKey, t) == SortBy(SlotKey, m.slots) {
      var n := m.(slots := t);
      assert SameContents(n, m);
      assert Reassemble(n) == Reassemble(m);
    }
  }

  /** An omission is nothing but its key. */
  lemma OmissionsAreDetermined(s: seq<Omission>)
    ensures KeyDetermines(OmissionKey, s)
  {
    forall x, y | OmissionKey(x) == OmissionKey(y) ensures x == y {
      assert OmissionKey(x)[0] == OmissionKey(y)[0] && OmissionKey(x)[1] == OmissionKey(y)[1];
    }
  }

  /** The promise of order independence holds exactly when, in every array, equal sort keys mean equal
      entries. */
  lemma AssemblyIsBlindExactly(m: Manifest)
    ensures Blind(m) <==> KeysDetermineEntries(m)
  {
    if KeysDetermineEntries(m) {
      forall n | SameContents(n, m) ensures Reassemble(n) == Reassemble(m) {
        DeterminedIsBlind(m, n);
      }
    }
    if Blind(m) {
      OutputsAreDetermined(m);
      EvidenceIsDetermined(m);
      SlotsAreDetermined(m);
      OmissionsAreDetermined(m.omissions);
    }
  }

  /** Two outputs that differ only in media type keep the order they were given in. */
  lemma MediaTypeIsNotInTheKey(h: Header)
    ensures var x, y := Output("r", "a", 0, "text/plain", 1, "d"), Output("r", "a", 0, "text/html", 1, "d");
      Assemble(h, [x, y], [], [], []) != Assemble(h, [y, x], [], [], [])
  {
    var x, y := Output("r", "a", 0, "text/plain", 1, "d"), Output("r", "a", 0, "text/html", 1, "d");
    KeyOrder();
    PairStays(x, y);
    PairStays(y, x);
    assert x.mediaType != y.mediaType;
  }

  lemma PairStays(x: Output, y: Output)
    requires OutputKey(x) == OutputKey(y)
    ensures SortBy(OutputKey, [x, y]) == [x, y]
  {
    KeyOrder();
    assert [x, y][1..] == [y] && [y][1..] == [];
    assert SortBy(OutputKey, [y]) == Insert(OutputKey, y, []) == [y];
  }

  // ---- The manifest as JSON ----

  function OutputJson(o: Output): (v: Json)
    ensures WellFormed(v)
  {
    Obj(map["role" := Str(o.role), "artifact_id" := Str(o.artifactId), "part_index" := Int(o.partIndex),
            "media_type" := Str(o.mediaType), "byte_length" := Int(o.byteLength), "sha256" := Str(o.sha256)])
  }

  function EvidenceJson(e: Evidence): (v: Json)
    ensures WellFormed(v)
  {
    Obj(map["role" := Str(e.role), "payload_type" := Str(e.payloadType), "byte_length" := Int(e.byteLength),
            "sha256" := Str(e.sha256), "signer_keyid" := Str(e.signerKeyid)])
  }

  function ResultName(r: SlotResult): string {
    match r
    case Passed => "passed" case Failed => "failed" case Error => "error"
    case NotRun => "not_run" case Unavailable => "unavailable"
  }

  function DisclosureName(d: Disclosure): string {
    match d case Full => "full" case Summary => "summary" case Redacted => "redacted"
  }

  /** An absent evidence role is an absent member. */
  function SlotJson(s: Slot): (v: Json)
    ensures WellFormed(v)
  {
    var base := map["slot_id" := Str(s.slotId), "result" := Str(ResultName(s.result)),
      "disclosure" := Str(DisclosureName(s.disclosure))];
    Obj(if s.evidenceRole.None? then base else base["evidence_role" := Str(s.evidenceRole.value)])
  }

  /** The spellings on the wire. */
  lemma SlotWords(s: Slot)
    ensures Get(SlotJson(s), "result") == Str(
      if s.result.Passed? then "passed" else if s.result.Failed? then "failed" else if s.result.Error? then "error"
      else if s.result.NotRun? then "not_run" else "unavailable")
    ensures Get(SlotJson(s), "disclosure") == Str(
      if s.disclosure.Full? then "full" else if s.disclosure.Summary? then "summary" else "redacted")
  {
  }

  function OmissionJson(o: Omission): (v: Json)
    ensures WellFormed(v)
  {
    Obj(map["subject" := Str(o.subject), "reason_code" := Str(o.reasonCode)])
  }

  function ManifestJson(m: Manifest): Json {
    Obj(map["schema_version" := Int(m.schemaVersion), "task_id" := Str(m.header.taskId),
            "context_id" := Str(m.header.contextId), "contract_id" := Str(m.header.contractId),
            "contract_revision" := Int(m.header.contractRevision), "contract_digest" := Str(m.header.contractDigest),
            "attempt_digest" := Str(m.header.attemptDigest), "work_order_receipt_digest" := Str(m.header.receiptDigest),
            "outputs" := ArrayOf(m.outputs, OutputJson), "evidence" := ArrayOf(m.evidence, EvidenceJson),
            "slots" := ArrayOf(m.slots, SlotJson), "omissions" := ArrayOf(m.omissions, OmissionJson)])
  }

  lemma ManifestJsonIsWellFormed(m: Manifest)
    ensures WellFormed(ManifestJson(m))
  {
    ArrayOfIsWellFormed(m.outputs, OutputJson);
    ArrayOfIsWellFormed(m.evidence, EvidenceJson);
    ArrayOfIsWellFormed(m.slots, SlotJson);
    ArrayOfIsWellFormed(m.omissions, OmissionJson);
  }

  lemma OutputFields(o: Output)
    ensures Get(OutputJson(o), "role") == Str(o.role) && Get(OutputJson(o), "artifact_id") == Str(o.artifactId)
    ensures Get(OutputJson(o), "part_index") == Int(o.partIndex) && Get(OutputJson(o), "media_type") == Str(o.mediaType)
    ensures Get(OutputJson(o), "byte_length") == Int(o.byteLength) && Get(OutputJson(o), "sha256") == Str(o.sha256)
  {
  }

  lemma OutputJsonIsInjective(x: Output, y: Output)
    ensures OutputJson(x) == OutputJson(y) ==> x == y
  {
    if OutputJson(x) == OutputJson(y) {
      OutputFields(x);
      OutputFields(y);
      IntIsInjective(x.partIndex, y.partIndex);
      IntIsInjective(x.byteLength, y.byteLength);
    }
  }

  lemma EvidenceFields(e: Evidence)
    ensures Get(EvidenceJson(e), "role") == Str(e.role) && Get(EvidenceJson(e), "payload_type") == Str(e.payloadType)
    ensures Get(EvidenceJson(e), "byte_length") == Int(e.byteLength) && Get(EvidenceJson(e), "sha256") == Str(e.sha256)
    ensures Get(EvidenceJson(e), "signer_keyid") == Str(e.signerKeyid)
  {
  }

  lemma EvidenceJsonIsInjective(x: Evidence, y: Evidence)
    ensures EvidenceJson(x) == EvidenceJson(y) ==> x == y
  {
    if EvidenceJson(x) == EvidenceJson(y) {
      EvidenceFields(x);
      EvidenceFields(y);
      IntIsInjective(x.byteLength, y.byteLength);
    }
  }

  lemma NamesAreInjective(r: SlotResult, s: SlotResult, c: Disclosure, d: Disclosure)
    ensures ResultName(r) == ResultName(s) ==> r == s
    ensures DisclosureName(c) == DisclosureName(d) ==> c == d
  {
  }

  lemma SlotFields(s: Slot)
    ensures Get(SlotJson(s), "slot_id") == Str(s.slotId) && Get(SlotJson(s), "result") == Str(ResultName(s.result))
    ensures Get(SlotJson(s), "disclosure") == Str(DisclosureName(s.disclosure))
    ensures Get(SlotJson(s), "evidence_role") == if s.evidenceRole.None? then Null else Str(s.evidenceRole.value)
  {
  }

  lemma SlotJsonIsInjective(x: Slot, y: Slot)
    ensures SlotJson(x) == SlotJson(y) ==> x == y
  {
    if SlotJson(x) == SlotJson(y) {
      SlotFields(x);
      SlotFields(y);
      NamesAreInjective(x.result, y.result, x.disclosure, y.disclosure);
    }
  }

  lemma OmissionJsonIsInjective(x: Omission, y: Omission)
    ensures OmissionJson(x) == OmissionJson(y) ==> x == y
  {
    assert Get(OmissionJson(x), "subject") == Str(x.subject) &&
      Get(OmissionJson(x), "reason_code") == Str(x.reasonCode);
    assert Get(OmissionJson(y), "subject") == Str(y.subject) &&
      Get(OmissionJson(y), "reason_code") == Str(y.reasonCode);
  }

  lemma HeaderFields(m: Manifest)
    ensures Get(ManifestJson(m), "schema_version") == Int(m.schemaVersion) &&
      Get(ManifestJson(m), "task_id") == Str(m.header.taskId)
    ensures Get(ManifestJson(m), "context_id") == Str(m.header.contextId) &&
      Get(ManifestJson(m), "contract_id") == Str(m.header.contractId)
    ensures Get(ManifestJson(m), "contract_revision") == Int(m.header.contractRevision)
    ensures Get(ManifestJson(m), "contract_digest") == Str(m.header.contractDigest)
  {
  }

  lemma DigestFields(m: Manifest)
    ensures Get(ManifestJson(m), "attempt_digest") == Str(m.header.attemptDigest)
    ensures Get(ManifestJson(m), "work_order_receipt_digest") == Str(m.header.receiptDigest)
  {
  }

  lemma ArrayFields(m: Manifest)
    ensures Get(ManifestJson(m), "outputs") == ArrayOf(m.outputs, OutputJson)
    ensures Get(ManifestJson(m), "evidence") == ArrayOf(m.evidence, EvidenceJson)
    ensures Get(ManifestJson(m), "slots") == ArrayOf(m.slots, SlotJson)
    ensures Get(ManifestJson(m), "omissions") == ArrayOf(m.omissions, OmissionJson)
  {
  }

  lemma ArraysAreInjective(m: Manifest, n: Manifest, v: Json, w: Json)
    requires v == ManifestJson(m) && w == ManifestJson(n) && v == w
    ensures m.outputs == n.outputs && m.evidence == n.evidence && m.slots == n.slots && m.omissions == n.omissions
  {
    ArrayFields(m);
    ArrayFields(n);
    forall x, y ensures OutputJson(x) == OutputJson(y) ==> x == y { OutputJsonIsInjective(x, y); }
    forall x, y ensures EvidenceJson(x) == EvidenceJson(y) ==> x == y { EvidenceJsonIsInjective(x, y); }
    forall x, y ensures SlotJson(x) == SlotJson(y) ==> x == y { SlotJsonIsInjective(x, y); }
    forall x, y ensures OmissionJson(x) == OmissionJson(y) ==> x == y { OmissionJsonIsInjective(x, y); }
    ArrayOfIsInjective(m.outputs, n.outputs, OutputJson);
    ArrayOfIsInjective(m.evidence, n.evidence, EvidenceJson);
    ArrayOfIsInjective(m.slots, n.slots, SlotJson);
    ArrayOfIsInjective(m.omissions, n.omissions, OmissionJson);
  }

  lemma HeadersAreInjective(m: Manifest, n: Manifest, v: Json, w: Json)
    requires v == ManifestJson(m) && w == ManifestJson(n) && v == w
    ensures m.schemaVersion == n.schemaVersion && m.header == n.header
  {
    HeaderFields(m);
    HeaderFields(n);
    DigestFields(m);
    DigestFields(n);
    IntIsInjective(m.schemaVersion, n.schemaVersion);
    IntIsInjective(m.header.contractRevision, n.header.contractRevision);
  }

  /** Two manifests never share their canonical text. */
  lemma CanonicalNamesManifest(m: Manifest, n: Manifest)
    requires Canonical(ManifestJson(m)) == Canonical(ManifestJson(n))
    ensures m == n
  {
    ManifestJsonIsWellFormed(m);
    ManifestJsonIsWellFormed(n);
    CanonicalIsInjective(ManifestJson(m), ManifestJson(n));
    ArraysAreInjective(m, n, ManifestJson(m), ManifestJson(n));
    HeadersAreInjective(m, n, ManifestJson(m), ManifestJson(n));
  }

  // ---- Validity, digest, envelope ----

  const RESULT_TYPE := "application/vnd.akson-dev.result-manifest.v1+json"

  predicate Valid(lib: Lib, m: Manifest) {
    lib.schema("result-manifest.v1", ManifestJson(m)) && CanonicallyOrdered(m)
  }

  /** Only a valid manifest has a bundle digest. */
  function BundleDigest(lib: Lib, m: Manifest): Option<string> {
    if Valid(lib, m) then Some(lib.sha(Canonical(ManifestJson(m)))) else None
  }

  /** The bundle digest names the manifest. */
  lemma DigestNamesManifest(lib: Lib, m: Manifest, n: Manifest)
    requires !Collision(lib.sha, Canonical(ManifestJson(m)), Canonical(ManifestJson(n)))
    requires Valid(lib, m) && Valid(lib, n)
    ensures BundleDigest(lib, m) == BundleDigest(lib, n) <==> m == n
  {
    if BundleDigest(lib, m) == BundleDigest(lib, n) {
      CanonicalNamesManifest(m, n);
    }
  }

  /** Whoever assembles the same contents arrives at the same digest, when keys determine entries. */
  lemma SameContentsSameDigest(lib: Lib, m: Manifest, n: Manifest)
    requires SameContents(n, m) && KeysDetermineEntries(m)
    ensures BundleDigest(lib, Reassemble(n)) == BundleDigest(lib, Reassemble(m))
  {
    DeterminedIsBlind(m, n);
  }

  /** How bytes become JSON and JSON a manifest. */
  datatype Reader = Reader(json: string -> Option<Json>, manifest: Json -> Option<Manifest>)

  datatype VerifyError = WrongPayloadType | WrongPurpose | BadEnvelope(cause: Dsse.Error) | NotJson | NotSchema
    | NotCanonical | NotShape | NotOrdered

  datatype VerifyResult = Verified(manifest: Manifest, digest: string) | NotVerified(error: VerifyError)

  function VerifyPayload(lib: Lib, reader: Reader, payload: string): VerifyResult {
    var value := reader.json(payload);
    if value.None? then NotVerified(NotJson)
    else if !lib.schema("result-manifest.v1", value.value) then NotVerified(NotSchema)
    else if Canonical(value.value) != payload then NotVerified(NotCanonical)
    else
      var m := reader.manifest(value.value);
      if m.None? then NotVerified(NotShape)
      else if !lib.schema("result-manifest.v1", ManifestJson(m.value)) then NotVerified(NotSchema)
      else if !CanonicallyOrdered(m.value) then NotVerified(NotOrdered)
      else Verified(m.value, lib.sha(payload))
  }

  function Verify(lib: Lib, reader: Reader, envelope: Dsse.Envelope, key: PurposeVerifyingKey): VerifyResult {
    if envelope.payloadType != RESULT_TYPE then NotVerified(WrongPayloadType)
    else if key.purpose != TaskResult then NotVerified(WrongPurpose)
    else
      var unsealed := Dsse.Verify(lib, envelope, RESULT_TYPE, key.key);
      if unsealed.Err? then NotVerified(BadEnvelope(unsealed.error)) else VerifyPayload(lib, reader, unsealed.payload)
  }

  /** The text is the canonical one of a value that passes the schema and reads as this valid manifest. */
  predicate Reads(lib: Lib, reader: Reader, payload: string, m: Manifest) {
    && reader.json(payload).Some? && lib.schema("result-manifest.v1", reader.json(payload).value)
    && Canonical(reader.json(payload).value) == payload && reader.manifest(reader.json(payload).value) == Some(m)
    && Valid(lib, m)
  }

  lemma PayloadVerifies(lib: Lib, reader: Reader, payload: string, m: Manifest)
    ensures VerifyPayload(lib, reader, payload) == Verified(m, lib.sha(payload)) <==> Reads(lib, reader, payload, m)
  {
  }

  /** A refusal of the text has one cause, checked in this order. */
  lemma PayloadRefusals(lib: Lib, reader: Reader, payload: string)
    ensures var r, j := VerifyPayload(lib, reader, payload), reader.json(payload);
      && (r == NotVerified(NotJson) <==> j.None?)
      && (j.Some? && !lib.schema("result-manifest.v1", j.value) ==> r == NotVerified(NotSchema))
      && (r == NotVerified(NotSchema) ==>
            || !lib.schema("result-manifest.v1", j.value)
            || (reader.manifest(j.value).Some? &&
                !lib.schema("result-manifest.v1", ManifestJson(reader.manifest(j.value).value))))
      && (r == NotVerified(NotCanonical) <==>
            j.Some? && lib.schema("result-manifest.v1", j.value) && Canonical(j.value) != payload)
      && (r == NotVerified(NotShape) <==>
            && j.Some? && lib.schema("result-manifest.v1", j.value) && Canonical(j.value) == payload
            && reader.manifest(j.value).None?)
      && (r == NotVerified(NotOrdered) <==>
            && j.Some? && lib.schema("result-manifest.v1", j.value) && Canonical(j.value) == payload
            && reader.manifest(j.value).Some?
            && lib.schema("result-manifest.v1", ManifestJson(reader.manifest(j.value).value))
            && !CanonicallyOrdered(reader.manifest(j.value).value))
  {
  }

  lemma VerifyUnseals(lib: Lib, reader: Reader, envelope: Dsse.Envelope, key: PurposeVerifyingKey)
    ensures var r, u := Verify(lib, reader, envelope, key), Dsse.Verify(lib, envelope, RESULT_TYPE, key.key);
      && (key.purpose != TaskResult || u.Err? ==> r.NotVerified?)
      && (key.purpose == TaskResult && u.Ok? ==> r == VerifyPayload(lib, reader, u.payload))
  {
  }

  lemma PurposeIsChecked(lib: Lib, reader: Reader, envelope: Dsse.Envelope, key: PurposeVerifyingKey)
    ensures Verify(lib, reader, envelope, key) == NotVerified(WrongPayloadType) <==>
      envelope.payloadType != "application/vnd.akson-dev.result-manifest.v1+json"
    ensures Verify(lib, reader, envelope, key) == NotVerified(WrongPurpose) <==>
      envelope.payloadType == RESULT_TYPE && key.purpose != TaskResult
  {
  }

  /** A manifest verifies exactly when an envelope of the result type carries its text under a result
      key, the text is the canonical one of a value that passes the schema and reads as this manifest,
      and the manifest passes the schema and the ordering check. */
  lemma ManifestVerifies(lib: Lib, reader: Reader, envelope: Dsse.Envelope, key: PurposeVerifyingKey, m: Manifest,
                         payload: string)
    requires Dsse.DecodeB64(lib, envelope.payload) == Some(payload)
    ensures Verify(lib, reader, envelope, key) == Verified(m, lib.sha(payload)) <==>
      && key.purpose == TaskResult && Dsse.Carries(lib, envelope, RESULT_TYPE, key.key, payload)
      && Reads(lib, reader, payload, m)
  {
    VerifyUnseals(lib, reader, envelope, key);
    var u := Dsse.Verify(lib, envelope, RESULT_TYPE, key.key);
    if u.Ok? {
      Dsse.VerifiesExactly(lib, envelope, RESULT_TYPE, key.key, u.payload);
      PayloadVerifies(lib, reader, payload, m);
    } else {
      Dsse.VerifiesExactly(lib, envelope, RESULT_TYPE, key.key, payload);
    }
  }

  /** Of a value the closed schema admits, the reader keeps every member: what it reads serializes to
      what it was given. It may drop members of other values. */
  ghost predicate Lossless(lib: Lib, reader: Reader) {
    forall v, m :: lib.schema("result-manifest.v1", v) && reader.manifest(v) == Some(m) ==> ManifestJson(m) == v
  }

  lemma ReadIsValid(lib: Lib, reader: Reader, payload: string, m: Manifest, digest: string) returns (v: Json)
    requires VerifyPayload(lib, reader, payload) == Verified(m, digest)
    ensures Valid(lib, m) && reader.manifest(v) == Some(m) && lib.schema("result-manifest.v1", v)
    ensures Canonical(v) == payload && digest == lib.sha(payload)
  {
    v := reader.json(payload).value;
  }

  lemma ReadIsWhole(lib: Lib, reader: Reader, payload: string, m: Manifest, digest: string)
    requires VerifyPayload(lib, reader, payload) == Verified(m, digest) && Lossless(lib, reader)
    ensures Valid(lib, m) && Canonical(ManifestJson(m)) == payload && BundleDigest(lib, m) == Some(digest)
  {
    var v := ReadIsValid(lib, reader, payload, m, digest);
    assert ManifestJson(m) == v;
  }

  /** A verified manifest is valid, hence ordered; and when the reader loses nothing the schema admits,
      the digest returned with it is its own bundle digest. */
  lemma VerifiedIsNamedByItsDigest(lib: Lib, reader: Reader, envelope: Dsse.Envelope, key: PurposeVerifyingKey)
    requires Verify(lib, reader, envelope, key).Verified?
    ensures var r := Verify(lib, reader, envelope, key);
      Valid(lib, r.manifest) && (Lossless(lib, reader) ==> BundleDigest(lib, r.manifest) == Some(r.digest))
  {
    var r := Verify(lib, reader, envelope, key);
    var payload := Dsse.Verify(lib, envelope, RESULT_TYPE, key.key).payload;
    var v := ReadIsValid(lib, reader, payload, r.manifest, r.digest);
    if Lossless(lib, reader) {
      ReadIsWhole(lib, reader, payload, r.manifest, r.digest);
    }
  }

  /** On every run, a manifest verified under an honest key was signed by its holder, in exactly its
      canonical text. */
  lemma VerifiedWasSigned(lib: Lib, reader: Reader, honest: Key -> bool, steps: seq<World.Step>,
                          envelope: Dsse.Envelope, key: PurposeVerifyingKey) returns (i: nat)
    requires Jws.Base64Url(lib.urlSafeNoPad) && World.Allowed(honest, steps) && honest(key.key) && Lossless(lib, reader)
    requires Verify(lib, reader, envelope, key).Verified?
    requires World.EnvelopeDelivered(lib, World.Run(lib, steps), envelope)
    ensures var text := Canonical(ManifestJson(Verify(lib, reader, envelope, key).manifest));
      && i < |World.Run(lib, steps).ops|
      && World.Run(lib, steps).ops[i] == World.SignEnvelope(key.key, RESULT_TYPE, text)
  {
    var r := Verify(lib, reader, envelope, key);
    ReadIsWhole(lib, reader, Dsse.Verify(lib, envelope, RESULT_TYPE, key.key).payload, r.manifest, r.digest);
    i := World.EnvelopeAgrees(lib, honest, steps, envelope, RESULT_TYPE, key.key);
  }

  lemma OwnPayloadVerifies(lib: Lib, reader: Reader, m: Manifest, payload: string)
    requires Valid(lib, m) && payload == Canonical(ManifestJson(m))
    requires reader.json(payload) == Some(ManifestJson(m)) && reader.manifest(ManifestJson(m)) == Some(m)
    ensures VerifyPayload(lib, reader, payload) == Verified(m, lib.sha(payload))
  {
  }

  /** The producer's manifest comes back with its own bundle digest. */
  lemma SignThenVerify(lib: Lib, reader: Reader, m: Manifest, key: Key)
    requires Strict(lib.standard) && SignaturesSurvive(lib) && lib.strong(key) && Valid(lib, m)
    requires reader.json(Canonical(ManifestJson(m))) == Some(ManifestJson(m)) &&
      reader.manifest(ManifestJson(m)) == Some(m)
    ensures Verify(lib, reader, Dsse.Sign(lib, RESULT_TYPE, Canonical(ManifestJson(m)), key),
      PurposeVerifyingKey(TaskResult, key)) ==
      Verified(m, BundleDigest(lib, m).value)
  {
    Dsse.SignThenVerify(lib, RESULT_TYPE, Canonical(ManifestJson(m)), key, RESULT_TYPE, key);
    OwnPayloadVerifies(lib, reader, m, Canonical(ManifestJson(m)));
  }
}
