/** The requester's outcome, bound to one manifest, and the evidence slots a contract requires. */
module Outcome {
  import opened Options
  import opened Crypto
  import opened ResultManifest
  import opened Json

  datatype OutcomeState = Accepted | Rejected | Disputed

  datatype Outcome = Outcome(taskId: string, contextId: string, contractId: string, contractRevision: nat,
                             contractDigest: string, manifestDigest: string, state: OutcomeState,
                             reasonCode: Option<string>, note: Option<string>, requester: string, signedAt: string)

  /** Fails when the manifest has no bundle digest. */
  function ForManifest(lib: Lib, m: Manifest, state: OutcomeState, requester: string,
                       signedAt: string): Option<Outcome> {
    var digest := BundleDigest(lib, m);
    if digest.None? then None
    else Some(Outcome(m.header.taskId, m.header.contextId, m.header.contractId, m.header.contractRevision,
                      m.header.contractDigest, digest.value, state, None, None, requester, signedAt))
  }

  function WithReason(o: Outcome, reason: string): Outcome { o.(reasonCode := Some(reason)) }

  function WithNote(o: Outcome, note: string): Outcome { o.(note := Some(note)) }

  predicate BindsTo(lib: Lib, o: Outcome, m: Manifest) {
    && BundleDigest(lib, m) == Some(o.manifestDigest)
    && o.taskId == m.header.taskId && o.contextId == m.header.contextId && o.contractId == m.header.contractId
    && o.contractRevision == m.header.contractRevision && o.contractDigest == m.header.contractDigest
  }

  /** An outcome binds to a manifest exactly when it is the one made for it, up to reason and note. */
  lemma BindsWhatWasMade(lib: Lib, o: Outcome, m: Manifest)
    ensures BindsTo(lib, o, m) <==>
      ForManifest(lib, m, o.state, o.requester, o.signedAt) == Some(o.(reasonCode := None, note := None))
  {
  }

  /** An outcome made for one verified manifest binds to another exactly when they are the same
      manifest, with or without a reason and a note. */
  lemma OutcomeBindsExactly(lib: Lib, m: Manifest, n: Manifest, state: OutcomeState, requester: string,
                            signedAt: string, reason: string, note: string)
    requires Valid(lib, m) && Valid(lib, n)
    requires !Collision(lib.sha, Canonical(ManifestJson(m)), Canonical(ManifestJson(n)))
    ensures ForManifest(lib, m, state, requester, signedAt).Some?
    ensures var o := ForManifest(lib, m, state, requester, signedAt).value;
      && (BindsTo(lib, o, n) <==> m == n)
      && (BindsTo(lib, WithNote(WithReason(o, reason), note), n) <==> m == n)
  {
    DigestNamesManifest(lib, m, n);
  }

  /** An invalid manifest has no outcome, and no outcome binds to it. */
  lemma InvalidIsNeverBound(lib: Lib, m: Manifest, o: Outcome, state: OutcomeState, requester: string, signedAt: string)
    requires !Valid(lib, m)
    ensures ForManifest(lib, m, state, requester, signedAt).None? && !BindsTo(lib, o, m)
  {
  }
}

module Slots {
  import opened Options
  import opened Lists
  import opened Ordering
  import opened ResultManifest

  datatype RequiredSlot = RequiredSlot(slotId: string, requiredResult: SlotResult, requireFull: bool)

  datatype SlotError = Missing(slotId: string) | ResultMismatch(slotId: string, want: SlotResult, got: SlotResult)
    | Hidden(slotId: string, disclosure: Disclosure) | MissingEvidenceRole(slotId: string)

  predicate Conclusive(s: Slot) { s.result.Passed? || s.result.Failed? || s.result.Error? }

  function FirstUnbacked(provided: seq<Slot>): Option<SlotError> {
    if provided == [] then None
    else if Conclusive(provided[0]) && provided[0].evidenceRole.None? then Some(MissingEvidenceRole(provided[0].slotId))
    else FirstUnbacked(provided[1..])
  }

  /** The first record under an id. */
  function Find(provided: seq<Slot>, id: string): Option<Slot> {
    if provided == [] then None else if provided[0].slotId == id then Some(provided[0]) else Find(provided[1..], id)
  }

  function RequirementError(r: RequiredSlot, provided: seq<Slot>): Option<SlotError> {
    var got := Find(provided, r.slotId);
    if got.None? then Some(Missing(r.slotId))
    else if got.value.result != r.requiredResult then Some(ResultMismatch(r.slotId, r.requiredResult, got.value.result))
    else if r.requireFull && !got.value.disclosure.Full? then Some(Hidden(r.slotId, got.value.disclosure))
    else None
  }

  /** A requirement fails on a missing record, then on its result, then on what is withheld. */
  lemma RequirementRefusals(r: RequiredSlot, provided: seq<Slot>)
    ensures RequirementError(r, provided) == Some(Missing(r.slotId)) <==> Find(provided, r.slotId).None?
    ensures Find(provided, r.slotId).Some? ==>
      var got := Find(provided, r.slotId).value;
      && (RequirementError(r, provided) == Some(ResultMismatch(r.slotId, r.requiredResult, got.result)) <==>
            got.result != r.requiredResult)
      && (RequirementError(r, provided) == Some(Hidden(r.slotId, got.disclosure)) <==>
            got.result == r.requiredResult && r.requireFull && got.disclosure != Full)
  {
  }

  function FirstUnmet(required: seq<RequiredSlot>, provided: seq<Slot>): Option<SlotError> {
    if required == [] then None
    else
      var e := RequirementError(required[0], provided);
      if e.Some? then e else FirstUnmet(required[1..], provided)
  }

  function CheckSlots(required: seq<RequiredSlot>, provided: seq<Slot>): Option<SlotError> {
    var unbacked := FirstUnbacked(provided);
    if unbacked.Some? then unbacked else FirstUnmet(required, provided)
  }

  function IdOf(s: Slot): string { s.slotId }

  /** A record that meets a requirement. */
  predicate Meets(s: Slot, r: RequiredSlot) {
    s.slotId == r.slotId && s.result == r.requiredResult && (r.requireFull ==> s.disclosure.Full?)
  }

  /** Every conclusive record names its evidence and every requirement is met by its record. */
  ghost predicate Satisfied(required: seq<RequiredSlot>, provided: seq<Slot>) {
    && (forall s :: s in provided && Conclusive(s) ==> s.evidenceRole.Some?)
    && (forall r :: r in required ==> exists s :: s in provided && Meets(s, r))
  }

  lemma {:induction false} UnbackedMeans(provided: seq<Slot>)
    ensures FirstUnbacked(provided).None? <==> forall s :: s in provided && Conclusive(s) ==> s.evidenceRole.Some?
  {
    if provided != [] {
      UnbackedMeans(provided[1..]);
      assert forall s :: s in provided <==> s == provided[0] || s in provided[1..];
    }
  }

  lemma {:induction false} FindMeans(provided: seq<Slot>, id: string)
    ensures match Find(provided, id)
      case Some(s) => s in provided && s.slotId == id
      case None => forall s :: s in provided ==> s.slotId != id
  {
    if provided != [] {
      FindMeans(provided[1..], id);
      assert forall s :: s in provided <==> s == provided[0] || s in provided[1..];
    }
  }

  lemma {:induction false} UnmetMeans(required: seq<RequiredSlot>, provided: seq<Slot>)
    ensures FirstUnmet(required, provided).None? <==> forall r :: r in required ==> RequirementError(r, provided).None?
  {
    if required != [] {
      UnmetMeans(required[1..], provided);
      assert forall r :: r in required <==> r == required[0] || r in required[1..];
    }
  }

  lemma RequirementMeans(r: RequiredSlot, provided: seq<Slot>)
    requires DistinctBy(IdOf, provided)
    ensures RequirementError(r, provided).None? <==> exists s :: s in provided && Meets(s, r)
  {
    FindMeans(provided, r.slotId);
    DistinctMeans(IdOf, provided);
    if s :| s in provided && Meets(s, r) {
      assert IdOf(s) == IdOf(Find(provided, r.slotId).value);
    }
  }

  /** With distinct ids, slots pass exactly when they satisfy the contract. */
  lemma SlotsPassExactly(required: seq<RequiredSlot>, provided: seq<Slot>)
    requires DistinctBy(IdOf, provided)
    ensures CheckSlots(required, provided).None? <==> Satisfied(required, provided)
  {
    UnbackedMeans(provided);
    UnmetMeans(required, provided);
    forall r | r in required ensures RequirementError(r, provided).None? <==> exists s :: s in provided && Meets(s, r) {
      RequirementMeans(r, provided);
    }
  }

  /** Checking the assembled manifest gives the verdict on the slots as supplied, in any order. */
  lemma AssemblyKeepsTheVerdict(h: Header, o: seq<Output>, e: seq<Evidence>, m: seq<Omission>,
                                required: seq<RequiredSlot>, supplied: seq<Slot>, reordered: seq<Slot>)
    requires DistinctBy(IdOf, supplied) && multiset(reordered) == multiset(supplied)
    ensures CheckSlots(required, Assemble(h, o, e, reordered, m).slots).None? <==> Satisfied(required, supplied)
  {
    var sorted := SortBy(SlotKey, reordered);
    SortByOrders(SlotKey, reordered);
    PermutedDistinct(IdOf, supplied, sorted);
    SlotsPassExactly(required, sorted);
    assert forall s :: s in sorted <==> s in multiset(sorted);
    assert forall s :: s in supplied <==> s in multiset(supplied);
  }

  /** Every conclusive record names its evidence, and every record under a required id meets it. */
  ghost predicate SatisfiedThroughout(required: seq<RequiredSlot>, provided: seq<Slot>) {
    && (forall s :: s in provided && Conclusive(s) ==> s.evidenceRole.Some?)
    && (forall r :: r in required ==> exists s :: s in provided && Meets(s, r))
    && (forall r, s :: r in required && s in provided && s.slotId == r.slotId ==> Meets(s, r))
  }

  /** The lookup takes the first record under an id. Without distinct ids the slots pass in every
      order exactly when every record under a required id meets the requirement. */
  lemma PassesInEveryOrderExactly(required: seq<RequiredSlot>, provided: seq<Slot>)
    ensures (forall t :: multiset(t) == multiset(provided) ==> CheckSlots(required, t).None?) <==>
      SatisfiedThroughout(required, provided)
  {
    assert forall s :: s in provided <==> s in multiset(provided);
    if SatisfiedThroughout(required, provided) {
      forall t | multiset(t) == multiset(provided) ensures CheckSlots(required, t).None? {
        PassesWhenAllMeet(required, provided, t);
      }
    }
    if forall t :: multiset(t) == multiset(provided) ==> CheckSlots(required, t).None? {
      assert CheckSlots(required, provided).None?;
      UnbackedMeans(provided);
      UnmetMeans(required, provided);
      forall r | r in required ensures exists s :: s in provided && Meets(s, r) {
        FindMeans(provided, r.slotId);
      }
      forall r, s | r in required && s in provided && s.slotId == r.slotId ensures Meets(s, r) {
        FirstMeets(required, provided, r, s);
      }
    }
  }

  lemma PassesWhenAllMeet(required: seq<RequiredSlot>, provided: seq<Slot>, t: seq<Slot>)
    requires SatisfiedThroughout(required, provided) && multiset(t) == multiset(provided)
    ensures CheckSlots(required, t).None?
  {
    assert forall s :: s in provided <==> s in multiset(provided);
    assert forall s :: s in t <==> s in multiset(t);
    UnbackedMeans(t);
    UnmetMeans(required, t);
    forall r | r in required ensures RequirementError(r, t).None? {
      FindMeans(t, r.slotId);
      var s :| s in provided && Meets(s, r);
    }
  }

  /** Moving a record to the front makes it the one that counts. */
  lemma FirstMeets(required: seq<RequiredSlot>, provided: seq<Slot>, r: RequiredSlot, s: Slot)
    requires r in required && s in provided && s.slotId == r.slotId
    requires forall t :: multiset(t) == multiset(provided) ==> CheckSlots(required, t).None?
    ensures Meets(s, r)
  {
    var i :| 0 <= i < |provided| && provided[i] == s;
    var t := [s] + Without(provided, i);
    WithoutTakesOne(provided, i);
    assert multiset(t) == multiset(provided);
    assert CheckSlots(required, t).None?;
    UnmetMeans(required, t);
    assert RequirementError(r, t).None?;
    assert Find(t, r.slotId) == Some(s);
  }

  /** The promise "whatever order" fails for a repeated id: a passing and a failing record under it
      satisfy the requirement, but not throughout. */
  lemma RepeatedIdsAreOrderSensitive(r: RequiredSlot, pass: Slot, fail: Slot)
    requires Meets(pass, r) && fail.slotId == r.slotId && fail.result != r.requiredResult
    requires pass.evidenceRole.Some? && fail.evidenceRole.Some?
    ensures CheckSlots([r], [pass, fail]).None? && CheckSlots([r], [fail, pass]).Some?
  {
    UnbackedMeans([pass, fail]);
    UnmetMeans([r], [pass, fail]);
    UnmetMeans([r], [fail, pass]);
    assert r in [r] && RequirementError(r, [fail, pass]).Some?;
  }
}
