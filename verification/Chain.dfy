/** The revision chain of one Task: a compare-and-swap head, advanced by revisions and locked by one
    acceptance, under any sequence of deliveries. */
module Chain {
  import opened Options
  import opened Crypto
  import opened Contracts

  datatype Head = Head(revision: nat, digest: string)

  datatype HeadState = Empty | Open(head: Head) | Locked(head: Head)

  datatype StaleReason = HeadAlreadyExists | NoHead | NonSequential | PredecessorMismatch | HeadLocked

  datatype Verdict = Advance(head: Head) | Stale(reason: StaleReason)

  datatype LockError = NoOpenHead | DigestMismatch | AlreadyLocked

  datatype LockResult = Lock(state: HeadState) | NoLock(error: LockError)

  function ApplyRevision(head: HeadState, proposed: ParsedContract): Verdict {
    var c := proposed.contract;
    var advance := Head(c.revision, proposed.digest);
    if c.revision == 0 then (if head.Empty? then Advance(advance) else Stale(HeadAlreadyExists))
    else
      match head
      case Empty => Stale(NoHead)
      case Locked(_) => Stale(HeadLocked)
      case Open(h) =>
        if c.revision != (h.revision + 1) % U64 then Stale(NonSequential)
        else if c.predecessorDigest != Some(h.digest) then Stale(PredecessorMismatch)
        else Advance(advance)
  }

  function AcceptHead(head: HeadState, digest: string): LockResult {
    match head
    case Empty => NoLock(NoOpenHead)
    case Locked(_) => NoLock(AlreadyLocked)
    case Open(h) => if h.digest == digest then Lock(Locked(h)) else NoLock(DigestMismatch)
  }

  /** A revision moves the head to itself, or is stale for exactly one reason. */
  lemma RevisionVerdict(head: HeadState, p: ParsedContract)
    ensures var c, v := p.contract, ApplyRevision(head, p);
      && (v.Advance? ==> v.head == Head(c.revision, p.digest))
      && (v == Stale(HeadAlreadyExists) <==> c.revision == 0 && head != Empty)
      && (v == Stale(NoHead) <==> c.revision != 0 && head == Empty)
      && (v == Stale(HeadLocked) <==> c.revision != 0 && head.Locked?)
      && (v == Stale(NonSequential) <==>
            c.revision != 0 && head.Open? && c.revision != (head.head.revision + 1) % 0x1_0000_0000_0000_0000)
      && (v == Stale(PredecessorMismatch) <==>
            && c.revision != 0 && head.Open? && c.revision == (head.head.revision + 1) % 0x1_0000_0000_0000_0000
            && c.predecessorDigest != Some(head.head.digest))
  {
  }

  /** An acceptance locks the open head it names, or fails for exactly one reason. */
  lemma AcceptanceVerdict(head: HeadState, digest: string)
    ensures AcceptHead(head, digest) == NoLock(NoOpenHead) <==> head == Empty
    ensures AcceptHead(head, digest) == NoLock(AlreadyLocked) <==> head.Locked?
    ensures AcceptHead(head, digest) == NoLock(DigestMismatch) <==> head.Open? && head.head.digest != digest
    ensures head.Open? && head.head.digest == digest ==> AcceptHead(head, digest) == Lock(Locked(head.head))
  {
  }

  // ---- Runs ----

  datatype Event = Propose(proposed: ParsedContract) | Accept(digest: string)

  /** A Task's head, with the revisions that advanced it and the number of locks. */
  datatype Task = Task(head: HeadState, history: seq<ParsedContract>, locks: nat)

  function Step(t: Task, e: Event): Task {
    match e
    case Propose(p) =>
      (match ApplyRevision(t.head, p)
       case Advance(h) => Task(Open(h), t.history + [p], t.locks)
       case Stale(_) => t)
    case Accept(d) =>
      (match AcceptHead(t.head, d)
       case Lock(s) => Task(s, t.history, t.locks + 1)
       case NoLock(_) => t)
  }

  function Run(start: Task, events: seq<Event>): Task {
    if events == [] then start else Step(Run(start, events[..|events| - 1]), events[|events| - 1])
  }

  function Play(events: seq<Event>): Task { Run(Task(Empty, [], 0), events) }

  /** Revisions 0, 1, 2, … each naming its predecessor's digest. */
  predicate Chained(h: seq<ParsedContract>) {
    forall i :: 0 <= i < |h| ==>
      h[i].contract.revision == i && (i > 0 ==> h[i].contract.predecessorDigest == Some(h[i - 1].digest))
  }

  /** The head is the last revision advanced, and it is locked exactly once when it is locked. */
  predicate Consistent(t: Task) {
    && Chained(t.history) && |t.history| <= U64
    && (t.head.Empty? <==> t.history == [])
    && (!t.head.Empty? ==> t.head.head == Head(|t.history| - 1, t.history[|t.history| - 1].digest))
    && t.locks == if t.head.Locked? then 1 else 0
  }

  lemma ChainedAppend(h: seq<ParsedContract>, p: ParsedContract)
    requires Chained(h)
    ensures Chained(h + [p]) <==>
      p.contract.revision == |h| && (|h| > 0 ==> p.contract.predecessorDigest == Some(h[|h| - 1].digest))
  {
    var g := h + [p];
    assert g[|h|] == p && forall i :: 0 <= i < |h| ==> g[i] == h[i];
  }

  /** Over every sequence of revisions and acceptances, the history is a chain, the head its end, and
      at most one acceptance succeeded. */
  lemma {:induction false} EveryRunIsConsistent(events: seq<Event>)
    ensures Consistent(Play(events))
  {
    if events != [] {
      var before, e := Play(events[..|events| - 1]), events[|events| - 1];
      EveryRunIsConsistent(events[..|events| - 1]);
      if e.Propose? {
        ChainedAppend(before.history, e.proposed);
      }
    }
  }

  /** Once locked, nothing that arrives later changes anything. */
  lemma {:induction false} LockIsFinal(t: Task, events: seq<Event>)
    requires t.head.Locked?
    ensures Run(t, events) == t
  {
    if events != [] {
      LockIsFinal(t, events[..|events| - 1]);
    }
  }

  /** An acceptance that locks names the digest of the head at that moment. */
  lemma LockNamesTheHead(events: seq<Event>, digest: string)
    requires AcceptHead(Play(events).head, digest).Lock?
    ensures Play(events).head.Open? && Play(events).history != []
    ensures digest == Play(events).history[|Play(events).history| - 1].digest
  {
    EveryRunIsConsistent(events);
  }

  /** A revision advances the head exactly when it opens an empty one or chains onto an open one. */
  lemma AdvancesExactlyWhenChained(t: Task, p: ParsedContract)
    requires Consistent(t) && p.contract.revision < U64
    ensures ApplyRevision(t.head, p).Advance? <==> !t.head.Locked? && Chained(t.history + [p])
  {
    ChainedAppend(t.history, p);
  }

  // ---- Digests name histories ----

  /** No two payloads of these revisions share a digest. */
  ghost predicate CollisionFree(lib: Lib, a: seq<ParsedContract>, b: seq<ParsedContract>) {
    forall p, q :: p in a && q in b ==> !Collision(lib.sha, p.payload, q.payload)
  }

  ghost predicate AllParsed(lib: Lib, read: string -> Option<Contract>, h: seq<ParsedContract>) {
    forall p :: p in h ==> Parsed(lib, read, p)
  }

  lemma DigestNamesContract(lib: Lib, read: string -> Option<Contract>, p: ParsedContract, q: ParsedContract)
    requires Parsed(lib, read, p) && Parsed(lib, read, q) && p.digest == q.digest &&
      !Collision(lib.sha, p.payload, q.payload)
    ensures p == q
  {
  }

  /** Chains that end in the same digest are the same chain. */
  lemma {:induction false} LastDigestNamesChain(lib: Lib, read: string -> Option<Contract>, a: seq<ParsedContract>,
                                                b: seq<ParsedContract>)
    requires Chained(a) && Chained(b) && AllParsed(lib, read, a) && AllParsed(lib, read, b) && CollisionFree(lib, a, b)
    requires |a| > 0 && |b| > 0 && a[|a| - 1].digest == b[|b| - 1].digest
    ensures a == b
    decreases |a|
  {
    var n := |a| - 1;
    DigestNamesContract(lib, read, a[n], b[|b| - 1]);
    assert |b| == |a|;
    if n > 0 {
      LastDigestNamesChain(lib, read, a[..n], b[..n]);
    }
    assert a == a[..n] + [a[n]] && b == b[..n] + [b[n]];
  }

  ghost predicate Delivers(lib: Lib, read: string -> Option<Contract>, events: seq<Event>) {
    forall i :: 0 <= i < |events| && events[i].Propose? ==> Parsed(lib, read, events[i].proposed)
  }

  lemma {:induction false} HistoryIsParsed(lib: Lib, read: string -> Option<Contract>, events: seq<Event>)
    requires Delivers(lib, read, events)
    ensures AllParsed(lib, read, Play(events).history)
  {
    if events != [] {
      HistoryIsParsed(lib, read, events[..|events| - 1]);
    }
  }

  /** Two endpoints whose heads carry one digest hold one and the same whole history, whatever each
      was sent and in whatever order. */
  lemma EqualHeadsEqualHistories(lib: Lib, read: string -> Option<Contract>, a: seq<Event>, b: seq<Event>)
    requires Delivers(lib, read, a) && Delivers(lib, read, b)
    requires CollisionFree(lib, Play(a).history, Play(b).history)
    requires !Play(a).head.Empty? && !Play(b).head.Empty? && Play(a).head.head.digest == Play(b).head.head.digest
    ensures Play(a).history == Play(b).history && Play(a).head.head == Play(b).head.head
  {
    EveryRunIsConsistent(a);
    EveryRunIsConsistent(b);
    HistoryIsParsed(lib, read, a);
    HistoryIsParsed(lib, read, b);
    LastDigestNamesChain(lib, read, Play(a).history, Play(b).history);
  }

  /** A decision bound to a proposal locks that proposal or nothing. */
  lemma DecisionLocksItsProposal(lib: Lib, read: string -> Option<Contract>, events: seq<Event>, d: Decision,
                                 p: ParsedContract)
    requires Delivers(lib, read, events) && Parsed(lib, read, p) && BindingError(d, p).None?
    requires CollisionFree(lib, Play(events).history, [p])
    ensures var t := Play(events);
      AcceptHead(t.head, d.contractDigest).Lock? <==> t.head.Open? && t.history != [] && t.history[|t.history| - 1] == p
    ensures AcceptHead(Play(events).head, d.contractDigest).Lock? ==>
      Step(Play(events), Accept(d.contractDigest)).head == Locked(Head(d.contractRevision, p.digest))
  {
    var t := Play(events);
    EveryRunIsConsistent(events);
    HistoryIsParsed(lib, read, events);
    if t.head.Open? && t.head.head.digest == p.digest {
      DigestNamesContract(lib, read, t.history[|t.history| - 1], p);
    }
  }

  // ---- What the head does not compare ----

  predicate OneContract(h: seq<ParsedContract>) {
    forall i :: 0 <= i < |h| ==> h[i].contract.contractId == h[0].contract.contractId
  }

  /** The guard of the branch that extends an open head, read off head and revision. */
  predicate Extends(head: HeadState, p: ParsedContract) {
    && head.Open? && p.contract.revision != 0 && p.contract.revision == (head.head.revision + 1) % U64
    && p.contract.predecessorDigest == Some(head.head.digest)
  }

  /** Before delivery `i`: a revision about to extend the head is of the contract the Task began with. */
  ghost predicate OwnRevision(events: seq<Event>, i: nat)
    requires i < |events|
  {
    var t := Play(events[..i]);
    events[i].Propose? && Extends(t.head, events[i].proposed) && t.history != [] ==>
      events[i].proposed.contract.contractId == t.history[0].contract.contractId
  }

  lemma OneStepKeepsContract(t: Task, e: Event)
    requires t.head.Empty? <==> t.history == []
    ensures OneContract(Step(t, e).history) <==>
      && OneContract(t.history)
      && (e.Propose? && Extends(t.head, e.proposed) && t.history != [] ==>
            e.proposed.contract.contractId == t.history[0].contract.contractId)
  {
    var h, k := t.history, Step(t, e).history;
    if k != h {
      assert k == h + [e.proposed];
      assert k[|h|] == e.proposed && forall i :: 0 <= i < |h| ==> k[i] == h[i];
    }
  }

  /** The contract id is not part of the comparison. Over every run the history stays within one
      contract exactly when, before each delivery that meets the extending branch's guard, its id is
      that of the revision the Task began with. */
  lemma {:induction false} OneContractExactly(events: seq<Event>)
    ensures OneContract(Play(events).history) <==> forall i :: 0 <= i < |events| ==> OwnRevision(events, i)
  {
    if events != [] {
      var n := |events| - 1;
      var before := events[..n];
      OneContractExactly(before);
      forall i | 0 <= i < n ensures OwnRevision(events, i) <==> OwnRevision(before, i) {
        assert before[..i] == events[..i] && before[i] == events[i];
      }
      EveryRunIsConsistent(before);
      OneStepKeepsContract(Play(before), events[n]);
      assert OneContract(Play(events).history) <==> OneContract(Play(before).history) && OwnRevision(events, n);
      assert forall i :: 0 <= i < |before| ==> (OwnRevision(before, i) <==> OwnRevision(events, i));
    }
  }

  /** Delivery `i` advanced the head it met. */
  predicate Advanced(events: seq<Event>, i: int) {
    0 <= i < |events| && events[i].Propose? && ApplyRevision(Play(events[..i]).head, events[i].proposed).Advance?
  }

  /** Every revision in the history advanced. */
  lemma {:induction false} AdvancedBy(events: seq<Event>, p: ParsedContract) returns (i: int)
    requires p in Play(events).history
    ensures Advanced(events, i) && events[i].proposed == p
  {
    i := |events| - 1;
    var before := events[..i];
    if p in Play(before).history {
      i := AdvancedBy(before, p);
      assert before[..i] == events[..i] && before[i] == events[i];
    }
  }

  /** Delivery `j` names delivery `i` as its predecessor. */
  predicate Follows(events: seq<Event>, i: int, j: int) {
    && 0 <= i < |events| && 0 <= j < |events| && events[i].Propose? && events[j].Propose?
    && events[j].proposed.contract.predecessorDigest == Some(events[i].proposed.digest)
  }

  /** No revision delivered names a predecessor of another contract. */
  ghost predicate NamesItsOwn(events: seq<Event>) {
    forall i, j :: Follows(events, i, j) ==>
      events[j].proposed.contract.contractId == events[i].proposed.contract.contractId
  }

  lemma {:induction false} ChainKeepsContract(events: seq<Event>, k: nat)
    requires NamesItsOwn(events) && k < |Play(events).history|
    ensures Play(events).history[k].contract.contractId == Play(events).history[0].contract.contractId
  {
    if k > 0 {
      var h := Play(events).history;
      ChainKeepsContract(events, k - 1);
      EveryRunIsConsistent(events);
      var j := AdvancedBy(events, h[k]);
      var i := AdvancedBy(events, h[k - 1]);
      assert Follows(events, i, j);
    }
  }

  /** A caller that checks predecessors against their contract keeps every Task within one contract. */
  lemma CheckedPredecessorsSuffice(events: seq<Event>)
    requires NamesItsOwn(events)
    ensures OneContract(Play(events).history)
  {
    forall k | 0 <= k < |Play(events).history|
      ensures Play(events).history[k].contract.contractId == Play(events).history[0].contract.contractId
    {
      ChainKeepsContract(events, k);
    }
  }

  /** Nothing less does: any two parsed revisions of different contracts that chain by digest end up
      in one history. */
  lemma HistoriesMayMixContracts(lib: Lib, read: string -> Option<Contract>, p: ParsedContract, q: ParsedContract)
    requires Parsed(lib, read, p) && Parsed(lib, read, q) && p.contract.revision == 0 && q.contract.revision == 1
    requires q.contract.predecessorDigest == Some(p.digest) && q.contract.contractId != p.contract.contractId
    ensures Play([Propose(p), Propose(q)]).history == [p, q] && !OneContract([p, q])
  {
    var a, b := Propose(p), Propose(q);
    assert [a, b][..1] == [a] && [a][..0] == [];
    assert Play([a]) == Step(Play([]), a);
    assert [p, q][1] == q && [p, q][0] == p;
  }
}
