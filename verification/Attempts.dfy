/** One authorized execution of a work order, over every sequence of events, crashes included. */
module Attempt {

  datatype State = Pending | Claimed | Running | Succeeded | Failed | Ambiguous | Cancelled

  datatype Event = Claim | Start | Succeed | Fail | MarkAmbiguous | Cancel | RecoverAfterCrash

  datatype Result = Ok(state: State) | AlreadyTerminal(at: State) | Invalid(from: State, event: Event)

  predicate Terminal(s: State) { s.Succeeded? || s.Failed? || s.Ambiguous? || s.Cancelled? }

  function Next(s: State, e: Event): Result {
    if Terminal(s) then AlreadyTerminal(s)
    else
      match (s, e)
      case (Pending, Claim) => Ok(Claimed)
      case (Claimed, Start) => Ok(Running)
      case (Running, Succeed) => Ok(Succeeded)
      case (Running, Fail) => Ok(Failed)
      case (Claimed, MarkAmbiguous) => Ok(Ambiguous)
      case (Running, MarkAmbiguous) => Ok(Ambiguous)
      case (Claimed, RecoverAfterCrash) => Ok(Ambiguous)
      case (Running, RecoverAfterCrash) => Ok(Ambiguous)
      case (Pending, Cancel) => Ok(Cancelled)
      case (Claimed, Cancel) => Ok(Cancelled)
      case (Running, Cancel) => Ok(Ambiguous)
      case _ => Invalid(s, e)
  }

  /** The state after a run, and the events that were accepted, in order. */
  datatype Attempt = Attempt(state: State, accepted: seq<Event>)

  function Apply(a: Attempt, e: Event): Attempt {
    match Next(a.state, e)
    case Ok(s) => Attempt(s, a.accepted + [e])
    case _ => a
  }

  function Run(events: seq<Event>): Attempt {
    if events == [] then Attempt(Pending, []) else Apply(Run(events[..|events| - 1]), events[|events| - 1])
  }

  /** The accepted histories that lead to each state. */
  predicate Leads(accepted: seq<Event>, s: State) {
    match s
    case Pending => accepted == []
    case Claimed => accepted == [Claim]
    case Running => accepted == [Claim, Start]
    case Succeeded => accepted == [Claim, Start, Succeed]
    case Failed => accepted == [Claim, Start, Fail]
    case Cancelled => accepted == [Cancel] || accepted == [Claim, Cancel]
    case Ambiguous =>
      || accepted == [Claim, MarkAmbiguous] || accepted == [Claim, RecoverAfterCrash]
      || accepted == [Claim, Start, MarkAmbiguous] || accepted == [Claim, Start, RecoverAfterCrash]
      || accepted == [Claim, Start, Cancel]
  }

  /** However many events arrive, in whatever order, the accepted ones form one of twelve histories,
      each tied to its state. */
  lemma {:induction false} EveryRunIsKnown(events: seq<Event>)
    ensures Leads(Run(events).accepted, Run(events).state)
  {
    if events != [] {
      EveryRunIsKnown(events[..|events| - 1]);
    }
  }

  lemma StateBefore(accepted: seq<Event>, s: State) returns (before: State)
    requires Leads(accepted, s) && accepted != []
    ensures Leads(accepted[..|accepted| - 1], before) && Next(before, accepted[|accepted| - 1]) == Ok(s)
  {
    var init := accepted[..|accepted| - 1];
    if |accepted| == 1 {
      before := Pending;
    } else if |accepted| == 2 {
      before := Claimed;
      assert init == [accepted[0]];
    } else {
      before := Running;
      assert init == [accepted[0], accepted[1]];
    }
  }

  lemma RunAppends(prior: seq<Event>, before: State, e: Event, s: State)
    requires Run(prior) == Attempt(before, prior) && Next(before, e) == Ok(s)
    ensures Run(prior + [e]) == Attempt(s, prior + [e])
  {
    assert (prior + [e])[..|prior|] == prior;
  }

  /** `e` takes some state after `prior` to `s`. */
  ghost predicate Grows(leads: (seq<Event>, State) -> bool, prior: seq<Event>, e: Event, s: State) {
    exists before :: leads(prior, before) && Next(before, e) == Ok(s)
  }

  lemma {:induction false} HistoryHappens(leads: (seq<Event>, State) -> bool, accepted: seq<Event>, s: State)
    requires forall a, t :: leads(a, t) ==> if a == [] then t == Pending else Grows(leads, a[..|a| - 1], a[|a| - 1], t)
    requires leads(accepted, s)
    ensures Run(accepted) == Attempt(s, accepted)
  {
    if accepted != [] {
      var n := |accepted| - 1;
      var before :| leads(accepted[..n], before) && Next(before, accepted[n]) == Ok(s);
      HistoryHappens(leads, accepted[..n], before);
      RunAppends(accepted[..n], before, accepted[n], s);
      assert accepted[..n] + [accepted[n]] == accepted;
    }
  }

  /** Every one of those histories does happen, and leads where it is said to lead. */
  lemma EveryHistoryHappens(accepted: seq<Event>, s: State)
    requires Leads(accepted, s)
    ensures Run(accepted) == Attempt(s, accepted)
  {
    forall a, t | Leads(a, t) && a != [] ensures Grows(Leads, a[..|a| - 1], a[|a| - 1], t) {
      var before := StateBefore(a, t);
    }
    HistoryHappens(Leads, accepted, s);
  }

  /** The claim and the start happen at most once; success means exactly one of each and no recovery;
      a clean cancel means execution never started. */
  lemma AtMostOnce(events: seq<Event>)
    ensures var a := Run(events);
      && multiset(a.accepted)[Claim] <= 1 && multiset(a.accepted)[Start] <= 1
      && (a.state.Succeeded? <==> a.accepted == [Claim, Start, Succeed])
      && (a.state.Cancelled? ==> Start !in a.accepted)
      && (Start in a.accepted ==> [Claim, Start] <= a.accepted)
  {
    EveryRunIsKnown(events);
    var a := Run(events);
    assert a.state.Cancelled? ==> Start !in a.accepted;
  }

  function Rank(s: State): nat {
    match s case Pending => 3 case Claimed => 2 case Running => 1 case _ => 0
  }

  /** Every accepted event uses the attempt up; nothing returns to an earlier state. */
  lemma AcceptedEventsDescend(s: State, e: Event)
    requires Next(s, e).Ok?
    ensures Rank(Next(s, e).state) < Rank(s)
  {
  }

  /** A finished attempt stays finished, whatever else arrives. */
  lemma {:induction false} TerminalIsFinal(events: seq<Event>, more: seq<Event>)
    requires Terminal(Run(events).state)
    ensures Run(events + more) == Run(events)
  {
    if more == [] {
      assert events + more == events;
    } else {
      TerminalIsFinal(events, more[..|more| - 1]);
      assert (events + more)[..|events + more| - 1] == events + more[..|more| - 1];
    }
  }

  /** A crash found by recovery never leads back to work: after the claim it is ambiguous for good,
      before the claim nothing had happened. */
  lemma CrashIsHonest(events: seq<Event>, more: seq<Event>)
    requires !Terminal(Run(events).state)
    ensures var crashed := events + [RecoverAfterCrash];
      if Run(events).state.Pending? then Run(crashed) == Run(events) && Run(events).accepted == []
      else Run(crashed + more).state == Ambiguous
  {
    var crashed := events + [RecoverAfterCrash];
    assert crashed[..|crashed| - 1] == events;
    EveryRunIsKnown(events);
    if !Run(events).state.Pending? {
      TerminalIsFinal(crashed, more);
    }
  }
}

/** One processor call, with the bytes that leave while it is dispatching. */
module SubAttempt {

  datatype State = Prepared | Dispatching | Completed | Failed | Ambiguous | Cancelled

  datatype Event = Dispatch | Complete | Fail | MarkAmbiguous | Cancel | RecoverAfterCrash

  datatype Result = Ok(state: State) | AlreadyTerminal(at: State) | Invalid(from: State, event: Event)

  predicate Terminal(s: State) { s.Completed? || s.Failed? || s.Ambiguous? || s.Cancelled? }

  function Next(s: State, e: Event): Result {
    if Terminal(s) then AlreadyTerminal(s)
    else
      match (s, e)
      case (Prepared, Dispatch) => Ok(Dispatching)
      case (Dispatching, Complete) => Ok(Completed)
      case (Dispatching, Fail) => Ok(Failed)
      case (Dispatching, MarkAmbiguous) => Ok(Ambiguous)
      case (Prepared, Cancel) => Ok(Cancelled)
      case (Dispatching, Cancel) => Ok(Ambiguous)
      case (Dispatching, RecoverAfterCrash) => Ok(Ambiguous)
      case _ => Invalid(s, e)
  }

  /** An event for the machine, or the broker trying to put a byte on the wire. */
  datatype Action = Drive(event: Event) | Transmit

  datatype Call = Call(state: State, accepted: seq<Event>, sent: nat)

  /** Bytes leave only while the durable record says `Dispatching`. */
  function Act(c: Call, a: Action): Call {
    match a
    case Transmit => if c.state.Dispatching? then c.(sent := c.sent + 1) else c
    case Drive(e) =>
      (match Next(c.state, e)
       case Ok(s) => Call(s, c.accepted + [e], c.sent)
       case _ => c)
  }

  function Run(actions: seq<Action>): Call {
    if actions == [] then Call(Prepared, [], 0) else Act(Run(actions[..|actions| - 1]), actions[|actions| - 1])
  }

  predicate Leads(accepted: seq<Event>, s: State) {
    match s
    case Prepared => accepted == []
    case Dispatching => accepted == [Dispatch]
    case Completed => accepted == [Dispatch, Complete]
    case Failed => accepted == [Dispatch, Fail]
    case Cancelled => accepted == [Cancel]
    case Ambiguous =>
      accepted == [Dispatch, MarkAmbiguous] || accepted == [Dispatch, Cancel] ||
        accepted == [Dispatch, RecoverAfterCrash]
  }

  /** Over every run: the accepted events form one of eight histories, and a call that is still
      prepared or cleanly cancelled has disclosed nothing. */
  lemma {:induction false} EveryCallIsKnown(actions: seq<Action>)
    ensures var c := Run(actions);
      && Leads(c.accepted, c.state)
      && (c.state.Prepared? || c.state.Cancelled? ==> c.sent == 0)
      && (c.sent > 0 ==> c.accepted != [] && c.accepted[0] == Dispatch)
  {
    if actions != [] {
      EveryCallIsKnown(actions[..|actions| - 1]);
    }
  }

  lemma StateBefore(accepted: seq<Event>, s: State) returns (before: State)
    requires Leads(accepted, s) && accepted != []
    ensures Leads(accepted[..|accepted| - 1], before) && Next(before, accepted[|accepted| - 1]) == Ok(s)
  {
    before := if |accepted| == 1 then Prepared else Dispatching;
    assert |accepted| == 2 ==> accepted[..1] == [accepted[0]];
  }

  function Drives(events: seq<Event>): seq<Action> {
    seq(|events|, i requires 0 <= i < |events| => Drive(events[i]))
  }

  /** Every one of those histories does happen, and leads where it is said to lead. */
  lemma {:induction false} EveryHistoryHappens(accepted: seq<Event>, s: State)
    requires Leads(accepted, s)
    ensures Run(Drives(accepted)) == Call(s, accepted, 0)
  {
    if accepted != [] {
      var n := |accepted| - 1;
      var before := StateBefore(accepted, s);
      EveryHistoryHappens(accepted[..n], before);
      assert Drives(accepted)[..n] == Drives(accepted[..n]);
      assert accepted[..n] + [accepted[n]] == accepted;
    }
  }

  /** A call is dispatched at most once, and before any byte leaves. */
  lemma DispatchedAtMostOnce(actions: seq<Action>)
    ensures multiset(Run(actions).accepted)[Dispatch] <= 1
    ensures Run(actions).sent > 0 ==> multiset(Run(actions).accepted)[Dispatch] == 1
  {
    EveryCallIsKnown(actions);
  }

  /** After the end of a call no event is accepted and no byte leaves any more. */
  lemma {:induction false} NothingLeavesAfterTheEnd(actions: seq<Action>, more: seq<Action>)
    requires Terminal(Run(actions).state)
    ensures var c, d := Run(actions), Run(actions + more);
      d.sent == c.sent && d.accepted == c.accepted && d.state == c.state
  {
    if more == [] {
      assert actions + more == actions;
    } else {
      NothingLeavesAfterTheEnd(actions, more[..|more| - 1]);
      assert (actions + more)[..|actions + more| - 1] == actions + more[..|more| - 1];
    }
  }

  /** Action `i` is the one that put the call in dispatch. */
  predicate DispatchedAt(actions: seq<Action>, i: nat) {
    i < |actions| && actions[i] == Drive(Dispatch) && Run(actions[..i]).state.Prepared?
  }

  /** No byte is offered strictly between two actions. */
  predicate Quiet(actions: seq<Action>, i: nat, j: nat) {
    forall k :: i < k < j && k < |actions| ==> actions[k] != Transmit
  }

  /** While dispatching, what was sent is what was offered since the dispatch. */
  lemma {:induction false} DispatchIsFound(actions: seq<Action>) returns (i: nat)
    requires Run(actions).state.Dispatching?
    ensures DispatchedAt(actions, i)
    ensures Run(actions).sent == 0 <==> Quiet(actions, i, |actions|)
  {
    var n := |actions| - 1;
    var before := actions[..n];
    EveryCallIsKnown(before);
    if Run(before).state.Dispatching? {
      i := DispatchIsFound(before);
      assert before[..i] == actions[..i];
      assert forall k :: 0 <= k < n ==> before[k] == actions[k];
      if actions[n] == Transmit {
        assert !Quiet(actions, i, |actions|);
      }
    } else {
      i := n;
    }
  }

  /** `Failed` promises that nothing was transmitted. Over every run that ends failed there is the
      action that dispatched the call and the one that reported the failure, and the promise is kept
      exactly when the broker offered no byte between the two. */
  lemma {:induction false} FailureIsCleanExactly(actions: seq<Action>) returns (i: nat, j: nat)
    requires Run(actions).state.Failed?
    ensures i < j < |actions| && DispatchedAt(actions, i)
    ensures actions[j] == Drive(Fail) && Run(actions[..j]).state.Dispatching?
    ensures Run(actions).sent == 0 <==> Quiet(actions, i, j)
  {
    var n := |actions| - 1;
    var before := actions[..n];
    assert forall k :: 0 <= k < n ==> before[k] == actions[k];
    if Run(before).state.Failed? {
      i, j := FailureIsCleanExactly(before);
      assert before[..i] == actions[..i] && before[..j] == actions[..j];
    } else {
      j := n;
      i := DispatchIsFound(before);
      assert before[..i] == actions[..i];
    }
  }

  /** A run that ends `Failed` after a byte has left. */
  lemma FailureMayFollowATransmission()
    ensures var c := Run([Drive(Dispatch), Transmit, Drive(Fail)]);
      c.state.Failed? && c.sent == 1
  {
    var a, b, d := Drive(Dispatch), Transmit, Drive(Fail);
    assert [a, b, d][..2] == [a, b] && [a, b][..1] == [a] && [a][..0] == [];
    assert Run([a]) == Act(Run([]), a);
    assert Run([a, b]) == Act(Run([a]), b);
  }
}
