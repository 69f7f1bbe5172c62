/** createNote makes progress: exactly which attempts may send, what an attempt leaves for the next one, and how a call
    that meets no trouble ends. */
module CreateNoteProgress {
  import opened Wrappers
  import opened SingleDispatchFence
  import opened CreateNote

  // ----- A permitted attempt can finish -----

  function Advance(callID: string, system: System, actions: seq<Action>): System
    decreases |actions|
  {
    if actions == [] then system else Advance(callID, Step(callID, system, actions[0]), actions[1..])
  }

  lemma {:induction false} RunAdvances(callID: string, actions: seq<Action>, more: seq<Action>)
    ensures Run(callID, actions + more) == Advance(callID, Run(callID, actions), more)
    decreases |more|
  {
    hide Step;
    if more == [] {
      assert actions + more == actions;
    } else {
      RunExtends(callID, actions, more[0]);
      RunAdvances(callID, actions + [more[0]], more[1..]);
      assert (actions + [more[0]]) + more[1..] == actions + more;
    }
  }

  /** The remaining steps of attempt k when nothing goes wrong. */
  function Remaining(k: nat, id: string): seq<Action>
  {
    [ResolveCredential(k, true, true), BeginDispatch(k, true, true, true), BeginSend(k), ReceiveAnswer(k, 201, id),
      Conclude(k, true)]
  }

  lemma AdvanceStep(callID: string, system: System, action: Action, rest: seq<Action>)
    ensures Advance(callID, system, [action] + rest) == Advance(callID, Step(callID, system, action), rest)
  {
    assert ([action] + rest)[1..] == rest;
  }

  /** From every reachable state, an attempt that may send ends with the identity that the provider gives it. */
  lemma PermittedAttemptCanAccept(callID: string, actions: seq<Action>, k: nat, id: string)
    requires id != "" && k < |Run(callID, actions).attempts| &&
      Run(callID, actions).attempts[k].progress == ResolvingCredential
    ensures var after := Run(callID, actions + Remaining(k, id));
      k < |after.attempts| && after.attempts[k].progress == Ended(Accepted(id)) && WriteStarted(k) in after.trace
  {
    var start := Run(callID, actions);
    RunKeepsInv(callID, actions);
    assert AttemptOK(callID, k, start.attempts[k]);
    RunAdvances(callID, actions, Remaining(k, id));
    RemainingEndsAt(callID, start, k, id);
    hide Inv, Run, Advance, Step, AttemptOK;
    DispatchIsReached(callID, start, k);
    var claimed :=
      Step(callID, Step(callID, start, ResolveCredential(k, true, true)), BeginDispatch(k, true, true, true));
    SendIsReached(callID, claimed, k);
    AnswerIsAccepted(callID, Step(callID, claimed, BeginSend(k)), k, id);
  }

  lemma DispatchIsReached(callID: string, system: System, k: nat)
    requires k < |system.attempts| && system.attempts[k].progress == ResolvingCredential &&
      AttemptOK(callID, k, system.attempts[k])
    ensures var after :=
      Step(callID, Step(callID, system, ResolveCredential(k, true, true)), BeginDispatch(k, true, true, true));
      k < |after.attempts| && after.attempts[k].progress == ReadyToSend
  {
    var resolved := Step(callID, system, ResolveCredential(k, true, true));
    assert resolved.attempts[k] == system.attempts[k].(progress := ReadyToDispatch);
  }

  lemma SendIsReached(callID: string, system: System, k: nat)
    requires k < |system.attempts| && system.attempts[k].progress == ReadyToSend
    ensures var after := Step(callID, system, BeginSend(k));
      k < |after.attempts| && after.attempts[k].progress == Sending && WriteStarted(k) in after.trace
  {
  }

  lemma AnswerIsAccepted(callID: string, system: System, k: nat, id: string)
    requires id != "" && k < |system.attempts| && system.attempts[k].progress == Sending &&
      WriteStarted(k) in system.trace
    ensures var after := Step(callID, Step(callID, system, ReceiveAnswer(k, 201, id)), Conclude(k, true));
      k < |after.attempts| && after.attempts[k].progress == Ended(Accepted(id)) && WriteStarted(k) in after.trace
  {
    var answered := Step(callID, system, ReceiveAnswer(k, 201, id));
    assert answered.attempts[k].progress == Answered(201, id) && WriteStarted(k) in answered.trace;
  }

  lemma RemainingEndsAt(callID: string, system: System, k: nat, id: string)
    ensures Advance(callID, system, Remaining(k, id)) ==
      Step(callID, Step(callID, Step(callID, Step(callID, Step(callID, system,
        ResolveCredential(k, true, true)), BeginDispatch(k, true, true, true)), BeginSend(k)),
          ReceiveAnswer(k, 201, id)), Conclude(k, true))
  {
    hide Step;
    var all := Remaining(k, id);
    AdvanceStep(callID, system, all[0], all[1..]);
    var one := Step(callID, system, all[0]);
    AdvanceStep(callID, one, all[1], all[2..]);
    var two := Step(callID, one, all[1]);
    AdvanceStep(callID, two, all[2], all[3..]);
    var three := Step(callID, two, all[2]);
    AdvanceStep(callID, three, all[3], all[4..]);
    var four := Step(callID, three, all[3]);
    AdvanceStep(callID, four, all[4], []);
    assert all == [all[0]] + all[1..] && all[1..] == [all[1]] + all[2..] && all[2..] == [all[2]] + all[3..];
    assert all[3..] == [all[3]] + all[4..] && all[4..] == [all[4]] + [];
  }

  // ----- Who may send -----

  lemma DecideStep(callID: string, actions: seq<Action>, k: nat, last: Heartbeat)
    requires k < |Run(callID, actions).attempts|
    ensures Run(callID, actions + [Decide(k, last)]) == Step(callID, Run(callID, actions), Decide(k, last))
    ensures k < |Run(callID, actions + [Decide(k, last)]).attempts|
  {
    hide Run;
    RunExtends(callID, actions, Decide(k, last));
  }

  /** In every run, a deciding attempt goes on to send exactly when it is the first one and finds no checkpoint,
    or finds
      this call's proof, from the attempt before it, that nothing was processed. It ends uncertain exactly on a
      checkpoint that it cannot read or that no fence of this call wrote, and otherwise reads back. */
  lemma DecisionIsExact(callID: string, actions: seq<Action>, k: nat, last: Heartbeat)
    requires callID != "" && k < |Run(callID, actions).attempts| &&
      Run(callID, actions).attempts[k].progress == Starting
    requires MayRead(callID, Run(callID, actions), last)
    ensures k < |Run(callID, actions + [Decide(k, last)]).attempts|
    ensures var progress := Run(callID, actions + [Decide(k, last)]).attempts[k].progress;
      && (progress == ResolvingCredential <==>
            || (k == 0 && last == Absent)
            || (k > 0 && last in {Present(Marker(callID, k, NotSent, "")), Present(Marker(callID, k, CanResend, ""))}))
      && (progress == Ended(Uncertain) <==>
            || last == Unreadable
            || (last.Present? &&
              (last.marker.callID != callID || last.marker.attempt < 1 || last.marker.state == Unrecognized)))
      && (progress != ResolvingCredential && progress != Ended(Uncertain) ==>
            progress == ReadingBack(if last.Present? then Some(last.marker) else None))
  {
    DecideStep(callID, actions, k, last);
    hide Run;
  }

  /** The first attempt of every call may send. */
  lemma FirstAttemptMaySend(callID: string)
    requires callID != ""
    ensures var system := Run(callID, [StartAttempt, Decide(0, Absent)]);
      |system.attempts| == 1 && system.attempts[0].progress == ResolvingCredential
  {
    var none: seq<Action> := [];
    RunExtends(callID, none, StartAttempt);
    assert none + [StartAttempt] == [StartAttempt];
    assert Run(callID, [StartAttempt]).attempts == [Attempt(FRESH, Starting)];
    DecisionIsExact(callID, [StartAttempt], 0, Absent);
    DecideStep(callID, [StartAttempt], 0, Absent);
    StepFrame(callID, Run(callID, [StartAttempt]), Decide(0, Absent));
    assert [StartAttempt] + [Decide(0, Absent)] == [StartAttempt, Decide(0, Absent)];
  }

  /** So a call that meets no trouble writes once and is accepted. */
  lemma UndisturbedCallIsAccepted(callID: string, id: string)
    requires callID != "" && id != ""
    ensures var system := Run(callID, [StartAttempt, Decide(0, Absent)] + Remaining(0, id));
      |system.attempts| > 0 && system.attempts[0].progress == Ended(Accepted(id)) && WriteStarted(0) in system.trace
  {
    hide Run, Remaining;
    FirstAttemptMaySend(callID);
    PermittedAttemptCanAccept(callID, [StartAttempt, Decide(0, Absent)], 0, id);
  }

  // ----- What the checkpoints of an attempt are -----

  /** An attempt that fails before its write, or whose write was not processed, leaves proof of that,
    as far as the store
      acknowledges it or not, and asks for a retry. */
  lemma RetryWritesProof(callID: string, system: System, k: nat, action: Action, isAcknowledged: bool)
    requires k < |system.attempts| && AttemptOK(callID, k, system.attempts[k])
    requires
      || (system.attempts[k].progress == ResolvingCredential && action == ResolveCredential(k, false, isAcknowledged))
      || (system.attempts[k].progress == ReadyToDispatch &&
          (action == BeginDispatch(k, false, true, isAcknowledged) ||
            action == BeginDispatch(k, true, false, isAcknowledged)))
      || (system.attempts[k].progress.Answered? && system.attempts[k].progress.status in {429, 503} &&
          action == Conclude(k, isAcknowledged))
    ensures var after := Step(callID, system, action);
      && k < |after.attempts| && after.attempts[k].progress == Ended(Retry)
      && Marker(callID, k + 1, if system.attempts[k].progress.Answered? then CanResend
        else NotSent, "") in after.written
  {
  }

  /** And with that proof the next attempt may send. */
  lemma ProvenRetryReopens(callID: string, actions: seq<Action>, k: nat, action: Action, isAcknowledged: bool)
    requires callID != "" && |Run(callID, actions).attempts| == k + 1
    requires var progress := Run(callID, actions).attempts[k].progress;
      || (progress == ResolvingCredential && action == ResolveCredential(k, false, isAcknowledged))
      || (progress == ReadyToDispatch &&
          (action == BeginDispatch(k, false, true, isAcknowledged) ||
            action == BeginDispatch(k, true, false, isAcknowledged)))
      || (progress.Answered? && progress.status in {429, 503} && action == Conclude(k, isAcknowledged))
    ensures var isAnswered := Run(callID, actions).attempts[k].progress.Answered?;
      var proof := Marker(callID, k + 1, if isAnswered then CanResend else NotSent, "");
      var next := Run(callID, (actions + [action]) + [StartAttempt, Decide(k + 1, Present(proof))]);
      |next.attempts| == k + 2 && next.attempts[k + 1].progress == ResolvingCredential
  {
    var system := Run(callID, actions);
    RunKeepsInv(callID, actions);
    assert AttemptOK(callID, k, system.attempts[k]);
    RetryWritesProof(callID, system, k, action, isAcknowledged);
    RunExtends(callID, actions, action);
    StepFrame(callID, system, action);
    hide Run, Step;
    var proof := Marker(callID, k + 1, if system.attempts[k].progress.Answered? then CanResend else NotSent, "");
    ProofReopensSend(callID, actions + [action], proof);
  }

  /** A read-back accepts exactly when the provider finds the note whose identity the checkpoint holds. */
  lemma ReadBackAcceptsIffFound(callID: string, system: System, k: nat, found: Option<bool>)
    requires k < |system.attempts| && system.attempts[k].progress.ReadingBack?
    ensures var marker, after := system.attempts[k].progress.marker, Step(callID, system, ReadBack(k, found));
      var hasID := marker.Some? && marker.value.callID == callID && marker.value.providerID != "";
      && k < |after.attempts| && after.attempts[k].progress.Ended?
      && (after.attempts[k].progress.result.Accepted? <==> hasID && found == Some(true))
      && (after.attempts[k].progress.result.Accepted? ==>
        after.attempts[k].progress.result.id == marker.value.providerID)
      && (after.attempts[k].progress.result == Retry <==> hasID && found == None)
  {
  }

  /** A processed write is accepted exactly for status 201 with an identity, which is then checkpointed. */
  lemma AnswerAcceptsIffCreated(callID: string, system: System, k: nat, isAcknowledged: bool)
    requires k < |system.attempts| && system.attempts[k].progress.Answered? && AttemptOK(callID, k, system.attempts[k])
    ensures var progress, after := system.attempts[k].progress, Step(callID, system, Conclude(k, isAcknowledged));
      && k < |after.attempts| && after.attempts[k].progress.Ended?
      && (after.attempts[k].progress.result.Accepted? <==> progress.status == 201 && progress.providerID != "")
      && (after.attempts[k].progress.result.Accepted? ==>
            && after.attempts[k].progress.result.id == progress.providerID
            && Marker(callID, k + 1, Claimed, progress.providerID) in after.written)
      && (after.attempts[k].progress.result == Retry <==> progress.status in {429, 503})
  {
  }
}
