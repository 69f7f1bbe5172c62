/** The createNote connector: every run of its Step attempts, with crashes, lost or reordered checkpoints and
    attempts that outlive their successors. */
module CreateNote {
  import opened Wrappers
  import opened SingleDispatchFence

  /** Where one attempt stands in createNote. A crashed attempt simply takes no further step. */
  datatype Progress =
    | Starting
    | ReadingBack(marker: Option<Marker>)
    | ResolvingCredential
    | ReadyToDispatch
    | ReadyToSend
    | Sending
    | Answered(status: int, providerID: string)
    | Ended(result: Result)

  datatype Result = Accepted(id: string) | Retry | Uncertain

  datatype Attempt = Attempt(fence: FenceState, progress: Progress)

  datatype Event = WriteStarted(writer: nat) | WriteAnswered(writer: nat, status: int)

  datatype Answer = Answer(writer: nat, status: int, providerID: string)

  /** attempts[k] is Dex attempt k + 1; written holds every heartbeat ever issued for this Step, and answers what the
      provider answered to its writes. */
  datatype System = System(attempts: seq<Attempt>, written: set<Marker>, trace: seq<Event>, answers: set<Answer>)

  datatype Action =
    | StartAttempt
    | Decide(k: nat, last: Heartbeat)
    | ReadBack(k: nat, found: Option<bool>)
    | ResolveCredential(k: nat, isResolved: bool, isAcknowledged: bool)
    | BeginDispatch(k: nat, hasTime: bool, isClaimAcknowledged: bool, isAcknowledged: bool)
    | BeginSend(k: nat)
    | RepeatClaim(k: nat)
    | ReceiveAnswer(k: nat, status: int, providerID: string)
    | FailSend(k: nat)
    | Conclude(k: nat, isAcknowledged: bool)

  const INITIAL := System([], {}, [], {})

  function Number(k: nat): int
  {
    k + 1
  }

  /** The provider statuses that mean the write was not processed. */
  predicate IsUnprocessed(status: int)
  {
    status == 429 || status == 503
  }

  /** The store may return no checkpoint, an unreadable one, anything this Step ever wrote in any order, or data
      that no fence of this call wrote. It cannot invent a well-formed checkpoint of this call. */
  predicate MayRead(callID: string, system: System, last: Heartbeat)
  {
    last.Present? ==>
      || last.marker in system.written
      || last.marker.callID != callID
      || last.marker.attempt < 1
      || last.marker.state == Unrecognized
  }

  function Update(system: System, k: nat, attempt: Attempt, written: seq<Marker>): System
    requires k < |system.attempts|
  {
    system.(attempts := system.attempts[k := attempt], written := system.written + Elements(written))
  }

  /** One step of attempt k, or of the server that starts the next attempt; a step that is not enabled
      changes nothing. */
  function Step(callID: string, system: System, action: Action): System
  {
    if action.StartAttempt? then
      system.(attempts := system.attempts + [Attempt(FRESH, Starting)])
    else if action.k >= |system.attempts| then
      system
    else
      var k, attempt := action.k, system.attempts[action.k];
      match action
      case Decide(_, last) =>
        if attempt.progress != Starting || !MayRead(callID, system, last) then system
        else
          var decision := DecisionFor(callID, Number(k), last);
          var progress := match decision.kind
            case FailClosed => Ended(Uncertain)
            case ReadBackRequired => ReadingBack(decision.marker)
            case SendAllowed => ResolvingCredential;
          Update(system, k, Attempt(attempt.fence.(decision := Some(decision)), progress), [])
      case ReadBack(_, found) =>
        if !attempt.progress.ReadingBack? then system
        else Update(system, k, attempt.(progress := Ended(ReadBackResult(callID, attempt.progress.marker, found))), [])
      case ResolveCredential(_, isResolved, isAcknowledged) =>
        if attempt.progress != ResolvingCredential then system
        else if isResolved then Update(system, k, attempt.(progress := ReadyToDispatch), [])
        else
          var effect := NotSentEffect(attempt.fence, callID, Number(k), isAcknowledged);
          Update(system, k, Attempt(effect.fence, Ended(Retry)), effect.written)
      case BeginDispatch(_, hasTime, isClaimAcknowledged, isAcknowledged) =>
        if attempt.progress != ReadyToDispatch then system
        else
          var effect := ClaimEffect(attempt.fence, callID, Number(k), hasTime, isClaimAcknowledged, isAcknowledged);
          var progress :=
            if effect.outcome == Done then ReadyToSend
            else if effect.outcome == CheckpointFailed || effect.outcome == InsufficientTime then Ended(Retry)
            else Ended(Uncertain);
          Update(system, k, Attempt(effect.fence, progress), effect.written)
      case BeginSend(_) =>
        if attempt.progress != ReadyToSend then system
        else Update(system, k, attempt.(progress := Sending), []).(trace := system.trace + [WriteStarted(k)])
      case RepeatClaim(_) =>
        var claim := Marker(callID, Number(k), Claimed, "");
        if attempt.progress != Sending || attempt.fence.marker != Some(claim) then system
        else Update(system, k, attempt, [claim])
      case ReceiveAnswer(_, status, providerID) =>
        if attempt.progress != Sending then system
        else Update(system, k, Attempt(attempt.fence.(hasSendFinished := true), Answered(status, providerID)), [])
             .(trace := system.trace + [WriteAnswered(k, status)],
               answers := system.answers + {Answer(k, status, providerID)})
      case FailSend(_) =>
        if attempt.progress != Sending then system
        else Update(system, k, Attempt(attempt.fence.(hasSendFinished := true), Ended(Uncertain)), [])
      case Conclude(_, isAcknowledged) =>
        if !attempt.progress.Answered? then system
        else Update(system, k, Conclusion(callID, k, attempt, isAcknowledged).0,
          Conclusion(callID, k, attempt, isAcknowledged).1)
  }

  function ReadBackResult(callID: string, marker: Option<Marker>, found: Option<bool>): Result
  {
    if marker.None? || marker.value.callID != callID || marker.value.providerID == "" then Uncertain
    else if found.None? then Retry
    else if found.value then Accepted(marker.value.providerID)
    else Uncertain
  }

  function Conclusion(callID: string, k: nat, attempt: Attempt, isAcknowledged: bool): (Attempt, seq<Marker>)
    requires attempt.progress.Answered?
  {
    var status, providerID := attempt.progress.status, attempt.progress.providerID;
    if IsUnprocessed(status) then
      var effect := CanResendEffect(attempt.fence, callID, Number(k), isAcknowledged);
      (Attempt(effect.fence, Ended(Retry)), effect.written)
    else if status != 201 || providerID == "" then
      (attempt.(progress := Ended(Uncertain)), [])
    else
      var effect := ProviderIDEffect(attempt.fence, callID, Number(k), providerID, isAcknowledged);
      (Attempt(effect.fence, Ended(Accepted(providerID))), effect.written)
  }

  function Run(callID: string, actions: seq<Action>): System
  {
    if actions == [] then INITIAL
    else Step(callID, Run(callID, actions[..|actions| - 1]), actions[|actions| - 1])
  }

  // ----- Safety -----

  /** No write starts after an earlier one unless the provider first answered that it did not process the
      earlier one. */
  ghost predicate NoUnsafeResend(trace: seq<Event>)
  {
    forall i, j ::
      0 <= i < j < |trace| && trace[i].WriteStarted? && trace[j].WriteStarted? ==> AnsweredBetween(trace, i, j)
  }

  ghost predicate AnsweredBetween(trace: seq<Event>, i: nat, j: nat)
    requires i < j < |trace|
  {
    exists answer :: i < answer < j && trace[answer].WriteAnswered? && trace[answer].writer == trace[i].writer &&
      IsUnprocessed(trace[answer].status)
  }

  /** A write that the provider may have processed. */
  ghost predicate MayHaveTakenEffect(trace: seq<Event>, k: nat)
  {
    && WriteStarted(k) in trace
    && forall status :: IsUnprocessed(status) ==> WriteAnswered(k, status) !in trace
  }

  // ----- The invariant -----

  predicate IsAllowed(attempt: Attempt)
  {
    attempt.fence.decision.Some? && attempt.fence.decision.value.kind == SendAllowed
  }

  /** Attempt k is over and left nothing that may take effect. */
  ghost predicate IsSettled(system: System, k: nat)
  {
    && k < |system.attempts|
    && system.attempts[k].progress.Ended?
    && !MayHaveTakenEffect(system.trace, k)
  }

  /** The fence fields agree with the place in createNote. */
  ghost predicate AttemptOK(callID: string, k: nat, attempt: Attempt)
  {
    var claim := Some(Marker(callID, Number(k), Claimed, ""));
    match attempt.progress
    case Starting => attempt.fence == FRESH
    case ReadingBack(_) => !IsAllowed(attempt)
    case ResolvingCredential | ReadyToDispatch => IsAllowed(attempt) && MaySend(attempt.fence)
    case ReadyToSend | Sending => IsAllowed(attempt) && attempt.fence.marker == claim
    case Answered(_, _) => IsAllowed(attempt) && attempt.fence.hasSendFinished && attempt.fence.marker == claim
    case Ended(_) => true
  }

  /** Attempt k writes only once, after its claim, and is answered only after it wrote. */
  ghost predicate WritesOK(system: System, k: nat)
  {
    && (WriteStarted(k) in system.trace ==> k < |system.attempts| && HasWritten(system.attempts[k]))
    && (forall status :: WriteAnswered(k, status) in system.trace ==> WriteStarted(k) in system.trace)
    && (k < |system.attempts| && system.attempts[k].progress.Sending? ==> WriteStarted(k) in system.trace)
    && (k < |system.attempts| && system.attempts[k].progress.Answered? ==>
          WriteAnswered(k, system.attempts[k].progress.status) in system.trace)
  }

  predicate HasWritten(attempt: Attempt)
  {
    IsAllowed(attempt) && (attempt.progress.Sending? || attempt.progress.Answered? || attempt.progress.Ended?)
  }

  /** A checkpoint comes from an allowed attempt, and one that permits a send from a settled attempt. */
  ghost predicate MarkerOK(callID: string, system: System, marker: Marker)
  {
    && marker.callID == callID
    && 1 <= marker.attempt <= |system.attempts|
    && IsAllowed(system.attempts[marker.attempt - 1])
    && (PermitsSend(marker) ==> IsSettled(system, marker.attempt - 1))
  }

  ghost predicate AllowedInOrder(system: System)
  {
    forall j, k :: 0 <= j < k < |system.attempts| && IsAllowed(system.attempts[k]) ==> IsSettled(system, j)
  }

  ghost predicate StartsBeforeAnswers(trace: seq<Event>)
  {
    forall i, j | 0 <= i < |trace| && 0 <= j < |trace| && trace[i].writer == trace[j].writer ::
      trace[i].WriteStarted? && trace[j].WriteAnswered? ==> i < j
  }

  ghost predicate Inv(callID: string, system: System)
  {
    && (forall k :: 0 <= k < |system.attempts| ==> AttemptOK(callID, k, system.attempts[k]))
    && (forall k: nat :: WritesOK(system, k))
    && (forall marker :: marker in system.written ==> MarkerOK(callID, system, marker))
    && AllowedInOrder(system)
    && StartsBeforeAnswers(system.trace)
    && NoUnsafeResend(system.trace)
  }

  // ----- Every step keeps the invariant -----

  /** What a step leaves alone: other attempts, and whatever it does not append. */
  lemma StepFrame(callID: string, system: System, action: Action)
    ensures var after := Step(callID, system, action);
      && |system.attempts| <= |after.attempts|
      && (action.StartAttempt? ==>
        after.attempts == system.attempts + [Attempt(FRESH, Starting)] && after.trace == system.trace &&
        after.written == system.written)
      && (!action.StartAttempt? ==> |after.attempts| == |system.attempts|)
      && (forall j :: 0 <= j < |system.attempts| && (action.StartAttempt? || j != action.k) ==>
        after.attempts[j] == system.attempts[j])
      && (after.trace == system.trace ||
          (!action.StartAttempt? && action.k < |system.attempts| && !system.attempts[action.k].progress.Ended? &&
           (after.trace == system.trace + [WriteStarted(action.k)] ||
            exists status :: after.trace == system.trace + [WriteAnswered(action.k, status)])))
  {
  }

  lemma EndedStaysEnded(callID: string, system: System, action: Action, j: nat)
    requires j < |system.attempts| && system.attempts[j].progress.Ended?
    ensures Step(callID, system, action).attempts[j] == system.attempts[j]
  {
    StepFrame(callID, system, action);
  }

  lemma AllowedStaysAllowed(callID: string, system: System, action: Action, j: nat)
    requires Inv(callID, system) && j < |system.attempts| && IsAllowed(system.attempts[j])
    ensures IsAllowed(Step(callID, system, action).attempts[j])
  {
    hide WritesOK, MarkerOK, AllowedInOrder, StartsBeforeAnswers, NoUnsafeResend;
    StepFrame(callID, system, action);
    assert AttemptOK(callID, j, system.attempts[j]);
  }

  lemma SettledStaysSettled(callID: string, system: System, action: Action, j: nat)
    requires IsSettled(system, j)
    ensures IsSettled(Step(callID, system, action), j)
  {
    hide Step;
    EndedStaysEnded(callID, system, action, j);
    StepFrame(callID, system, action);
  }

  lemma StepKeepsAttempts(callID: string, system: System, action: Action, k: nat)
    requires Inv(callID, system) && k < |Step(callID, system, action).attempts|
    ensures AttemptOK(callID, k, Step(callID, system, action).attempts[k])
  {
    hide WritesOK, MarkerOK, AllowedInOrder, StartsBeforeAnswers, NoUnsafeResend;
    StepFrame(callID, system, action);
    if k < |system.attempts| {
      assert AttemptOK(callID, k, system.attempts[k]);
    }
  }

  lemma StepKeepsWrites(callID: string, system: System, action: Action, k: nat)
    requires Inv(callID, system)
    ensures WritesOK(Step(callID, system, action), k)
  {
    hide MarkerOK, AllowedInOrder, StartsBeforeAnswers, NoUnsafeResend;
    StepFrame(callID, system, action);
    assert WritesOK(system, k);
    if k < |system.attempts| {
      assert AttemptOK(callID, k, system.attempts[k]);
    }
  }

  /** A checkpoint that the step writes comes from the stepping attempt, and permits a send only if it is settled. */
  lemma NewMarkerOK(callID: string, system: System, action: Action, marker: Marker)
    requires Inv(callID, system)
    requires marker in Step(callID, system, action).written && marker !in system.written
    ensures MarkerOK(callID, Step(callID, system, action), marker)
  {
    hide AllowedInOrder, StartsBeforeAnswers, NoUnsafeResend;
    var k := action.k;
    assert AttemptOK(callID, k, system.attempts[k]);
    assert WritesOK(system, k);
    var after := Step(callID, system, action);
    assert after.trace == system.trace;
    assert marker.attempt == Number(k) && IsAllowed(after.attempts[k]);
    if PermitsSend(marker) {
      assert after.attempts[k].progress.Ended?;
      assert WriteStarted(k) !in system.trace ||
        (system.attempts[k].progress.Answered? && IsUnprocessed(system.attempts[k].progress.status));
    }
  }

  lemma StepKeepsMarkers(callID: string, system: System, action: Action, marker: Marker)
    requires Inv(callID, system) && marker in Step(callID, system, action).written
    ensures MarkerOK(callID, Step(callID, system, action), marker)
  {
    hide Step, AttemptOK, WritesOK, AllowedInOrder, StartsBeforeAnswers, NoUnsafeResend, IsSettled;
    if marker in system.written {
      assert MarkerOK(callID, system, marker);
      StepFrame(callID, system, action);
      AllowedStaysAllowed(callID, system, action, marker.attempt - 1);
      if PermitsSend(marker) {
        SettledStaysSettled(callID, system, action, marker.attempt - 1);
      }
    } else {
      NewMarkerOK(callID, system, action, marker);
    }
  }

  /** An attempt becomes allowed to send only when every earlier attempt is settled. */
  lemma DecideAfterSettled(callID: string, system: System, k: nat, last: Heartbeat, j: nat)
    requires Inv(callID, system) && j < k < |system.attempts| && MayRead(callID, system, last)
    requires DecisionFor(callID, Number(k), last).kind == SendAllowed
    ensures IsSettled(system, j)
  {
    hide AttemptOK, WritesOK, StartsBeforeAnswers, NoUnsafeResend, IsSettled;
    assert last.marker in system.written;
    assert MarkerOK(callID, system, last.marker);
    assert last.marker.attempt - 1 == k - 1;
  }

  lemma StepKeepsOrder(callID: string, system: System, action: Action, j: nat, k: nat)
    requires Inv(callID, system) && j < k < |Step(callID, system, action).attempts|
    requires IsAllowed(Step(callID, system, action).attempts[k])
    ensures IsSettled(Step(callID, system, action), j)
  {
    hide WritesOK, MarkerOK, StartsBeforeAnswers, NoUnsafeResend, IsSettled, DecisionFor, MayRead;
    StepFrame(callID, system, action);
    assert k < |system.attempts|;
    assert AttemptOK(callID, k, system.attempts[k]);
    if !IsAllowed(system.attempts[k]) {
      assert action.Decide? && action.k == k;
      DecideAfterSettled(callID, system, k, action.last, j);
    }
    SettledStaysSettled(callID, system, action, j);
  }

  /** When attempt k starts its write, every earlier write was answered as unprocessed. */
  lemma EarlierWritesAnswered(callID: string, system: System, k: nat, i: nat)
    requires Inv(callID, system) && k < |system.attempts| && system.attempts[k].progress == ReadyToSend
    requires i < |system.trace| && system.trace[i].WriteStarted?
    ensures exists answer ::
      i < answer < |system.trace| && system.trace[answer].WriteAnswered? &&
      system.trace[answer].writer == system.trace[i].writer && IsUnprocessed(system.trace[answer].status)
  {
    hide MarkerOK, NoUnsafeResend;
    var a := system.trace[i].writer;
    assert system.trace[i] == WriteStarted(a) && WriteStarted(a) in system.trace;
    assert WritesOK(system, a) && WritesOK(system, k);
    assert AttemptOK(callID, k, system.attempts[k]);
    assert a > k ==> IsSettled(system, k);
    assert a < k;
    assert IsSettled(system, a);
    var status :| IsUnprocessed(status) && WriteAnswered(a, status) in system.trace;
    var answer :| 0 <= answer < |system.trace| && system.trace[answer] == WriteAnswered(a, status);
    assert i < answer;
  }

  lemma StepKeepsTrace(callID: string, system: System, action: Action)
    requires Inv(callID, system)
    ensures StartsBeforeAnswers(Step(callID, system, action).trace)
    ensures NoUnsafeResend(Step(callID, system, action).trace)
  {
    hide MarkerOK, AllowedInOrder;
    StepFrame(callID, system, action);
    var after := Step(callID, system, action);
    if after.trace != system.trace {
      var k := action.k;
      assert AttemptOK(callID, k, system.attempts[k]);
      assert WritesOK(system, k);
      assert system.trace == after.trace[..|system.trace|];
      if after.trace == system.trace + [WriteStarted(k)] {
        NewWriteIsSafe(callID, system, k);
      } else {
        NewAnswerIsSafe(system.trace, after.trace[|system.trace|]);
      }
    }
  }

  lemma NewAnswerIsSafe(trace: seq<Event>, answer: Event)
    requires answer.WriteAnswered? && StartsBeforeAnswers(trace) && NoUnsafeResend(trace)
    ensures StartsBeforeAnswers(trace + [answer]) && NoUnsafeResend(trace + [answer])
  {
    var longer := trace + [answer];
    forall i, j | 0 <= i < j < |longer| && longer[i].WriteStarted? && longer[j].WriteStarted?
      ensures AnsweredBetween(longer, i, j)
    {
      assert AnsweredBetween(trace, i, j);
      var between :| i < between < j && trace[between].WriteAnswered? && trace[between].writer == trace[i].writer &&
        IsUnprocessed(trace[between].status);
      assert longer[between] == trace[between];
    }
  }

  lemma NewWriteIsSafe(callID: string, system: System, k: nat)
    requires Inv(callID, system) && k < |system.attempts| && system.attempts[k].progress == ReadyToSend
    ensures StartsBeforeAnswers(system.trace + [WriteStarted(k)])
    ensures NoUnsafeResend(system.trace + [WriteStarted(k)])
  {
    hide MarkerOK, AllowedInOrder;
    var trace := system.trace;
    var longer := trace + [WriteStarted(k)];
    assert WritesOK(system, k);
    assert AttemptOK(callID, k, system.attempts[k]);
    assert WriteStarted(k) !in trace;
    forall j | 0 <= j < |longer| && longer[j].WriteAnswered? ensures longer[j].writer != k {
      assert longer[j] == WriteAnswered(longer[j].writer, longer[j].status) && longer[j] in trace;
    }
    forall i, j | 0 <= i < j < |longer| && longer[i].WriteStarted? && longer[j].WriteStarted?
      ensures AnsweredBetween(longer, i, j)
    {
      if j < |trace| {
        assert AnsweredBetween(trace, i, j);
        var between :| i < between < j && trace[between].WriteAnswered? && trace[between].writer == trace[i].writer &&
          IsUnprocessed(trace[between].status);
        assert longer[between] == trace[between];
      } else {
        EarlierWritesAnswered(callID, system, k, i);
        var between :| i < between < |trace| && trace[between].WriteAnswered? &&
          trace[between].writer == trace[i].writer && IsUnprocessed(trace[between].status);
        assert longer[between] == trace[between];
      }
    }
  }

  lemma StepKeepsInv(callID: string, system: System, action: Action)
    requires Inv(callID, system)
    ensures Inv(callID, Step(callID, system, action))
  {
    hide Step, AttemptOK, WritesOK, MarkerOK, StartsBeforeAnswers, NoUnsafeResend, IsSettled, IsAllowed;
    var after := Step(callID, system, action);
    forall k | 0 <= k < |after.attempts| ensures AttemptOK(callID, k, after.attempts[k]) {
      StepKeepsAttempts(callID, system, action, k);
    }
    forall k: nat ensures WritesOK(after, k) {
      StepKeepsWrites(callID, system, action, k);
    }
    forall marker | marker in after.written ensures MarkerOK(callID, after, marker) {
      StepKeepsMarkers(callID, system, action, marker);
    }
    forall j, k | 0 <= j < k < |after.attempts| && IsAllowed(after.attempts[k]) ensures IsSettled(after, j) {
      StepKeepsOrder(callID, system, action, j, k);
    }
    StepKeepsTrace(callID, system, action);
  }

  lemma {:induction false} RunKeepsInv(callID: string, actions: seq<Action>)
    ensures Inv(callID, Run(callID, actions))
  {
    if actions == [] {
    } else {
      RunKeepsInv(callID, actions[..|actions| - 1]);
      hide Inv, Step;
      StepKeepsInv(callID, Run(callID, actions[..|actions| - 1]), actions[|actions| - 1]);
    }
  }

  // ----- Main results -----

  /** In every run, no write follows one that may have been processed. */
  lemma NeverResendsUnsafely(callID: string, actions: seq<Action>)
    ensures NoUnsafeResend(Run(callID, actions).trace)
  {
    RunKeepsInv(callID, actions);
  }

  lemma AnsweredHasNoEffect(trace: seq<Event>, i: nat, j: nat)
    requires i < j < |trace| && trace[i].WriteStarted? && AnsweredBetween(trace, i, j)
    ensures !MayHaveTakenEffect(trace, trace[i].writer)
  {
    var answer :| i < answer < j && trace[answer].WriteAnswered? && trace[answer].writer == trace[i].writer &&
      IsUnprocessed(trace[answer].status);
    assert trace[answer] == WriteAnswered(trace[i].writer, trace[answer].status) && trace[answer] in trace;
  }

  /** In every run, at most one attempt's write may have taken effect. */
  lemma AtMostOneEffect(callID: string, actions: seq<Action>, left: nat, right: nat)
    ensures var trace := Run(callID, actions).trace;
      MayHaveTakenEffect(trace, left) && MayHaveTakenEffect(trace, right) ==> left == right
  {
    RunKeepsInv(callID, actions);
    var trace := Run(callID, actions).trace;
    assert NoUnsafeResend(trace);
    hide Run, Inv;
    if left != right && WriteStarted(left) in trace && WriteStarted(right) in trace {
      var i :| 0 <= i < |trace| && trace[i] == WriteStarted(left);
      var j :| 0 <= j < |trace| && trace[j] == WriteStarted(right);
      if i < j {
        AnsweredHasNoEffect(trace, i, j);
      } else {
        AnsweredHasNoEffect(trace, j, i);
      }
    }
  }

  /** The fence is not merely closed: a recorded proof of the latest attempt lets the next attempt send. */
  lemma ProofReopensSend(callID: string, actions: seq<Action>, marker: Marker)
    requires callID != "" && marker in Run(callID, actions).written && PermitsSend(marker)
    requires marker.attempt == |Run(callID, actions).attempts|
    ensures var next := Run(callID, actions + [StartAttempt, Decide(marker.attempt, Present(marker))]);
      |next.attempts| == marker.attempt + 1 && next.attempts[marker.attempt].progress == ResolvingCredential
  {
    RunKeepsInv(callID, actions);
    var system := Run(callID, actions);
    assert MarkerOK(callID, system, marker);
    hide Inv, Run;
    RunExtends(callID, actions, StartAttempt);
    RunExtends(callID, actions + [StartAttempt], Decide(marker.attempt, Present(marker)));
    assert actions + [StartAttempt] + [Decide(marker.attempt, Present(marker))] ==
      actions + [StartAttempt, Decide(marker.attempt, Present(marker))];
  }

  lemma RunExtends(callID: string, actions: seq<Action>, action: Action)
    ensures Run(callID, actions + [action]) == Step(callID, Run(callID, actions), action)
  {
    assert (actions + [action])[..|actions|] == actions;
  }
}
