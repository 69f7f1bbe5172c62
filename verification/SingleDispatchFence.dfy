/** The fence that lets one Step call perform at most one provider write that may take effect. */
module SingleDispatchFence {
  import opened Wrappers

  /** Unrecognized stands for any state text that no fence writes. */
  datatype State = NotSent | Claimed | CanResend | Unrecognized

  datatype Marker = Marker(callID: string, attempt: int, state: State, providerID: string)

  /** What GetLastHeartbeatValue returns. */
  datatype Heartbeat = Unreadable | Absent | Present(marker: Marker)

  datatype DecisionKind = SendAllowed | ReadBackRequired | FailClosed

  datatype Decision = Decision(kind: DecisionKind, marker: Option<Marker>)

  datatype Outcome = Done | DispatchNotAllowed | InsufficientTime | CheckpointFailed | HeartbeatFailed

  /** The fields of one Fence that its methods change. */
  datatype FenceState = FenceState(
    decision: Option<Decision>, hasDispatched: bool, hasSendFinished: bool, hasPreSendRetry: bool,
      marker: Option<Marker>)

  /** One fence call: the new fields, its result, and the heartbeats it wrote, acknowledged or not. */
  datatype Effect = Effect(fence: FenceState, outcome: Outcome, written: seq<Marker>)

  const FRESH := FenceState(None, false, false, false, None)

  predicate MaySend(fence: FenceState)
  {
    fence.decision.Some? && fence.decision.value.kind == SendAllowed && !fence.hasDispatched && !fence.hasPreSendRetry
  }

  predicate PermitsSend(marker: Marker)
  {
    (marker.state == NotSent || marker.state == CanResend) && marker.providerID == ""
  }

  // ----- The meaning of each method -----

  /** A first attempt without any checkpoint, or proof of this call's prior attempt that its write was not processed. */
  predicate IsSendPermitted(callID: string, attempt: int, last: Heartbeat)
  {
    match last
    case Unreadable => false
    case Absent => attempt == 1
    case Present(marker) =>
      && marker.callID == callID && callID != ""
      && marker.attempt == attempt - 1 && marker.attempt >= 1
      && (marker.state == NotSent || marker.state == CanResend) && marker.providerID == ""
  }

  /** Only the first attempt, or proof from the immediately prior one, permits a send. */
  function DecisionFor(callID: string, attempt: int, last: Heartbeat): Decision
  {
    match last
    case Unreadable => Decision(FailClosed, None)
    case Absent => Decision(if attempt == 1 then SendAllowed else ReadBackRequired, None)
    case Present(previous) =>
      if previous.callID != callID then Decision(FailClosed, None)
      else if previous.callID == "" || previous.attempt < 1 || previous.state == Unrecognized
        then Decision(FailClosed, Some(previous))
      else if previous.attempt == attempt - 1 && PermitsSend(previous) then Decision(SendAllowed, Some(previous))
      else Decision(ReadBackRequired, Some(previous))
  }

  function Record(fence: FenceState, marker: Marker, isAcknowledged: bool): FenceState
  {
    if isAcknowledged then fence.(marker := Some(marker)) else fence
  }

  function NotSentEffect(fence: FenceState, callID: string, attempt: int, isAcknowledged: bool): Effect
  {
    var marker := Marker(callID, attempt, NotSent, "");
    if !MaySend(fence) then Effect(fence, DispatchNotAllowed, [])
    else Effect(Record(fence.(hasPreSendRetry := true), marker, isAcknowledged),
                if isAcknowledged then Done else HeartbeatFailed, [marker])
  }

  /** Dispatch up to the send: the claim is the first heartbeat, and a failed claim never sends. */
  function ClaimEffect(fence: FenceState, callID: string, attempt: int, hasTime: bool, isClaimAcknowledged: bool,
      isAcknowledged: bool): Effect
  {
    var claim, notSent := Marker(callID, attempt, Claimed, ""), Marker(callID, attempt, NotSent, "");
    if !MaySend(fence) then Effect(fence, DispatchNotAllowed, [])
    else if !hasTime then NotSentEffect(fence, callID, attempt, isAcknowledged).(outcome := InsufficientTime)
    else if isClaimAcknowledged then Effect(Record(fence.(hasDispatched := true), claim, true), Done, [claim])
    else Effect(Record(fence.(hasDispatched := true, hasPreSendRetry := true), notSent, isAcknowledged),
      CheckpointFailed, [claim, notSent])
  }

  function CanResendEffect(fence: FenceState, callID: string, attempt: int, isAcknowledged: bool): Effect
  {
    var marker := Marker(callID, attempt, CanResend, "");
    if !(fence.hasSendFinished && fence.marker.Some? && fence.marker.value.state == Claimed &&
      fence.marker.value.providerID == "")
    then Effect(fence, DispatchNotAllowed, [])
    else Effect(Record(fence, marker, isAcknowledged), if isAcknowledged then Done else HeartbeatFailed, [marker])
  }

  function ProviderIDEffect(fence: FenceState, callID: string, attempt: int, providerID: string,
      isAcknowledged: bool): Effect
  {
    var marker := Marker(callID, attempt, Claimed, providerID);
    if !(fence.hasSendFinished && fence.marker.Some? && fence.marker.value.state == Claimed && providerID != "")
    then Effect(fence, DispatchNotAllowed, [])
    else Effect(Record(fence, marker, isAcknowledged), if isAcknowledged then Done else HeartbeatFailed, [marker])
  }

  // ----- The Fence object -----

  /** Times are nanoseconds. Heartbeat results and the clock arrive as parameters; written returns the heartbeats
      issued. */
  class Fence {
    const callID: string
    const attempt: int
    const writeDeadline: int
    const minimumRequestTime: int
    var decision: Option<Decision>
    var hasDispatched: bool
    var hasSendFinished: bool
    var hasPreSendRetry: bool
    var marker: Option<Marker>

    function State(): FenceState
      reads this
    {
      FenceState(decision, hasDispatched, hasSendFinished, hasPreSendRetry, marker)
    }

    /** Enough of the write window is left. */
    predicate HasTime(now: int)
    {
      minimumRequestTime > 0 && writeDeadline - now >= minimumRequestTime
    }

    constructor (callID: string, attempt: int, writeDeadline: int, minimumRequestTime: int)
      ensures this.callID == callID && this.attempt == attempt && State() == FRESH
      ensures this.writeDeadline == writeDeadline && this.minimumRequestTime == minimumRequestTime
    {
      this.callID, this.attempt := callID, attempt;
      this.writeDeadline, this.minimumRequestTime := writeDeadline, minimumRequestTime;
      decision, hasDispatched, hasSendFinished, hasPreSendRetry, marker := None, false, false, false, None;
    }

    method Decide(last: Heartbeat) returns (decided: Decision)
      modifies this`decision
      ensures decided == old(if decision.Some? then decision.value else DecisionFor(callID, attempt, last))
      ensures State() == old(State()).(decision := Some(decided))
      ensures old(decision.None?) ==> (decided.kind == SendAllowed <==> IsSendPermitted(callID, attempt, last))
    {
      if decision.Some? {
        return decision.value;
      }
      match last {
        case Unreadable =>
          decided := Decision(FailClosed, None);
        case Absent =>
          decided := if attempt == 1 then Decision(SendAllowed, None) else Decision(ReadBackRequired, None);
        case Present(previous) =>
          if previous.callID != callID {
            decided := Decision(FailClosed, None);
          } else {
            decided := Decision(ReadBackRequired, Some(previous));
            if previous.callID == "" || previous.attempt < 1 || previous.state == Unrecognized {
              decided := decided.(kind := FailClosed);
            } else if previous.attempt == attempt - 1 && PermitsSend(previous) {
              decided := decided.(kind := SendAllowed);
            }
          }
      }
      decision := Some(decided);
    }

    method RecordNotSent(isAcknowledged: bool) returns (outcome: Outcome, written: seq<Marker>)
      modifies this`hasPreSendRetry, this`marker
      ensures Effect(State(), outcome, written) == NotSentEffect(old(State()), callID, attempt, isAcknowledged)
      ensures outcome == DispatchNotAllowed <==>
        old(decision.None? || decision.value.kind != SendAllowed || hasDispatched || hasPreSendRetry)
      ensures outcome != DispatchNotAllowed ==>
        hasPreSendRetry && written == [Marker(callID, attempt, NotSent, "")] && (outcome == Done <==> isAcknowledged)
    {
      if decision.None? || decision.value.kind != SendAllowed || hasDispatched || hasPreSendRetry {
        return DispatchNotAllowed, [];
      }
      hasPreSendRetry := true;
      var notSent := Marker(callID, attempt, NotSent, "");
      written := [notSent];
      if isAcknowledged {
        marker := Some(notSent);
      }
      outcome := if isAcknowledged then Done else HeartbeatFailed;
    }

    /** Dispatch until send is called; Done means that the caller now sends once. */
    method BeginDispatch(hasSend: bool, now: int, isClaimAcknowledged: bool, isAcknowledged: bool)
      returns (outcome: Outcome, written: seq<Marker>)
      modifies this`hasDispatched, this`hasPreSendRetry, this`marker
      ensures Effect(State(), outcome, written) ==
        if hasSend then ClaimEffect(old(State()), callID, attempt, HasTime(now), isClaimAcknowledged, isAcknowledged)
        else Effect(old(State()), DispatchNotAllowed, [])
      ensures outcome == DispatchNotAllowed <==>
        old(decision.None? || decision.value.kind != SendAllowed || hasDispatched || hasPreSendRetry || !hasSend)
      ensures outcome == Done <==>
        outcome != DispatchNotAllowed && HasTime(now) && isClaimAcknowledged
      ensures outcome == Done ==>
        hasDispatched && marker == Some(Marker(callID, attempt, Claimed, "")) && written == [marker.value]
      ensures outcome != Done && outcome != DispatchNotAllowed ==>
        hasPreSendRetry && written != [] && written[|written| - 1] == Marker(callID, attempt, NotSent, "")
    {
      if decision.None? || decision.value.kind != SendAllowed || hasDispatched || hasPreSendRetry || !hasSend {
        return DispatchNotAllowed, [];
      }
      if minimumRequestTime <= 0 || writeDeadline - now < minimumRequestTime {
        outcome, written := RecordNotSent(isAcknowledged);
        return InsufficientTime, written;
      }
      hasDispatched := true;
      var claim := Marker(callID, attempt, Claimed, "");
      written := [claim];
      if !isClaimAcknowledged {
        hasPreSendRetry := true;
        var notSent := Marker(callID, attempt, NotSent, "");
        written := written + [notSent];
        if isAcknowledged {
          marker := Some(notSent);
        }
        return CheckpointFailed, written;
      }
      marker := Some(claim);
      outcome := Done;
    }

    /** The end of Dispatch after send returned. */
    method FinishSend()
      modifies this`hasSendFinished
      ensures State() == old(State()).(hasSendFinished := true)
    {
      hasSendFinished := true;
    }

    method RecordCanResend(isAcknowledged: bool) returns (outcome: Outcome, written: seq<Marker>)
      modifies this`marker
      ensures Effect(State(), outcome, written) == CanResendEffect(old(State()), callID, attempt, isAcknowledged)
      ensures outcome == DispatchNotAllowed <==>
        old(!hasSendFinished || marker.None? || marker.value.state != Claimed || marker.value.providerID != "")
      ensures outcome != DispatchNotAllowed ==>
        written == [Marker(callID, attempt, CanResend, "")] && (outcome == Done <==> isAcknowledged)
    {
      if !hasSendFinished || marker.None? || marker.value.state != Claimed || marker.value.providerID != "" {
        return DispatchNotAllowed, [];
      }
      var canResend := Marker(callID, attempt, CanResend, "");
      if isAcknowledged {
        marker := Some(canResend);
      }
      return if isAcknowledged then Done else HeartbeatFailed, [canResend];
    }

    method RecordProviderID(providerID: string, isAcknowledged: bool) returns (outcome: Outcome, written: seq<Marker>)
      modifies this`marker
      ensures Effect(State(), outcome, written) ==
        ProviderIDEffect(old(State()), callID, attempt, providerID, isAcknowledged)
      ensures outcome == DispatchNotAllowed <==>
        old(!hasSendFinished || marker.None? || marker.value.state != Claimed) || providerID == ""
      ensures outcome != DispatchNotAllowed ==>
        written == [Marker(callID, attempt, Claimed, providerID)] && (outcome == Done <==> isAcknowledged)
    {
      if !hasSendFinished || marker.None? || marker.value.state != Claimed || providerID == "" {
        return DispatchNotAllowed, [];
      }
      var accepted := Marker(callID, attempt, Claimed, providerID);
      if isAcknowledged {
        marker := Some(accepted);
      }
      return if isAcknowledged then Done else HeartbeatFailed, [accepted];
    }
  }

  /** The smaller of the Execute timeout and the time until the Step deadline, if there is one. */
  function Budget(executeTimeout: int, startedAt: int, deadline: Option<int>): int
  {
    var bounded := if deadline.Some? && deadline.value - startedAt < executeTimeout then deadline.value - startedAt
      else executeTimeout;
    if bounded < 0 then 0 else bounded
  }

  /** The part of the budget in which a write may run. */
  function Window(budget: int, fraction: real): int
  {
    (budget as real * fraction).Floor
  }

  /** NewFence; null is its error. The fraction is a real, so it is never NaN or infinite. */
  method NewFence(hasContext: bool, callID: string, attempt: int, executeTimeout: int, fraction: real,
                  startedAt: int, deadline: Option<int>) returns (fence: Fence?)
    ensures fence == null <==>
      !hasContext || callID == "" || attempt < 1 || executeTimeout <= 0 || !(0.0 < fraction <= 5.0 / 6.0)
    ensures fence != null ==>
      var budget := Budget(executeTimeout, startedAt, deadline);
      && fresh(fence) && fence.callID == callID && fence.attempt == attempt && fence.State() == FRESH
      && fence.writeDeadline == startedAt + Window(budget, fraction)
      && fence.minimumRequestTime == budget / 10
      && 6 * (fence.writeDeadline - startedAt) <= 5 * budget
  {
    hide Window;
    if !hasContext || callID == "" || attempt < 1 || executeTimeout <= 0 || fraction <= 0.0 || fraction > 5.0 / 6.0 {
      return null;
    }
    var budget := executeTimeout;
    if deadline.Some? {
      budget := if deadline.value - startedAt < budget then deadline.value - startedAt else budget;
    }
    budget := if budget < 0 then 0 else budget;
    WindowFits(budget, fraction);
    fence := new Fence(callID, attempt, startedAt + Window(budget, fraction), budget / 10);
  }

  /** The write window ends with at least a sixth of the budget left. */
  lemma WindowFits(budget: int, fraction: real)
    requires budget >= 0 && fraction <= 5.0 / 6.0
    ensures 6 * Window(budget, fraction) <= 5 * budget
  {
    var window := Window(budget, fraction);
    assert budget as real * fraction <= budget as real * (5.0 / 6.0);
    assert window as real <= budget as real * fraction;
    assert 6.0 * window as real <= 5.0 * budget as real;
    assert (6 * window) as real <= (5 * budget) as real;
  }
}
