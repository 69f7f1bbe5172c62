/** What createNote tells its caller is true: in every run an accepted note was answered as created, and an attempt that
    asks for a retry left no write that may have taken effect. */
module CreateNoteResults {
  import opened SingleDispatchFence
  import opened CreateNote

  /** The provider answered a write with this identity. */
  ghost predicate WasCreated(system: System, id: string)
  {
    id != "" && exists writer :: Answer(writer, 201, id) in system.answers
  }

  ghost predicate AttemptIsTruthful(callID: string, system: System, k: nat)
    requires k < |system.attempts|
  {
    match system.attempts[k].progress
    case ReadingBack(marker) => marker.Some? && marker.value.callID == callID ==> marker.value in system.written
    case Answered(status, providerID) => Answer(k, status, providerID) in system.answers
    case Ended(Accepted(id)) => WasCreated(system, id)
    case Ended(Retry) => !MayHaveTakenEffect(system.trace, k)
    case _ => true
  }

  /** A checkpoint with an identity was written after the provider answered with it. */
  ghost predicate MarkerIsTruthful(system: System, marker: Marker)
  {
    marker.providerID != "" ==> WasCreated(system, marker.providerID)
  }

  ghost predicate AnswerIsTraced(system: System, answer: Answer)
  {
    WriteAnswered(answer.writer, answer.status) in system.trace
  }

  ghost predicate IsTruthful(callID: string, system: System)
  {
    && (forall k :: 0 <= k < |system.attempts| ==> AttemptIsTruthful(callID, system, k))
    && (forall marker :: marker in system.written ==> MarkerIsTruthful(system, marker))
    && (forall answer :: answer in system.answers ==> AnswerIsTraced(system, answer))
  }

  /** A step only adds heartbeats, answers and events. */
  lemma StepGrows(callID: string, system: System, action: Action)
    ensures var after := Step(callID, system, action);
      system.written <= after.written && system.answers <= after.answers && system.trace <= after.trace
  {
  }

  lemma CreatedStays(system: System, after: System, id: string)
    requires WasCreated(system, id) && system.answers <= after.answers
    ensures WasCreated(after, id)
  {
    var writer :| Answer(writer, 201, id) in system.answers;
    assert Answer(writer, 201, id) in after.answers;
  }

  /** An attempt that does not step stays truthful. */
  lemma IdleStaysTruthful(callID: string, system: System, action: Action, k: nat)
    requires k < |system.attempts| && AttemptIsTruthful(callID, system, k)
    requires action.StartAttempt? || action.k != k
    ensures AttemptIsTruthful(callID, Step(callID, system, action), k)
  {
    StepGrows(callID, system, action);
    StepFrame(callID, system, action);
    hide Step;
    var after := Step(callID, system, action);
    match system.attempts[k].progress {
      case Ended(Accepted(id)) => CreatedStays(system, after, id);
      case _ =>
    }
  }

  /** A retry before the send has no write; a retry after it was answered as unprocessed. */
  lemma RetryHasNoEffect(callID: string, system: System, action: Action)
    requires Inv(callID, system) && !action.StartAttempt? && action.k < |system.attempts|
    requires !system.attempts[action.k].progress.Ended?
    requires Step(callID, system, action).attempts[action.k].progress == Ended(Retry)
    ensures !MayHaveTakenEffect(Step(callID, system, action).trace, action.k)
  {
    hide MarkerOK, AllowedInOrder, StartsBeforeAnswers, NoUnsafeResend;
    var k := action.k;
    assert AttemptOK(callID, k, system.attempts[k]) && WritesOK(system, k);
    assert Step(callID, system, action).trace == system.trace;
    assert WriteStarted(k) !in system.trace ||
      (system.attempts[k].progress.Answered? && IsUnprocessed(system.attempts[k].progress.status));
  }

  /** An acceptance is the provider's own answer, or a checkpoint's identity read back. */
  lemma AcceptanceWasCreated(callID: string, system: System, action: Action, id: string)
    requires IsTruthful(callID, system) && !action.StartAttempt? && action.k < |system.attempts|
    requires !system.attempts[action.k].progress.Ended?
    requires Step(callID, system, action).attempts[action.k].progress == Ended(Accepted(id))
    ensures WasCreated(Step(callID, system, action), id)
  {
    var k := action.k;
    assert AttemptIsTruthful(callID, system, k);
    StepGrows(callID, system, action);
    match system.attempts[k].progress {
      case ReadingBack(marker) =>
        assert MarkerIsTruthful(system, marker.value);
      case Answered(status, providerID) =>
        assert Answer(k, 201, id) in system.answers;
      case _ =>
    }
    hide Step;
    CreatedStays(system, Step(callID, system, action), id);
  }

  lemma StepperStaysTruthful(callID: string, system: System, action: Action)
    requires Inv(callID, system) && IsTruthful(callID, system)
    requires !action.StartAttempt? && action.k < |system.attempts| && !system.attempts[action.k].progress.Ended?
    ensures AttemptIsTruthful(callID, Step(callID, system, action), action.k)
  {
    var after := Step(callID, system, action);
    var k := action.k;
    assert AttemptIsTruthful(callID, system, k);
    StepGrows(callID, system, action);
    match after.attempts[k].progress {
      case Ended(Accepted(id)) => AcceptanceWasCreated(callID, system, action, id);
      case Ended(Retry) => RetryHasNoEffect(callID, system, action);
      case ReadingBack(marker) => ReadMarkerWasWritten(callID, system, action);
      case _ =>
        hide Inv;
    }
  }

  /** Data that no fence of this call wrote never reaches a read-back. */
  lemma ReadMarkerWasWritten(callID: string, system: System, action: Action)
    requires !action.StartAttempt? && action.k < |system.attempts| && AttemptIsTruthful(callID, system, action.k)
    requires Step(callID, system, action).attempts[action.k].progress.ReadingBack?
    ensures AttemptIsTruthful(callID, Step(callID, system, action), action.k)
  {
    StepGrows(callID, system, action);
  }

  lemma NewMarkerIsTruthful(callID: string, system: System, action: Action, marker: Marker)
    requires IsTruthful(callID, system) && marker in Step(callID, system, action).written
    ensures MarkerIsTruthful(Step(callID, system, action), marker)
  {
    var after := Step(callID, system, action);
    StepGrows(callID, system, action);
    if marker.providerID != "" {
      if marker in system.written {
        assert MarkerIsTruthful(system, marker);
      } else {
        var k := action.k;
        assert AttemptIsTruthful(callID, system, k);
        assert Answer(k, 201, marker.providerID) in system.answers;
      }
      CreatedStays(system, after, marker.providerID);
    }
  }

  lemma StepKeepsTruth(callID: string, system: System, action: Action)
    requires Inv(callID, system) && IsTruthful(callID, system)
    ensures IsTruthful(callID, Step(callID, system, action))
  {
    var after := Step(callID, system, action);
    StepFrame(callID, system, action);
    assert forall answer :: answer in after.answers ==> AnswerIsTraced(after, answer) by {
      StepTracesAnswers(callID, system, action);
    }
    hide Step, Inv, AttemptIsTruthful, MarkerIsTruthful, AnswerIsTraced;
    forall k | 0 <= k < |after.attempts| ensures AttemptIsTruthful(callID, after, k) {
      if k == |system.attempts| {
        NewAttemptIsTruthful(callID, after, k);
      } else if action.StartAttempt? || action.k != k {
        IdleStaysTruthful(callID, system, action, k);
      } else if system.attempts[k].progress.Ended? {
        EndedStepsNowhere(callID, system, action);
      } else {
        StepperStaysTruthful(callID, system, action);
      }
    }
    forall marker | marker in after.written ensures MarkerIsTruthful(after, marker) {
      NewMarkerIsTruthful(callID, system, action, marker);
    }
  }

  lemma NewAttemptIsTruthful(callID: string, system: System, k: nat)
    requires k < |system.attempts| && system.attempts[k] == Attempt(FRESH, Starting)
    ensures AttemptIsTruthful(callID, system, k)
  {
  }

  lemma EndedStepsNowhere(callID: string, system: System, action: Action)
    requires !action.StartAttempt? && action.k < |system.attempts| && system.attempts[action.k].progress.Ended?
    ensures Step(callID, system, action) == system
  {
  }

  lemma StepTracesAnswers(callID: string, system: System, action: Action)
    requires IsTruthful(callID, system)
    ensures forall answer ::
      answer in Step(callID, system, action).answers ==> AnswerIsTraced(Step(callID, system, action), answer)
  {
    StepGrows(callID, system, action);
    var after := Step(callID, system, action);
    forall answer | answer in after.answers ensures AnswerIsTraced(after, answer) {
      if answer in system.answers {
        assert AnswerIsTraced(system, answer);
      }
    }
  }

  lemma {:induction false} RunIsTruthful(callID: string, actions: seq<Action>)
    ensures IsTruthful(callID, Run(callID, actions))
  {
    if actions != [] {
      var initial := actions[..|actions| - 1];
      RunIsTruthful(callID, initial);
      RunKeepsInv(callID, initial);
      hide Step, Inv;
      StepKeepsTruth(callID, Run(callID, initial), actions[|actions| - 1]);
    }
  }

  /** In every run, an attempt accepts only an identity that the provider gave when it created the note. */
  lemma AcceptedWasCreated(callID: string, actions: seq<Action>, k: nat, id: string)
    requires k < |Run(callID, actions).attempts| && Run(callID, actions).attempts[k].progress == Ended(Accepted(id))
    ensures exists writer ::
      Answer(writer, 201, id) in Run(callID, actions).answers &&
        WriteAnswered(writer, 201) in Run(callID, actions).trace
  {
    RunIsTruthful(callID, actions);
    var system := Run(callID, actions);
    hide Run;
    assert AttemptIsTruthful(callID, system, k);
    var writer :| Answer(writer, 201, id) in system.answers;
    assert AnswerIsTraced(system, Answer(writer, 201, id));
  }

  /** In every run, an attempt that asks for a retry left no write that may have taken effect. */
  lemma RetryLeavesNoEffect(callID: string, actions: seq<Action>, k: nat)
    requires k < |Run(callID, actions).attempts| && Run(callID, actions).attempts[k].progress == Ended(Retry)
    ensures !MayHaveTakenEffect(Run(callID, actions).trace, k)
  {
    RunIsTruthful(callID, actions);
    assert AttemptIsTruthful(callID, Run(callID, actions), k);
  }
}
