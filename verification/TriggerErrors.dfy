/** Trigger errors: the undeliverable marker, Go's error chains, and the classification of Dex errors. */
module TriggerErrors {
  import opened Wrappers
  import opened Texts

  const UNDELIVERABLE_MESSAGE := "Trigger event is undeliverable"

  datatype Code = FailedPrecondition | OtherCode

  datatype WorkerError = WorkerError(code: Code, detail: string)

  /** A non-nil error. A marker explains itself with its cause; NilMarker is a typed nil *UndeliverableTriggerError.
      Dex errors and wrappers carry the errors that their Unwrap returns. */
  datatype Error =
    | Plain(text: string)
    | Marker(cause: Option<Error>)
    | NilMarker
    | FlowNotActive(text: string, wrapped: seq<Error>)
    | FlowNotFound(text: string, wrapped: seq<Error>)
    | FlowAlreadyStarted(text: string, wrapped: seq<Error>)
    | WorkerInvocation(text: string, worker: Option<WorkerError>, wrapped: seq<Error>)
    | ValueMapping(text: string, operation: string, wrapped: seq<Error>)
    | Wrapper(text: string, wrapped: seq<Error>)

  datatype Kind =
    | MarkerKind | FlowNotActiveKind | FlowNotFoundKind | FlowAlreadyStartedKind
    | WorkerInvocationKind | ValueMappingKind

  predicate Is(error: Error, kind: Kind)
  {
    match kind
    case MarkerKind => error.Marker? || error.NilMarker?
    case FlowNotActiveKind => error.FlowNotActive?
    case FlowNotFoundKind => error.FlowNotFound?
    case FlowAlreadyStartedKind => error.FlowAlreadyStarted?
    case WorkerInvocationKind => error.WorkerInvocation?
    case ValueMappingKind => error.ValueMapping?
  }

  function Unwrapped(error: Error): seq<Error>
  {
    match error
    case Plain(_) => []
    case Marker(cause) => if cause.None? then [] else [cause.value]
    case NilMarker => []
    case FlowNotActive(_, wrapped) => wrapped
    case FlowNotFound(_, wrapped) => wrapped
    case FlowAlreadyStarted(_, wrapped) => wrapped
    case WorkerInvocation(_, _, wrapped) => wrapped
    case ValueMapping(_, _, wrapped) => wrapped
    case Wrapper(_, wrapped) => wrapped
  }

  lemma UnwrappedIsSmaller(error: Error, i: nat)
    requires i < |Unwrapped(error)|
    ensures Unwrapped(error)[i] < error
  {
  }

  /** errors.As: the error itself, or the first match below it. */
  function As(error: Error, kind: Kind): Option<Error>
    decreases error, |Unwrapped(error)| + 1
  {
    if Is(error, kind) then Some(error) else AsBelow(error, kind, 0)
  }

  function AsBelow(error: Error, kind: Kind, from: nat): Option<Error>
    requires from <= |Unwrapped(error)|
    decreases error, |Unwrapped(error)| - from
  {
    if from == |Unwrapped(error)| then None
    else
      UnwrappedIsSmaller(error, from);
      var found := As(Unwrapped(error)[from], kind);
      if found.Some? then found else AsBelow(error, kind, from + 1)
  }

  // ----- The error tree in the order errors.As visits it -----

  function Tree(error: Error): seq<Error>
    decreases error, |Unwrapped(error)| + 1
  {
    [error] + Forest(error, 0)
  }

  function Forest(error: Error, from: nat): seq<Error>
    requires from <= |Unwrapped(error)|
    decreases error, |Unwrapped(error)| - from
  {
    if from == |Unwrapped(error)| then []
    else
      UnwrappedIsSmaller(error, from);
      Tree(Unwrapped(error)[from]) + Forest(error, from + 1)
  }

  function FirstOf(errors: seq<Error>, kind: Kind): Option<Error>
  {
    if errors == [] then None else if Is(errors[0], kind) then Some(errors[0]) else FirstOf(errors[1..], kind)
  }

  lemma {:induction false} FirstOfConcat(left: seq<Error>, right: seq<Error>, kind: Kind)
    ensures FirstOf(left + right, kind) == if FirstOf(left, kind).Some? then FirstOf(left, kind)
      else FirstOf(right, kind)
  {
    if left == [] {
      assert left + right == right;
    } else {
      FirstOfConcat(left[1..], right, kind);
      assert (left + right)[1..] == left[1..] + right;
    }
  }

  lemma {:induction false} FirstOfFinds(errors: seq<Error>, kind: Kind)
    ensures FirstOf(errors, kind).Some? <==> exists error :: error in errors && Is(error, kind)
    ensures FirstOf(errors, kind).Some? ==> Is(FirstOf(errors, kind).value, kind)
  {
    if errors != [] {
      FirstOfFinds(errors[1..], kind);
      assert errors == [errors[0]] + errors[1..];
    }
  }

  /** errors.As finds the first match of the visiting order. */
  lemma {:induction false} AsFindsFirst(error: Error, kind: Kind)
    ensures As(error, kind) == FirstOf(Tree(error), kind)
    decreases error, |Unwrapped(error)| + 1
  {
    AsBelowFindsFirst(error, kind, 0);
    assert Tree(error)[1..] == Forest(error, 0);
  }

  lemma {:induction false} AsBelowFindsFirst(error: Error, kind: Kind, from: nat)
    requires from <= |Unwrapped(error)|
    ensures AsBelow(error, kind, from) == FirstOf(Forest(error, from), kind)
    decreases error, |Unwrapped(error)| - from
  {
    if from < |Unwrapped(error)| {
      var child := Unwrapped(error)[from];
      UnwrappedIsSmaller(error, from);
      AsFindsFirst(child, kind);
      AsBelowFindsFirst(error, kind, from + 1);
      FirstOfConcat(Tree(child), Forest(error, from + 1), kind);
    }
  }

  // ----- Marking and classification -----

  function Text(error: Error): string
  {
    match error
    case Marker(cause) => if cause.None? then UNDELIVERABLE_MESSAGE
      else UNDELIVERABLE_MESSAGE + ": " + Text(cause.value)
    case NilMarker => "<nil>"
    case Plain(text) => text
    case FlowNotActive(text, _) => text
    case FlowNotFound(text, _) => text
    case FlowAlreadyStarted(text, _) => text
    case WorkerInvocation(text, _, _) => text
    case ValueMapping(text, _, _) => text
    case Wrapper(text, _) => text
  }

  /** MarkTriggerUndeliverable; None is the nil error. */
  function MarkTriggerUndeliverable(error: Option<Error>): Option<Error>
  {
    if error.None? || Is(error.value, MarkerKind) then error else Some(Marker(error))
  }

  predicate IsTriggerUndeliverable(error: Option<Error>)
  {
    error.Some? && As(error.value, MarkerKind).Some?
  }

  predicate IsHandlerMarker(worker: Option<WorkerError>)
  {
    worker.Some? && worker.value.code == FailedPrecondition && HasPrefix(worker.value.detail, UNDELIVERABLE_MESSAGE)
  }

  function ClassifyDexTriggerError(error: Option<Error>): Option<Error>
  {
    if error.None? || IsTriggerUndeliverable(error) then error
    else if As(error.value, FlowNotActiveKind).Some? || As(error.value, FlowNotFoundKind).Some?
      then MarkTriggerUndeliverable(error)
    else
      var workerFailure := As(error.value, WorkerInvocationKind);
      if workerFailure.Some? && workerFailure.value.WorkerInvocation? then
        if IsHandlerMarker(workerFailure.value.worker) then MarkTriggerUndeliverable(error) else error
      else
        var mappingFailure := As(error.value, ValueMappingKind);
        if mappingFailure.Some? && mappingFailure.value.ValueMapping? && mappingFailure.value.operation == "encode"
        then MarkTriggerUndeliverable(error) else error
  }

  /** Marking makes an error undeliverable, and keeps it outermost. */
  lemma MarkedIsUndeliverable(error: Option<Error>)
    ensures error.Some? ==>
      IsTriggerUndeliverable(MarkTriggerUndeliverable(error)) && Is(MarkTriggerUndeliverable(error).value, MarkerKind)
    ensures MarkTriggerUndeliverable(MarkTriggerUndeliverable(error)) == MarkTriggerUndeliverable(error)
  {
  }

  /** Classifying twice is classifying once, and an error that stays retryable is returned unchanged. */
  lemma ClassificationIsIdempotent(error: Option<Error>)
    ensures ClassifyDexTriggerError(ClassifyDexTriggerError(error)) == ClassifyDexTriggerError(error)
    ensures !IsTriggerUndeliverable(ClassifyDexTriggerError(error)) ==> ClassifyDexTriggerError(error) == error
  {
    MarkedIsUndeliverable(error);
  }

  ghost predicate Holds(error: Error, kind: Kind)
  {
    exists node :: node in Tree(error) && Is(node, kind)
  }

  /** No retry can deliver exactly: an error tree that holds a marker or a missing Flow; otherwise one whose first
      Worker failure is a handler's marker; otherwise, without any Worker failure, one whose first mapping failure
      is an encoding failure. */
  ghost predicate CannotBeDelivered(error: Error)
  {
    || Holds(error, MarkerKind)
    || Holds(error, FlowNotActiveKind)
    || Holds(error, FlowNotFoundKind)
    || var worker := FirstOf(Tree(error), WorkerInvocationKind);
       if worker.Some? then worker.value.WorkerInvocation? && IsHandlerMarker(worker.value.worker)
       else
         var mapping := FirstOf(Tree(error), ValueMappingKind);
         mapping.Some? && mapping.value.ValueMapping? && mapping.value.operation == "encode"
  }

  lemma ClassificationIsExact(error: Error)
    ensures IsTriggerUndeliverable(ClassifyDexTriggerError(Some(error))) <==> CannotBeDelivered(error)
  {
    hide As, Tree;
    AsFindsFirst(error, MarkerKind);
    AsFindsFirst(error, FlowNotActiveKind);
    AsFindsFirst(error, FlowNotFoundKind);
    AsFindsFirst(error, WorkerInvocationKind);
    AsFindsFirst(error, ValueMappingKind);
    FirstOfFinds(Tree(error), MarkerKind);
    FirstOfFinds(Tree(error), FlowNotActiveKind);
    FirstOfFinds(Tree(error), FlowNotFoundKind);
    FirstOfFinds(Tree(error), WorkerInvocationKind);
    FirstOfFinds(Tree(error), ValueMappingKind);
    MarkedIsUndeliverable(Some(error));
  }

  // ----- Across the Worker boundary -----

  /** The error an RPC client sees after a handler returned error: the Worker reports the status code of the
      handler's error and its message as the detail. */
  function AcrossWorker(error: Error, code: Code, text: string): Error
  {
    WorkerInvocation(text, Some(WorkerError(code, Text(error))), [])
  }

  /** A marker's own status is FailedPrecondition. */
  predicate ReportsCode(error: Error, code: Code)
  {
    Is(error, MarkerKind) ==> code == FailedPrecondition
  }

  /** A Worker failure is consumed exactly for a FailedPrecondition whose message starts like a marker's. */
  lemma WorkerFailureIsExact(error: Error, code: Code, text: string)
    ensures IsTriggerUndeliverable(ClassifyDexTriggerError(Some(AcrossWorker(error, code, text)))) <==>
      code == FailedPrecondition && HasPrefix(Text(error), UNDELIVERABLE_MESSAGE)
  {
    var failure := AcrossWorker(error, code, text);
    assert Unwrapped(failure) == [];
    assert As(failure, MarkerKind) == None && As(failure, FlowNotActiveKind) == None &&
      As(failure, FlowNotFoundKind) == None;
    assert As(failure, WorkerInvocationKind) == Some(failure);
    MarkedIsUndeliverable(Some(failure));
  }

  lemma MarkerText(error: Error)
    requires error.Marker?
    ensures HasPrefix(Text(error), UNDELIVERABLE_MESSAGE)
  {
  }

  /** What MarkTriggerUndeliverable returns survives the boundary as undeliverable, unless it is the typed nil. */
  lemma MarkerSurvivesWorker(error: Error, code: Code, text: string)
    requires ReportsCode(MarkTriggerUndeliverable(Some(error)).value, code)
    ensures var marked := MarkTriggerUndeliverable(Some(error)).value;
      IsTriggerUndeliverable(ClassifyDexTriggerError(Some(AcrossWorker(marked, code, text)))) <==> error != NilMarker
  {
    hide As, AsBelow;
    var marked := MarkTriggerUndeliverable(Some(error)).value;
    MarkedIsUndeliverable(Some(error));
    WorkerFailureIsExact(marked, code, text);
    if marked.Marker? {
      MarkerText(marked);
    } else {
      assert Text(marked)[0] == '<' && UNDELIVERABLE_MESSAGE[0] == 'T';
    }
  }

  // ----- The Flow and RPC targets -----

  /** NewDexFlowTriggerTarget: started is the error of StartFlow, nil when the Flow started. */
  function FlowTarget(isAccepted: bool, hasIdentity: bool, started: Option<Error>,
      missingIdentity: Error): Option<Error>
  {
    if !isAccepted then None
    else if !hasIdentity then MarkTriggerUndeliverable(Some(missingIdentity))
    else if started.None? || As(started.value, FlowAlreadyStartedKind).Some? then None
    else ClassifyDexTriggerError(started)
  }

  /** NewDexRPCTriggerTarget: an undecodable response means that Dex applied the RPC. */
  function RpcTarget(isAccepted: bool, hasIdentity: bool, invoked: Option<Error>, missingIdentity: Error): Option<Error>
  {
    if !isAccepted then None
    else if !hasIdentity then MarkTriggerUndeliverable(Some(missingIdentity))
    else if invoked.None? then None
    else
      var mapping := As(invoked.value, ValueMappingKind);
      if mapping.Some? && mapping.value.ValueMapping? && mapping.value.operation == "decode" then None
      else ClassifyDexTriggerError(invoked)
  }

  /** A Flow target consumes a filtered event, a started Flow and a duplicate start, marks what no retry can deliver,
      and returns any other error unchanged for a retry. */
  lemma FlowTargetIsExact(isAccepted: bool, hasIdentity: bool, started: Option<Error>, missingIdentity: Error)
    ensures var result := FlowTarget(isAccepted, hasIdentity, started, missingIdentity);
      var isDelivered := started.None? || Holds(started.value, FlowAlreadyStartedKind);
      && (result.None? <==> !isAccepted || (hasIdentity && isDelivered))
      && (IsTriggerUndeliverable(result) <==>
        isAccepted && (!hasIdentity || (!isDelivered && CannotBeDelivered(started.value))))
      && (result.Some? && !IsTriggerUndeliverable(result) ==> result == started)
  {
    hide As, Tree, CannotBeDelivered;
    MarkedIsUndeliverable(Some(missingIdentity));
    if started.Some? {
      AsFindsFirst(started.value, FlowAlreadyStartedKind);
      FirstOfFinds(Tree(started.value), FlowAlreadyStartedKind);
      ClassificationIsIdempotent(started);
      ClassificationIsExact(started.value);
    }
  }

  /** The first mapping failure of the error is the response's. */
  predicate IsDecodeFailure(error: Error)
  {
    var mapping := FirstOf(Tree(error), ValueMappingKind);
    mapping.Some? && mapping.value.ValueMapping? && mapping.value.operation == "decode"
  }

  /** An RPC target differs in what it takes as delivered: an undecodable response. */
  lemma RpcTargetIsExact(isAccepted: bool, hasIdentity: bool, invoked: Option<Error>, missingIdentity: Error)
    ensures var result := RpcTarget(isAccepted, hasIdentity, invoked, missingIdentity);
      var isDelivered := invoked.None? || IsDecodeFailure(invoked.value);
      && (result.None? <==> !isAccepted || (hasIdentity && isDelivered))
      && (IsTriggerUndeliverable(result) <==>
        isAccepted && (!hasIdentity || (!isDelivered && CannotBeDelivered(invoked.value))))
      && (result.Some? && !IsTriggerUndeliverable(result) ==> result == invoked)
  {
    hide As, Tree, CannotBeDelivered;
    MarkedIsUndeliverable(Some(missingIdentity));
    if invoked.Some? {
      AsFindsFirst(invoked.value, ValueMappingKind);
      ClassificationIsIdempotent(invoked);
      ClassificationIsExact(invoked.value);
    }
  }
}
