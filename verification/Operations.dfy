/** Operation definitions, provider attempts, and the runs that turn any attempt into a validated result. */
module Operations {
  import opened Wrappers
  import opened Texts

  // ----- Identifiers -----

  /** ^[a-z][a-z0-9-]{1,62}$ */
  predicate IsConnectorID(id: string)
  {
    2 <= |id| <= 63 && IsLower(id[0]) && forall i :: 1 <= i < |id| ==> IsLower(id[i]) || IsDigit(id[i]) || id[i] == '-'
  }

  /** unicode.IsSpace */
  predicate IsSpace(c: char)
  {
    var code := c as int;
    || 9 <= code <= 13 || code == 0x20 || code == 0x85 || code == 0xa0 || code == 0x1680
    || 0x2000 <= code <= 0x200a || code == 0x2028 || code == 0x2029
    || code == 0x202f || code == 0x205f || code == 0x3000
  }

  /** strings.TrimSpace leaves nothing. */
  predicate IsBlank(text: string)
  {
    forall i :: 0 <= i < |text| ==> IsSpace(text[i])
  }

  // ----- Failures -----

  datatype FailureKind =
    | Validation | Authentication | Authorization | NotFound | Conflict | RateLimit | QuotaExhausted | Availability
    | ProviderRejection | Transport | ResponseTooLarge | Protocol | LocalDefect
    | UnknownKind(text: string)

  const ALL_FAILURE_KINDS := [
    Validation, Authentication, Authorization, NotFound, Conflict, RateLimit, QuotaExhausted, Availability,
    ProviderRejection, Transport, ResponseTooLarge, Protocol, LocalDefect]

  datatype Failure = Failure(kind: FailureKind, provider: string, operation: string, message: string)

  predicate IsValidFailure(failure: Failure)
  {
    !failure.kind.UnknownKind? && failure.provider != "" && failure.operation != "" && failure.message != ""
  }

  method ValidateFailure(failure: Failure) returns (isValid: bool)
    ensures isValid <==> IsValidFailure(failure)
  {
    var isKnownKind := false;
    for index := 0 to |ALL_FAILURE_KINDS|
      invariant isKnownKind <==> failure.kind in ALL_FAILURE_KINDS[..index]
    {
      assert ALL_FAILURE_KINDS[..index + 1] == ALL_FAILURE_KINDS[..index] + [ALL_FAILURE_KINDS[index]];
      if failure.kind == ALL_FAILURE_KINDS[index] {
        isKnownKind := true;
      }
    }
    assert ALL_FAILURE_KINDS[..|ALL_FAILURE_KINDS|] == ALL_FAILURE_KINDS;
    AllKindsListed(failure.kind);
    isValid := isKnownKind && failure.provider != "" && failure.operation != "" && failure.message != "";
  }

  function PositionOf(kind: FailureKind): nat
  {
    match kind
    case Validation => 0
    case Authentication => 1
    case Authorization => 2
    case NotFound => 3
    case Conflict => 4
    case RateLimit => 5
    case QuotaExhausted => 6
    case Availability => 7
    case ProviderRejection => 8
    case Transport => 9
    case ResponseTooLarge => 10
    case Protocol => 11
    case LocalDefect => 12
    case UnknownKind(_) => 13
  }

  lemma AllKindsListed(kind: FailureKind)
    ensures kind in ALL_FAILURE_KINDS <==> !kind.UnknownKind?
  {
    if !kind.UnknownKind? {
      assert ALL_FAILURE_KINDS[PositionOf(kind)] == kind;
    }
  }

  // ----- Definitions -----

  const DEFECT := "defect"
  const UNCERTAIN := "uncertain"

  datatype OperationRef = OperationRef(connectorID: string, operationID: string)

  datatype BranchDefinition = BranchDefinition(id: string, description: string, isOptional: bool)

  /** isMutation separates MutationDefinition from QueryDefinition; hasValidDefaults is validateDefinitionOptions. */
  datatype Definition = Definition(isMutation: bool, operation: OperationRef, branches: seq<BranchDefinition>,
      hasValidDefaults: bool)

  predicate IsValidOperation(operation: OperationRef)
  {
    IsConnectorID(operation.connectorID) && IsLowerCamel(operation.operationID)
  }

  predicate HasBranch(branches: seq<BranchDefinition>, id: string)
  {
    exists i :: 0 <= i < |branches| && branches[i].id == id
  }

  predicate ValidBranches(branches: seq<BranchDefinition>)
  {
    && branches != []
    && (forall i :: 0 <= i < |branches| ==> IsLowerCamel(branches[i].id) && !IsBlank(branches[i].description))
    && (forall i, j :: 0 <= i < j < |branches| ==> branches[i].id != branches[j].id)
  }

  /** validateBranches; None is its error. */
  method ValidateBranches(definitions: seq<BranchDefinition>) returns (branches: Option<set<string>>)
    ensures branches.Some? <==> ValidBranches(definitions)
    ensures branches.Some? ==> forall id :: id in branches.value <==> HasBranch(definitions, id)
  {
    if definitions == [] {
      return None;
    }
    var seen: set<string> := {};
    for index := 0 to |definitions|
      invariant forall id :: id in seen <==> exists i :: 0 <= i < index && definitions[i].id == id
      invariant forall i :: 0 <= i < index ==> IsLowerCamel(definitions[i].id) && !IsBlank(definitions[i].description)
      invariant forall i, j :: 0 <= i < j < index ==> definitions[i].id != definitions[j].id
    {
      if !IsLowerCamel(definitions[index].id) || definitions[index].id in seen ||
        IsBlank(definitions[index].description) {
        return None;
      }
      seen := seen + {definitions[index].id};
    }
    branches := Some(seen);
  }

  predicate ValidDefinition(definition: Definition)
  {
    && IsValidOperation(definition.operation)
    && ValidBranches(definition.branches)
    && HasBranch(definition.branches, DEFECT)
    && (!definition.isMutation ==> !HasBranch(definition.branches, UNCERTAIN))
    && definition.hasValidDefaults
  }

  /** QueryDefinition.Validate and MutationDefinition.Validate. */
  method ValidateDefinition(definition: Definition) returns (isValid: bool)
    ensures isValid <==> ValidDefinition(definition)
  {
    if !IsValidOperation(definition.operation) {
      return false;
    }
    var branches := ValidateBranches(definition.branches);
    if branches.None? || DEFECT !in branches.value || (!definition.isMutation && UNCERTAIN in branches.value) {
      return false;
    }
    isValid := definition.hasValidDefaults;
  }

  // ----- Calls and receipts -----

  datatype Connection = Connection(provider: string, name: string)

  datatype DexContext = DexContext(flowID: string, stepExecutionID: string)

  datatype Call = Call(id: string, idempotencyKey: string, connection: Connection, operation: OperationRef)

  /** observedAt 0 is the zero time. */
  datatype Receipt = Receipt(callID: string, idempotencyKey: string, provider: string, objectID: string,
      observedAt: int)

  const EMPTY_RECEIPT := Receipt("", "", "", "", 0)

  /** completeReceipt; None is its error. now is the clock. */
  function CompleteReceipt(receipt: Receipt, call: Call, now: int): (completed: Option<Receipt>)
    ensures completed.Some? <==> receipt.callID in {"", call.id} && receipt.idempotencyKey in {"", call.idempotencyKey}
    ensures completed.Some? ==>
      completed.value.callID == call.id && completed.value.idempotencyKey == call.idempotencyKey
    ensures completed.Some? && call.operation.connectorID != "" ==> completed.value.provider != ""
    ensures completed.Some? ==> completed.value.objectID == receipt.objectID
  {
    if receipt.callID != "" && receipt.callID != call.id then None
    else if receipt.idempotencyKey != "" && receipt.idempotencyKey != call.idempotencyKey then None
    else Some(receipt.(
      callID := if receipt.callID == "" then call.id else receipt.callID,
      idempotencyKey := if call.idempotencyKey != "" then call.idempotencyKey else receipt.idempotencyKey,
      provider := if receipt.provider == "" then call.operation.connectorID else receipt.provider,
      observedAt := if receipt.observedAt == 0 then now else receipt.observedAt))
  }

  // ----- Attempts and results -----

  /** What a provider operation may return, built by any constructor or left as a zero value. */
  datatype Attempt<T> =
    | InvalidAttempt
    | BranchAttempt(branch: string, value: T, receipt: Receipt, failure: Option<Failure>)
    | UncertainAttempt(value: T, receipt: Receipt, uncertainty: Failure)
    | RetryAttempt(reason: Failure, retryAfter: int)

  /** value None is the zero value of a result that the run itself produced. */
  datatype OperationResult<T> = OperationResult(branch: string, value: Option<T>, receipt: Receipt,
      failure: Option<Failure>)

  datatype Ran<T> = Terminal(result: OperationResult<T>) | RetryRequested(reason: Failure, delay: int)

  /** An operation implementation with an unchanging definition; its functions are arbitrary. */
  datatype Operation<T> = Operation(definition: Definition, key: string -> string, invoke: Call -> Attempt<T>)

  /** Error texts are never empty. */
  type ErrorText = text: string | text != "" witness "error"

  // The texts that the runs report, abbreviated.
  const UNKNOWN_BRANCH: ErrorText := "unknown branch"
  const INVALID_FAILURE: ErrorText := "invalid failure"
  const FOREIGN_RECEIPT: ErrorText := "foreign receipt"
  const INVALID_ATTEMPT: ErrorText := "invalid attempt"
  const INVALID_RETRY: ErrorText := "invalid retry"
  const UNDECLARED_UNCERTAINTY: ErrorText := "undeclared uncertainty"
  const INVALID_UNCERTAINTY: ErrorText := "invalid uncertainty"
  const INVALID_KEY: ErrorText := "invalid key"
  const OPERATION_REQUIRED: ErrorText := "no operation"
  const INVALID_DEFINITION: ErrorText := "invalid definition"
  const INVALID_CALL: ErrorText := "invalid call"

  function LocalFailure(operation: OperationRef, message: ErrorText): (failure: Failure)
    ensures IsValidFailure(failure) && failure.kind == LocalDefect && failure.message == message
    ensures operation.connectorID != "" ==> failure.provider == operation.connectorID
    ensures operation.operationID != "" ==> failure.operation == operation.operationID
  {
    Failure(LocalDefect,
            if operation.connectorID == "" then "connector" else operation.connectorID,
            if operation.operationID == "" then "invoke" else operation.operationID,
            message)
  }

  function Failed<T>(definition: Definition, message: ErrorText): OperationResult<T>
  {
    OperationResult(DEFECT, None, EMPTY_RECEIPT, Some(LocalFailure(definition.operation, message)))
  }

  function FailedForCall<T>(definition: Definition, call: Call, message: ErrorText, now: int): OperationResult<T>
  {
    Failed<T>(definition, message).(receipt := CompleteReceipt(EMPTY_RECEIPT, call, now).value)
  }

  function Defect<T>(definition: Definition, call: Call, message: ErrorText, now: int): Ran<T>
  {
    Terminal(FailedForCall(definition, call, message, now))
  }

  /** queryResult and mutationResult. A query attempt cannot be uncertain. */
  function Settle<T>(call: Call, definition: Definition, attempt: Attempt<T>, now: int): Ran<T>
  {
    match attempt
    case BranchAttempt(branch, value, receipt, failure) =>
      if !HasBranch(definition.branches, branch) then Defect(definition, call, UNKNOWN_BRANCH, now)
      else if failure.Some? && !IsValidFailure(failure.value) then Defect(definition, call, INVALID_FAILURE, now)
      else
        var completed := CompleteReceipt(receipt, call, now);
        if completed.None? then Defect(definition, call, FOREIGN_RECEIPT, now)
        else Terminal(OperationResult(branch, Some(value), completed.value, failure))
    case UncertainAttempt(value, receipt, uncertainty) =>
      if !definition.isMutation then Defect(definition, call, INVALID_ATTEMPT, now)
      else if !HasBranch(definition.branches, UNCERTAIN) then
        Defect(definition, call, UNDECLARED_UNCERTAINTY, now)
      else if !IsValidFailure(uncertainty) then Defect(definition, call, INVALID_UNCERTAINTY, now)
      else
        var completed := CompleteReceipt(receipt, call, now);
        if completed.None? then Defect(definition, call, FOREIGN_RECEIPT, now)
        else Terminal(OperationResult(UNCERTAIN, Some(value), completed.value, Some(uncertainty)))
    case RetryAttempt(reason, retryAfter) =>
      if !IsValidFailure(reason) || retryAfter < 0 then Defect(definition, call, INVALID_RETRY, now)
      else RetryRequested(reason, retryAfter)
    case InvalidAttempt =>
      Defect(definition, call, INVALID_ATTEMPT, now)
  }

  /** newCall; None is its error. callID stands for deriveCallID. */
  function NewCall(context: Option<DexContext>, operation: OperationRef, connection: Connection,
      callID: string): Option<Call>
  {
    if context.None? || context.value.flowID == "" || context.value.stepExecutionID == "" then None
    else if !IsValidOperation(operation) || IsBlank(connection.provider) || IsBlank(connection.name) then None
    else Some(Call(callID, "", connection, operation))
  }

  /** The idempotency key of a mutation: its own, or the call ID when it returns none. */
  function KeyFor<T>(operation: Operation<T>, callID: string): string
  {
    var own := operation.key(callID);
    if own == "" then callID else own
  }

  /** RunQuery and RunMutation. optionError is the error of configureCall, if any. */
  function RunOperation<T>(context: Option<DexContext>, operation: Option<Operation<T>>, isMutation: bool,
      connection: Connection, callID: string, optionError: Option<ErrorText>, now: int): Ran<T>
    requires operation.Some? ==> operation.value.definition.isMutation == isMutation
  {
    if operation.None? then
      Terminal(Failed(Definition(isMutation, OperationRef("", ""), [], false), OPERATION_REQUIRED))
    else
      var definition := operation.value.definition;
      if !ValidDefinition(definition) then Terminal(Failed(definition, INVALID_DEFINITION))
      else
        var created := NewCall(context, definition.operation, connection, callID);
        if created.None? then Terminal(Failed(definition, INVALID_CALL))
        else
          var call := if isMutation then created.value.(idempotencyKey := KeyFor(operation.value, callID))
            else created.value;
          if isMutation && IsBlank(call.idempotencyKey) then
            Defect(definition, call.(idempotencyKey := ""), INVALID_KEY, now)
          else if optionError.Some? then Defect(definition, call, optionError.value, now)
          else Settle(call, definition, operation.value.invoke(call), now)
  }

  // ----- What every run guarantees -----

  /** A terminal result that an application can trust for a call. */
  ghost predicate WellFormedFor<T>(result: OperationResult<T>, definition: Definition, callID: string,
      idempotencyKey: string)
  {
    && HasBranch(definition.branches, result.branch)
    && result.receipt.callID == callID
    && result.receipt.idempotencyKey == idempotencyKey
    && result.receipt.provider != ""
    && (result.failure.Some? ==> IsValidFailure(result.failure.value))
    && (result.branch == UNCERTAIN ==> definition.isMutation)
  }

  /** An outcome that an application can trust for a call. */
  ghost predicate IsTrustworthy<T>(ran: Ran<T>, definition: Definition, call: Call)
  {
    match ran
    case Terminal(result) => WellFormedFor(result, definition, call.id, call.idempotencyKey)
    case RetryRequested(reason, delay) => IsValidFailure(reason) && delay >= 0
  }

  /** However Invoke behaves, settling its attempt gives a well-formed result or a valid retry. */
  lemma SettleIsWellFormed<T>(call: Call, definition: Definition, attempt: Attempt<T>, now: int)
    requires ValidDefinition(definition) && call.operation == definition.operation
    ensures IsTrustworthy(Settle(call, definition, attempt, now), definition, call)
  {
    hide ValidBranches, IsLowerCamel, HasBranch, IsConnectorID, CompleteReceipt;
    ConnectorIDNotEmpty(definition.operation);
  }

  /** The application sees what the provider answered. */
  ghost predicate Reports<T(!new)>(ran: Ran<T>, attempt: Attempt<T>)
  {
    match attempt
    case InvalidAttempt => false
    case BranchAttempt(branch, value, receipt, failure) =>
      exists filled :: Fills(receipt, filled) && ran == Terminal(OperationResult(branch, Some(value), filled, failure))
    case UncertainAttempt(value, receipt, uncertainty) =>
      exists filled ::
        Fills(receipt, filled) && ran == Terminal(OperationResult(UNCERTAIN, Some(value), filled, Some(uncertainty)))
    case RetryAttempt(reason, retryAfter) => ran == RetryRequested(reason, retryAfter)
  }

  /** Every member that the provider set is kept. */
  predicate Fills(receipt: Receipt, filled: Receipt)
  {
    && (receipt.callID != "" ==> filled.callID == receipt.callID)
    && (receipt.idempotencyKey != "" ==> filled.idempotencyKey == receipt.idempotencyKey)
    && (receipt.provider != "" ==> filled.provider == receipt.provider)
    && (receipt.observedAt != 0 ==> filled.observedAt == receipt.observedAt)
    && filled.objectID == receipt.objectID
  }

  predicate IsBareDefect<T>(ran: Ran<T>)
  {
    ran.Terminal? && ran.result.branch == DEFECT && ran.result.value.None? && ran.result.failure.Some?
  }

  /** Some trustworthy outcome reports the attempt. */
  ghost predicate CanBeReported<T(!new)>(call: Call, definition: Definition, attempt: Attempt<T>)
  {
    exists ran :: Reports(ran, attempt) && IsTrustworthy(ran, definition, call)
  }

  /** Settling loses no answer that any trustworthy outcome could report; every other becomes a defect without
      a value. */
  lemma ReportedIffPossible<T(!new)>(call: Call, definition: Definition, attempt: Attempt<T>, now: int)
    requires ValidDefinition(definition) && call.operation == definition.operation
    ensures var ran := Settle(call, definition, attempt, now);
      && (Reports(ran, attempt) <==> CanBeReported(call, definition, attempt))
      && (!CanBeReported(call, definition, attempt) ==> IsBareDefect(ran))
  {
    hide HasBranch, IsValidFailure, IsValidOperation, ValidBranches;
    var ran := Settle(call, definition, attempt, now);
    SettleIsWellFormed(call, definition, attempt, now);
    SettleReportsOrFails(call, definition, attempt, now);
    if CanBeReported(call, definition, attempt) {
      var other :| Reports(other, attempt) && IsTrustworthy(other, definition, call);
      OtherReportIsAccepted(call, definition, attempt, other, now);
    }
  }

  lemma SettleReportsOrFails<T(!new)>(call: Call, definition: Definition, attempt: Attempt<T>, now: int)
    ensures var ran := Settle(call, definition, attempt, now);
      Reports(ran, attempt) || IsBareDefect(ran)
  {
    hide HasBranch, IsValidFailure;
    if attempt.BranchAttempt? || attempt.UncertainAttempt? {
      var completed := CompleteReceipt(attempt.receipt, call, now);
      assert completed.Some? ==> Fills(attempt.receipt, completed.value);
    }
  }

  lemma OtherReportIsAccepted<T(!new)>(call: Call, definition: Definition, attempt: Attempt<T>, other: Ran<T>, now: int)
    requires Reports(other, attempt) && IsTrustworthy(other, definition, call)
    ensures Reports(Settle(call, definition, attempt, now), attempt)
  {
    hide HasBranch, IsValidFailure;
    if attempt.BranchAttempt? || attempt.UncertainAttempt? {
      var filled := CompleteReceipt(attempt.receipt, call, now).value;
      assert Fills(attempt.receipt, filled);
    }
  }

  /** A Step execution of a Flow, over a named connection, runs a validly defined operation. */
  predicate HasCall(context: Option<DexContext>, definition: Definition, connection: Connection)
  {
    && ValidDefinition(definition)
    && context.Some? && context.value.flowID != "" && context.value.stepExecutionID != ""
    && !IsBlank(connection.provider) && !IsBlank(connection.name)
  }

  /** A mutation is keyed by what it returns for the call ID, or by the call ID itself; a query has no key. */
  function CallFor<T>(operation: Operation<T>, connection: Connection, callID: string): Call
  {
    var own := operation.key(callID);
    Call(callID, if !operation.definition.isMutation then "" else if own == "" then callID else own,
         connection, operation.definition.operation)
  }

  lemma DefinitionHasOperation(definition: Definition)
    requires ValidDefinition(definition)
    ensures IsValidOperation(definition.operation) && definition.operation.connectorID != ""
  {
  }

  /** The operation is invoked, with exactly this call, if and only if there is a call,
    a mutation's key is not blank and
      no option fails; every other run is a defect without a value, which says why. */
  lemma RunInvokesIff<T>(context: Option<DexContext>, operation: Operation<T>, connection: Connection,
                         callID: string, optionError: Option<ErrorText>, now: int)
    ensures var definition, call := operation.definition, CallFor(operation, connection, callID);
      var ran := RunOperation(context, Some(operation), definition.isMutation, connection, callID, optionError, now);
      var hasCall := HasCall(context, definition, connection);
      var hasKey := definition.isMutation ==> !IsBlank(call.idempotencyKey);
      && (hasCall && hasKey && optionError.None? ==> ran == Settle(call, definition, operation.invoke(call), now))
      && (!(hasCall && hasKey && optionError.None?) ==> IsBareDefect(ran))
      && (hasCall && hasKey && optionError.Some? ==> ran.result.failure.value.message == optionError.value)
  {
    hide IsBlank, Settle, ValidBranches, HasBranch;
    if ValidDefinition(operation.definition) {
      DefinitionHasOperation(operation.definition);
    }
    hide ValidDefinition, IsValidOperation;
  }

  /** Without an operation the run is a defect too. */
  lemma NoOperationIsDefect<T>(context: Option<DexContext>, isMutation: bool, connection: Connection,
                               callID: string, optionError: Option<ErrorText>, now: int)
    ensures IsBareDefect(RunOperation<T>(context, None, isMutation, connection, callID, optionError, now))
  {
  }

  /** Every run ends on the defect branch before a Call exists, and otherwise is well formed for that Call. */
  lemma RunIsWellFormed<T>(context: Option<DexContext>, operation: Operation<T>, connection: Connection,
                           callID: string, optionError: Option<ErrorText>, now: int)
    ensures var definition, call := operation.definition, CallFor(operation, connection, callID);
      var ran := RunOperation(context, Some(operation), definition.isMutation, connection, callID, optionError, now);
      if HasCall(context, definition, connection) then
        IsTrustworthy(ran, definition, if IsBlank(call.idempotencyKey) then call.(idempotencyKey := "") else call)
      else
        IsBareDefect(ran) && IsValidFailure(ran.result.failure.value) && ran.result.receipt == EMPTY_RECEIPT
  {
    var definition, call := operation.definition, CallFor(operation, connection, callID);
    hide IsBlank, Settle, ValidBranches, HasBranch;
    if ValidDefinition(definition) {
      DefinitionHasOperation(definition);
      SettleIsWellFormed(call, definition, operation.invoke(call), now);
      DeclaresDefect(definition);
    }
    hide ValidDefinition, IsValidOperation;
    RunInvokesIff(context, operation, connection, callID, optionError, now);
    EmptyIsBlank(call.idempotencyKey);
  }

  lemma EmptyIsBlank(text: string)
    ensures text == "" ==> IsBlank(text)
  {
  }

  lemma DeclaresDefect(definition: Definition)
    requires ValidDefinition(definition)
    ensures HasBranch(definition.branches, DEFECT)
  {
  }

  /** A run that reaches the operation reports its answer exactly when a trustworthy outcome for that call can. */
  lemma RunReportsWhenPossible<T(!new)>(
    context: Option<DexContext>, operation: Operation<T>, connection: Connection, callID: string, now: int)
    requires HasCall(context, operation.definition, connection)
    requires operation.definition.isMutation ==> !IsBlank(CallFor(operation, connection, callID).idempotencyKey)
    ensures var call := CallFor(operation, connection, callID);
      var ran := RunOperation(context, Some(operation), operation.definition.isMutation, connection, callID, None, now);
      Reports(ran, operation.invoke(call)) <==> CanBeReported(call, operation.definition, operation.invoke(call))
  {
    hide Settle, Reports, CanBeReported, ValidDefinition, RunOperation;
    var call := CallFor(operation, connection, callID);
    RunInvokesIff(context, operation, connection, callID, None, now);
    ReportedIffPossible(call, operation.definition, operation.invoke(call), now);
  }

  lemma ConnectorIDNotEmpty(operation: OperationRef)
    requires IsValidOperation(operation)
    ensures operation.connectorID != ""
  {
  }
}
