/** Query and Mutation Steps: branch wiring at construction, routing at execution. */
module ConnectorSteps {
  import opened Wrappers
  import opened Operations

  /** A Dex Step destination; targets without one are nil or have a blank Step type. */
  datatype StepTarget = StepTarget(stepType: string)

  datatype BranchTarget = BranchTarget(branch: string, target: Option<StepTarget>)

  predicate HasStep(target: Option<StepTarget>)
  {
    target.Some? && !IsBlank(target.value.stepType)
  }

  datatype Wiring = Wiring(resolved: map<string, StepTarget>, optional: set<string>)

  ghost predicate IsOptionalBranch(definitions: seq<BranchDefinition>, id: string)
  {
    exists i :: 0 <= i < |definitions| && definitions[i].id == id && definitions[i].isOptional
  }

  /** Some target wires the branch to a Step. */
  ghost predicate IsWired(targets: seq<BranchTarget>, id: string, step: StepTarget)
  {
    exists i ::
      0 <= i < |targets| && targets[i].branch == id && targets[i].target == Some(step) && HasStep(targets[i].target)
  }

  ghost predicate TargetAllowed(definitions: seq<BranchDefinition>, target: BranchTarget)
  {
    HasBranch(definitions, target.branch) && (HasStep(target.target) || IsOptionalBranch(definitions, target.branch))
  }

  /** The wiring that a factory accepts. */
  ghost predicate ValidTargets(definitions: seq<BranchDefinition>, targets: seq<BranchTarget>)
  {
    && (forall i :: 0 <= i < |targets| ==> TargetAllowed(definitions, targets[i]))
    && (forall i, j :: 0 <= i < j < |targets| && HasStep(targets[i].target) && HasStep(targets[j].target) ==>
      targets[i].branch != targets[j].branch)
    && (forall id :: HasBranch(definitions, id) && !IsOptionalBranch(definitions, id) ==>
          exists step :: IsWired(targets, id, step))
  }

  method CollectBranches(definitions: seq<BranchDefinition>) returns (expected: set<string>, optional: set<string>)
    ensures forall id :: id in expected <==> HasBranch(definitions, id)
    ensures forall id :: id in optional <==> IsOptionalBranch(definitions, id)
  {
    expected, optional := {}, {};
    for index := 0 to |definitions|
      invariant forall id :: id in expected <==> exists i :: 0 <= i < index && definitions[i].id == id
      invariant forall id :: id in optional <==>
        exists i :: 0 <= i < index && definitions[i].id == id && definitions[i].isOptional
    {
      expected := expected + {definitions[index].id};
      if definitions[index].isOptional {
        optional := optional + {definitions[index].id};
      }
    }
  }

  predicate Binds(resolved: map<string, StepTarget>, id: string, step: StepTarget)
  {
    id in resolved && resolved[id] == step
  }

  /** The map holds exactly the wired branches. */
  ghost predicate Resolves(resolved: map<string, StepTarget>, targets: seq<BranchTarget>)
  {
    forall id, step :: Binds(resolved, id, step) <==> IsWired(targets, id, step)
  }

  /** One more target: skipped without a Step, bound otherwise. */
  lemma ResolvesSnoc(resolved: map<string, StepTarget>, targets: seq<BranchTarget>, target: BranchTarget)
    requires Resolves(resolved, targets)
    ensures !HasStep(target.target) ==> Resolves(resolved, targets + [target])
    ensures HasStep(target.target) && target.branch !in resolved ==>
      target.target.Some? && Resolves(resolved[target.branch := target.target.value], targets + [target])
  {
    hide IsWired, IsBlank;
    forall id, step ensures IsWired(targets + [target], id, step) <==>
      (IsWired(targets, id, step) || (target.branch == id && target.target == Some(step) && HasStep(target.target)))
    {
      WiredSnoc(targets, target, id, step);
    }
    assert target.branch !in resolved ==> forall step :: !Binds(resolved, target.branch, step);
    if HasStep(target.target) {
      var bound := resolved[target.branch := target.target.value];
      forall id, step
        ensures target.branch !in resolved ==> (Binds(bound, id, step) <==> IsWired(targets + [target], id, step))
      {
        assert id != target.branch ==> (Binds(bound, id, step) <==> Binds(resolved, id, step));
        assert Binds(resolved, id, step) <==> IsWired(targets, id, step);
      }
    }
  }

  lemma WiredSnoc(targets: seq<BranchTarget>, target: BranchTarget, id: string, step: StepTarget)
    ensures IsWired(targets + [target], id, step) <==>
      IsWired(targets, id, step) || (target.branch == id && target.target == Some(step) && HasStep(target.target))
  {
    var longer := targets + [target];
    if IsWired(targets, id, step) {
      var i :| 0 <= i < |targets| && targets[i].branch == id && targets[i].target == Some(step) &&
        HasStep(targets[i].target);
      assert longer[i] == targets[i];
    }
    if target.branch == id && target.target == Some(step) && HasStep(target.target) {
      assert longer[|targets|] == target;
    }
  }

  /** validateBranchTargets; None is its error. */
  method ValidateBranchTargets(definitions: seq<BranchDefinition>, targets: seq<BranchTarget>)
      returns (wiring: Option<Wiring>)
    ensures wiring.Some? <==> ValidTargets(definitions, targets)
    ensures wiring.Some? ==> Resolves(wiring.value.resolved, targets)
    ensures wiring.Some? ==> forall id :: id in wiring.value.optional <==> IsOptionalBranch(definitions, id)
  {
    hide HasBranch, IsOptionalBranch, HasStep, IsBlank;
    var expected, optional := CollectBranches(definitions);
    var resolved: map<string, StepTarget> := map[];
    for index := 0 to |targets|
      invariant forall i :: 0 <= i < index ==> TargetAllowed(definitions, targets[i])
      invariant forall i, j :: 0 <= i < j < index && HasStep(targets[i].target) && HasStep(targets[j].target) ==>
        targets[i].branch != targets[j].branch
      invariant forall i :: 0 <= i < index && HasStep(targets[i].target) ==> targets[i].branch in resolved
      invariant Resolves(resolved, targets[..index])
    {
      var target := targets[index];
      assert targets[..index + 1] == targets[..index] + [target];
      ResolvesSnoc(resolved, targets[..index], target);
      if target.branch !in expected {
        return None;
      }
      if !HasStep(target.target) {
        if target.branch in optional {
          continue;
        }
        return None;
      }
      StepIsSome(target.target);
      if target.branch in resolved {
        assert Binds(resolved, target.branch, resolved[target.branch]);
        assert IsWired(targets[..index], target.branch, resolved[target.branch]);
        return None;
      }
      resolved := resolved[target.branch := target.target.value];
    }
    assert targets[..|targets|] == targets;
    if exists id :: id in expected && id !in resolved && id !in optional {
      ghost var id :| id in expected && id !in resolved && id !in optional;
      assert forall step :: !Binds(resolved, id, step);
      return None;
    }
    forall id | HasBranch(definitions, id) && !IsOptionalBranch(definitions, id)
      ensures exists step :: IsWired(targets, id, step)
    {
      assert Binds(resolved, id, resolved[id]);
      assert IsWired(targets, id, resolved[id]);
    }
    wiring := Some(Wiring(resolved, optional));
  }

  lemma StepIsSome(target: Option<StepTarget>)
    requires HasStep(target)
    ensures target.Some?
  {
  }

  // ----- Execution -----

  /** A constructed Step: its operation, connection, targets and the wiring that construction computed. */
  datatype Step<T> = Step(operation: Operation<T>, connection: Connection, targets: seq<BranchTarget>, wiring: Wiring)

  /** What NewQueryStep and NewMutationStep leave behind when they succeed. */
  ghost predicate IsConstructed<T>(step: Step<T>)
  {
    var definitions := step.operation.definition.branches;
    && ValidDefinition(step.operation.definition)
    && ValidTargets(definitions, step.targets)
    && Resolves(step.wiring.resolved, step.targets)
    && (forall id :: id in step.wiring.optional <==> IsOptionalBranch(definitions, id))
  }

  /** NewQueryStep and NewMutationStep; hasValidFactory stands for the checks of names, annotations and options. */
  method NewStep<T>(operation: Option<Operation<T>>, connection: Connection, targets: seq<BranchTarget>,
      hasValidFactory: bool)
    returns (step: Option<Step<T>>)
    ensures step.Some? <==>
      (operation.Some? && hasValidFactory && ValidDefinition(operation.value.definition) &&
       ValidTargets(operation.value.definition.branches, targets))
    ensures step.Some? ==>
      IsConstructed(step.value) && step.value.targets == targets && step.value.operation == operation.value
  {
    if operation.None? {
      return None;
    }
    var isValid := ValidateDefinition(operation.value.definition);
    if !isValid || !hasValidFactory {
      return None;
    }
    var wiring := ValidateBranchTargets(operation.value.definition.branches, targets);
    if wiring.None? {
      return None;
    }
    step := Some(Step(operation.value, connection, targets, wiring.value));
  }

  datatype Decision<T> =
    | RunError(reason: Failure, delay: int)
    | AttributeError
    | GoTo(target: StepTarget, result: OperationResult<T>)
    | ForceFail(branch: string, failure: Option<Failure>)
    | UnconfiguredBranch(id: string)

  function RouteBranch<T>(wiring: Wiring, result: OperationResult<T>): Decision<T>
  {
    if result.branch in wiring.resolved then GoTo(wiring.resolved[result.branch], result)
    else if result.branch in wiring.optional then ForceFail(result.branch, result.failure)
    else UnconfiguredBranch(result.branch)
  }

  /** QueryStep.Execute and MutationStep.Execute; failsAttribute is a failing write of the result Attribute. */
  function Execute<T>(step: Step<T>, context: Option<DexContext>, callID: string, optionError: Option<ErrorText>,
      now: int, failsAttribute: bool): Decision<T>
  {
    match RunOperation(context, Some(step.operation), step.operation.definition.isMutation, step.connection, callID,
      optionError, now)
    case RetryRequested(reason, delay) => RunError(reason, delay)
    case Terminal(result) => if failsAttribute then AttributeError else RouteBranch(step.wiring, result)
  }

  /** A declared branch is wired to a Step or optional. */
  lemma DeclaredBranchRoutes<T>(step: Step<T>, id: string)
    requires IsConstructed(step) && HasBranch(step.operation.definition.branches, id)
    ensures id in step.wiring.resolved || id in step.wiring.optional
  {
    hide HasBranch, IsOptionalBranch, ValidDefinition;
    if !IsOptionalBranch(step.operation.definition.branches, id) {
      var target :| IsWired(step.targets, id, target);
      assert Binds(step.wiring.resolved, id, target);
    }
  }

  /** However the operation behaves, a constructed Step ends in a run or Attribute error, the target wired for a
      declared branch, or a forced failure on an unwired optional branch. */
  lemma StepAlwaysRoutes<T>(step: Step<T>, context: Option<DexContext>, callID: string, optionError: Option<ErrorText>,
      now: int, failsAttribute: bool)
    requires IsConstructed(step)
    ensures var definition := step.operation.definition;
      var ran :=
        RunOperation(context, Some(step.operation), definition.isMutation, step.connection, callID, optionError, now);
      match Execute(step, context, callID, optionError, now, failsAttribute)
      case RunError(reason, delay) => ran == RetryRequested(reason, delay) && IsValidFailure(reason) && delay >= 0
      case AttributeError => ran.Terminal? && failsAttribute
      case GoTo(target, result) =>
        ran == Terminal(result) && HasBranch(definition.branches, result.branch) &&
          IsWired(step.targets, result.branch, target)
      case ForceFail(branch, failure) =>
        && ran.Terminal? && ran.result.branch == branch && ran.result.failure == failure
        && HasBranch(definition.branches, branch) && IsOptionalBranch(definition.branches, branch)
        && (forall target :: !IsWired(step.targets, branch, target))
        && (failure.Some? ==> IsValidFailure(failure.value))
      case UnconfiguredBranch(_) => false
  {
    hide HasBranch, IsOptionalBranch, IsWired, ValidTargets, ValidBranches, RunOperation, IsValidOperation, NewCall;
    var definition := step.operation.definition;
    RunIsWellFormed(context, step.operation, step.connection, callID, optionError, now);
    var ran :=
      RunOperation(context, Some(step.operation), definition.isMutation, step.connection, callID, optionError, now);
    if ran.Terminal? {
      assert HasBranch(definition.branches, ran.result.branch);
      DeclaredBranchRoutes(step, ran.result.branch);
      var id := ran.result.branch;
      if id in step.wiring.resolved {
        assert Binds(step.wiring.resolved, id, step.wiring.resolved[id]);
      } else {
        assert forall target :: !Binds(step.wiring.resolved, id, target);
      }
    }
  }
}
