# Verified core of the Dex connectors library

A Dafny model of the parts of the Dex connectors library whose correctness depends on several pieces fitting
together, with proofs of what they promise. `dafny verify dfyconfig.toml` checks the whole project.

**Connections across releases** (`Manifests`, `HostKeptCredentials`, `SortedStrings`, `ConnectionCompatibility`,
`ReportedBreaks`, `GeneratedValidators`, `AcceptedObjects`, `ConnectorVersions`, `ReleaseGate`, `GrantScopes`).
`connectorctl` admits a release when its version moves forward and its manifest keeps the connections of the latest
release of its major version. The gate is a state machine over the admitted releases. Stored JSON objects have a
meaning through the validators that code generation emits, so the pairwise check lifts to whole runs: what one release
accepts as a credential or as settings, every later release of that major version accepts. A credential stripped by the newest release's host-kept list
still serves applications of an older release, and the whole contract, scopes included, reaches over a major version
when all releases but at most one published their host-kept fields.

**Writes that happen once** (`SingleDispatchFence`, `CreateNote`, `CreateNoteResults`, `CreateNoteProgress`). The
fence is a class with the fields of the source. `CreateNote` puts the documented connector under an adversary: attempts
overlap, crash at any point and come back, checkpoints are lost, reordered or foreign, and acknowledgements fail. No
write ever starts after one that the provider may have processed, what an attempt reports to its caller is true, and
exactly the attempts that may send do.

**Operations, Steps and calls** (`Operations`, `ConnectorSteps`, `CallIdentity`, `BoundedMessages`). An arbitrary
operation implementation always gives a result that an application can trust, and a constructed Step always has a
place to go. The name hashed into a call ID is uniquely decodable. A bounded failure message is the longest valid
UTF-8 prefix (sections 3 and 4 of RFC 3629) of the sanitised message.

**Trigger delivery** (`TriggerErrors`, `TriggerDelivery`). Error classification over whole error trees, and the retry
loop over every script of outcomes, cancellations and nested consuming targets.

**Scanners** (`CommentScanner`, `CommentGrammar`, `Brackets`, `TemplatePatterns`, `TemplateGrammar`,
`CallArguments`). Index loops with state, each proved against a grammar that mentions neither index nor state.

**Generated code** (`PythonModels`, `SnakeCase`, `GoTimestamps`). Which generated dataclasses need arguments, where two
camel-to-snake converters agree, and the canonical timestamp form.

`Wrappers`, `Texts` and `Numerals` hold the options, characters and numerals that these share.

Loops, maps and objects that the source updates step by step are methods and a class here; each is proved equal to a
function, or against a property, and the lemmas are about that function.

## Where the code falls short of a promise

- Grant scopes. docs/versioning-and-releases.md:122-127 promises a token grant's scopes from the first release that
  declares the grant. The connection check compares scopes only when both releases declare it, and what stops a grant
  from being dropped and coming back with other scopes is the host-kept check: a grant's secret is a declared field, so
  dropping the grant changes the host-kept fields. That check applies only after a release that published them.
  `GrantScopes.KeptIffPublished`: the whole contract, scopes included, reaches from one release to another in every run
  exactly when at most one release, of those from the earlier one up to but not including the later one, was built
  without the host-kept rule.
  `GrantScopes.DroppedGrantForgetsScopes` gives the failing run for any two such releases.
- Typed nil marker. A nil `*UndeliverableTriggerError` stored in an error is returned unchanged by
  `MarkTriggerUndeliverable`, but its message is `<nil>`, so it does not survive the Worker boundary.
  `TriggerErrors.MarkerSurvivesWorker` shows that it is the only marker that does not.
- Long call fields. The four-byte length prefix wraps at 2^32. Calls that `newCall` accepts have distinct names exactly
  while their fields hold at most 2^32 bytes (`CallIdentity.DistinctExactlyBelow`); `CallIdentity.LongFieldsCollide`
  gives a family of colliding calls beyond that.
- The two camel-to-snake converters disagree on some plural acronyms. `SnakeCase.AgreementIsExact` says on which, and
  `SnakeCase.ConvertersDisagree` names `readAPIs`.

## Model

| member | source | states |
|---|---|---|
| `Manifests.ValidateFields` | schema/manifest.go:1185-1210 | no problem exactly when names match the pattern and differ, secrets are allowed and enums have values |
| `Manifests.AllFields` | schema/manifest.go:476-493 | the nested loops compute one credential field per name over all methods |
| `Manifests.FirstByNameProperties` | schema/manifest.go:476-493 | that list holds exactly the declared names, each once and optional, each with a declared type |
| `Manifests.GeneratedConfigFields` | internal/codegen/generate.go:257-269 | the generated Config holds spec.configuration and every method's settings made optional |
| `Manifests.MethodSettingsMembers` | internal/codegen/generate.go:257-269 | a method setting is in the Config exactly as an optional copy of some method's field |
| `HostKeptCredentials.HostKeptCredentials` | schema/host_kept_credentials.go:22-53 | the result is the method's fields that satisfy the documented rule (client secrets, refresh tokens, keys), in field order |
| `ConnectionCompatibility.MissingStrings` | schema/connection_compatibility.go:278-288 | the loop and the sort list exactly the set difference, strictly increasing |
| `SortedStrings.SortIsIncreasing` | schema/connection_compatibility.go:286 | sorting distinct values keeps the set and orders it strictly |
| `ConnectionCompatibility.FieldsByName` | schema/connection_compatibility.go:266-272 | the loop builds the last-declaration-wins map that the reports look fields up in |
| `ConnectionCompatibility.FindCredentialFieldBreaks` | schema/connection_compatibility.go:132-157 | the loops produce every credential-field break, in report order |
| `ConnectionCompatibility.FindSettingBreaks` | schema/connection_compatibility.go:159-184 | the loops produce every setting break, in report order |
| `ConnectionCompatibility.FieldBreaksEmpty` | schema/connection_compatibility.go:132-184 | no credential break iff the same fields are kept; no setting break iff settings only gain optional fields and enum values |
| `ConnectionCompatibility.PairConnectionMethods` | schema/connection_compatibility.go:96-112 | one pair per released method, with the label and the candidate method looked up by ID or default method |
| `ConnectionCompatibility.PairFindsServing` | schema/connection_compatibility.go:96-112 | the paired candidate is the one method that serves the released method, or none does |
| `ConnectionCompatibility.FindMethodBreaks` | schema/connection_compatibility.go:114-130 | the whole report of one method pair |
| `ConnectionCompatibility.MethodBreaksEmpty` | schema/connection_compatibility.go:114-130 | that report is empty iff type, credential fields, scopes and settings are kept |
| `ConnectionCompatibility.FindAuthMethodBreaks` | schema/connection_compatibility.go:74-88 | the whole report over default method and method pairs |
| `ConnectionCompatibility.ValidateConnectionCompatibility` | schema/connection_compatibility.go:39-46 | the whole report of a candidate against a released manifest |
| `ConnectionCompatibility.NoBreaksIffConnectionKept` | schema/connection_compatibility.go:26-46 | the error is nil iff every connection of the released manifest is kept, as the contract documents it |
| `ConnectionCompatibility.ValidateHostKeptCredentialCompatibility` | schema/connection_compatibility.go:53-66 | the error is nil iff every paired method keeps exactly its host-kept fields |
| `ConnectionCompatibility.PairsKeepHostKept` | schema/connection_compatibility.go:48-66 | which is the same as: every method that serves a released one has the same host-kept fields |
| `ReportedBreaks.ScopeBreaksMean` | schema/connection_compatibility.go:207-216 | an added-scopes break lists exactly the new scopes and a removed-scopes break exactly the lost ones, each reported iff there are any |
| `ReportedBreaks.OAuthScopeBreaksMean` | schema/connection_compatibility.go:195-205 | fixed scopes are reported as sets, and a change of source by the settings it names |
| `ReportedBreaks.FieldBreaksMean` | schema/connection_compatibility.go:132-191 | a field report holds a break iff that removal, addition or change was made |
| `ReportedBreaks.MethodBreaksMean` | schema/connection_compatibility.go:114-130 | a method report holds a break iff that change of type, fields, scopes or settings was made |
| `ReportedBreaks.ReportIsExact` | schema/connection_compatibility.go:26-46 | the whole report holds a break, under its label, iff that change was made between the manifests |
| `GeneratedValidators.MintedAccessTokenCredentials` | internal/codegen/generate_credentials.go:135-152 | lists exactly the fields filled from a minted access token |
| `GeneratedValidators.SharedRequiredCredentialFields` | internal/codegen/generate_credentials.go:95-111 | lists exactly the fields that the shared validator requires |
| `AcceptedObjects.AcceptedIffMeets` | internal/codegen/generate.go:568-594 | the checks of one field on the stored JSON: its type, its URL, enum or sign rule, and a filled value if required |
| `AcceptedObjects.SharedRequired` | internal/codegen/generate_credentials.go:95-111 | that list names exactly the fields that no host keeps and that are required or minted |
| `AcceptedObjects.CredentialAcceptedIff` | internal/codegen/generate_credentials.go:46-133 | either validator accepts a credential iff its members are declared and typed and it meets every field of the method it names, or of the default one |
| `AcceptedObjects.SettingsAcceptedIff` | internal/codegen/generate.go:257-269 | settings are accepted iff every member is a setting and meets it, a method's settings being optional |
| `GeneratedValidators.CredentialsStayAccepted` | internal/codegen/generate_credentials.go:46-133 | a candidate that passes the check accepts every stored credential the released validator accepts, with or without auth_method |
| `GeneratedValidators.CandidateAcceptsNoMore` | internal/codegen/generate_credentials.go:46-133 | among objects the released struct decodes and that select a method, both validators accept the same ones |
| `GeneratedValidators.SettingsStayAccepted` | internal/codegen/generate.go:568-594 | a candidate that passes the check accepts every stored settings object the released validator accepts |
| `GeneratedValidators.StrippedCredentialIsShared` | internal/codegen/generate_credentials.go:80-133 | stripping a method's host-kept fields from a full credential with filled minted fields satisfies the shared validator |
| `ConnectorVersions.VersionRoundTrip` | cmd/connectorctl/catalog.go:825-836 | a version string is the rendering of its parts, so parts and strings determine each other |
| `ConnectorVersions.PartsRoundTrip` | cmd/connectorctl/catalog.go:825-836 | every triple of ints is read back from its rendering |
| `ConnectorVersions.CompareConnectorVersions` | cmd/connectorctl/catalog.go:811-823 | the loop decides the lexicographic order, and is zero exactly for equal strings |
| `ConnectorVersions.OlderIsStrictTotalOrder` | cmd/connectorctl/catalog.go:811-823 | the order is irreflexive, total up to string equality and transitive, and majors never decrease along it |
| `ConnectorVersions.TagLine` | cmd/connectorctl/catalog.go:744-768 | a tag line is the release of its directory at the peeled commit of an annotated tag or the object of a plain one, and a legacy directory is its Go component |
| `ConnectorVersions.ReadLineIsTagLine` | cmd/connectorctl/catalog.go:744-757 | the scan reads a line iff it has three fields and its tag ends in a version |
| `ConnectorVersions.LatestReachableConnectorReleases` | cmd/connectorctl/catalog.go:731-771 | for each component the scan keeps a listed release that none listed is newer than, and misses no component |
| `ConnectorVersions.LatestVersionIsOrderIndependent` | cmd/connectorctl/catalog.go:742-770 | the version found does not depend on the order of the tag listing |
| `ConnectorVersions.SelectLanguageTag` | cmd/connectorctl/catalog.go:643-662 | the tag is the greatest completed version not above the declared one, or empty iff there is none |
| `ReleaseGate.ValidateVersionTransition` | cmd/connectorctl/catalog.go:797-809 | pending iff newer or first, behind iff older, invalid iff not a version |
| `ReleaseGate.ValidateGateCompatibility` | cmd/connectorctl/connection_compatibility.go:22-48 | passes iff the majors differ or both contracts are kept, the host-kept one only when the release published it |
| `ReleaseGate.DecideRelease` | cmd/connectorctl/catalog.go:240-264 | whatever the tag listing's order, the code admits a release exactly when the state machine steps |
| `ReleaseGate.LatestIsLast` | cmd/connectorctl/catalog.go:731-771 | in every run the scanned latest release is the last admitted one |
| `ReleaseGate.VersionsIncrease` | cmd/connectorctl/catalog.go:240-264 | versions strictly increase along every run |
| `ReleaseGate.MigrationIsOneMinor` | cmd/connectorctl/catalog.go:773-783 | in every run the release after a legacy Go tag is exactly the next minor version |
| `ReleaseGate.NewTagsAreFree` | cmd/connectorctl/catalog.go:773-783 | after any other tag only the version order and the connection contract restrict the next release |
| `ReleaseGate.MajorsAreContiguous` | cmd/connectorctl/connection_compatibility.go:18-22 | the releases of one major version are contiguous in every run |
| `ReleaseGate.CredentialsSurviveUpgrades` | docs/versioning-and-releases.md:117-140 | in every run a credential accepted by one release is accepted by every later release of its major version |
| `ReleaseGate.SettingsSurviveUpgrades` | docs/versioning-and-releases.md:117-140 | the same for stored settings |
| `ReleaseGate.HostKeptStable` | schema/connection_compatibility.go:48-66 | the method a stored credential selects keeps its host-kept fields along the whole major version |
| `ReleaseGate.SharedCredentialsSurviveUpgrades` | docs/versioning-and-releases.md:128-132 | stripping by the newest release leaves a credential the older shared validator accepts, with none of the older release's host-kept fields |
| `GrantScopes.KeptIsTransitiveIffGrantsAgree` | schema/connection_compatibility.go:122-127 | two passed checks amount to one iff no grant dropped in between comes back with other scopes |
| `GrantScopes.GrantsShow` | schema/token_grants.go:506-532 | a valid method declares its kind of token grant iff a host keeps one of its fields |
| `GrantScopes.KeptThroughHostKept` | schema/connection_compatibility.go:26-66 | two passed checks amount to one, scopes included, when either also compared the host-kept fields |
| `GrantScopes.BothKeptAlong` | docs/versioning-and-releases.md:122-132 | in every run both contracts reach over the whole major version among releases that published their host-kept fields |
| `GrantScopes.ConnectionKeptAlong` | docs/versioning-and-releases.md:117-138 | so does the whole connection contract with at most one release that did not |
| `GrantScopes.DroppedGrantForgetsScopes` | cmd/connectorctl/connection_compatibility.go:38-42 | for any two releases that did not, a run of the gate that drops a declared grant after the first and returns it with another scope after the second, while the stored credential keeps working |
| `GrantScopes.KeptIffPublished` | cmd/connectorctl/connection_compatibility.go:14-48 | for all publication flags, every run keeps the contract from one release to another iff at most one release before the later one is unpublished |
| `SingleDispatchFence.NewFence` | sdkgo/singledispatch/fence.go:111-137 | an error exactly for a missing context, an empty ID, an attempt below one, no timeout or an invalid window; otherwise a fresh fence whose write window leaves a sixth of the budget |
| `SingleDispatchFence.Fence.constructor` | sdkgo/singledispatch/fence.go:132-137 | a new fence has decided, dispatched and recorded nothing |
| `SingleDispatchFence.Fence.Decide` | sdkgo/singledispatch/fence.go:141-178 | the decision is made once, from the first heartbeat read, and permits a send iff this is the first attempt without a checkpoint or the prior attempt of this call left proof |
| `SingleDispatchFence.Fence.BeginDispatch` | sdkgo/singledispatch/fence.go:183-205 | the whole new state, result and heartbeats up to the send: a send is allowed only with a send function, a tenth of the budget left in the window and an acknowledged claim |
| `SingleDispatchFence.Fence.FinishSend` | sdkgo/singledispatch/fence.go:216-221 | only the send-finished flag changes |
| `SingleDispatchFence.Fence.RecordNotSent` | sdkgo/singledispatch/fence.go:225-233 | the pre-send retry forbids dispatch even when its heartbeat fails |
| `SingleDispatchFence.Fence.RecordCanResend` | sdkgo/singledispatch/fence.go:237-244 | proof of an unprocessed write is recorded only after the send, on a claim without provider ID |
| `SingleDispatchFence.Fence.RecordProviderID` | sdkgo/singledispatch/fence.go:248-255 | an accepted identity is recorded only after the send, on a claim |
| `CreateNote.StepKeepsInv` | sdkgo/README.md:566-613 | every step of any attempt, from any state, keeps the protocol invariant |
| `CreateNote.RunKeepsInv` | sdkgo/README.md:566-613 | so every reachable state has it |
| `CreateNote.NeverResendsUnsafely` | sdkgo/README.md:458-481 | in every run no write starts after an earlier one unless the provider first answered 429 or 503 to it |
| `CreateNote.AtMostOneEffect` | sdkgo/README.md:458-481 | in every run at most one attempt's write may have taken effect |
| `CreateNote.ProofReopensSend` | sdkpython/README.md:195-207 | recorded proof of the latest attempt lets the next attempt send |
| `CreateNoteProgress.DecisionIsExact` | sdkgo/singledispatch/fence.go:141-178 | in every run a deciding attempt goes on to send, reads back or ends uncertain, each iff the checkpoint it finds is as documented |
| `CreateNoteProgress.FirstAttemptMaySend` | sdkgo/singledispatch/fence.go:155-156 | the first attempt of every call may send |
| `CreateNoteProgress.UndisturbedCallIsAccepted` | sdkgo/README.md:566-613 | a call that meets no trouble writes and ends with the provider's identity |
| `CreateNoteProgress.RetryWritesProof` | sdkgo/README.md:587-606 | an attempt that fails before its write, or whose write was not processed, checkpoints the proof and asks for a retry |
| `CreateNoteProgress.ProvenRetryReopens` | sdkpython/README.md:195-207 | in every run, with that proof the next attempt may send |
| `CreateNoteProgress.ReadBackAcceptsIffFound` | sdkgo/README.md:574-585 | a read-back accepts iff the provider finds the note whose identity the checkpoint holds |
| `CreateNoteProgress.AnswerAcceptsIffCreated` | sdkgo/README.md:601-612 | an answer is accepted iff it is 201 with an identity, which is then checkpointed, and retried iff it is 429 or 503 |
| `CreateNoteResults.AcceptedWasCreated` | sdkgo/README.md:566-613 | in every run an attempt accepts only an identity that the provider gave with status 201, read back or direct |
| `CreateNoteResults.RetryLeavesNoEffect` | sdkgo/README.md:566-613 | in every run an attempt that asks for a retry left no write that may have taken effect |
| `CreateNoteProgress.PermittedAttemptCanAccept` | sdkgo/README.md:566-613 | from every reachable state an attempt that may send can write and end with the provider's identity |
| `Operations.ValidateFailure` | sdkgo/errors.go:71-92 | accepts exactly known kinds with provider, operation and message |
| `Operations.ValidateBranches` | sdkgo/definition.go:66-84 | succeeds iff identifiers are valid, described and unique, and then returns exactly the declared ones |
| `Operations.ValidateDefinition` | sdkgo/definition.go:17-47 | succeeds iff operation, branches and defaults are valid, defect is declared, and a Query declares no uncertain branch |
| `Operations.CompleteReceipt` | sdkgo/types.go:504-524 | fails exactly on a foreign receipt; otherwise names the call, its key and a provider and keeps the object |
| `Operations.LocalFailure` | sdkgo/types.go:556-566 | always validates |
| `Operations.SettleIsWellFormed` | sdkgo/types.go:367-437 | whatever Invoke returned, the result has a declared branch, this call's receipt and a valid failure, or is a valid retry |
| `Operations.ReportedIffPossible` | sdkgo/types.go:367-437 | an answer reaches the application unchanged iff any trustworthy outcome could report it; any other becomes a defect without a value |
| `Operations.RunInvokesIff` | sdkgo/types.go:322-365 | the operation is invoked with exactly this call iff definition, Step context, connection, key and options are all valid; every other run is a defect without a value |
| `Operations.NoOperationIsDefect` | sdkgo/types.go:322-325 | a run without an operation is a defect without a value |
| `Operations.RunIsWellFormed` | sdkgo/types.go:322-365 | every run is a valid bare defect before a Call exists and trustworthy for that Call afterwards |
| `Operations.RunReportsWhenPossible` | sdkgo/types.go:322-437 | a run that reaches the operation reports its answer iff a trustworthy outcome for the call it received can |
| `ConnectorSteps.ValidateBranchTargets` | sdkgo/step.go:365-396 | succeeds iff the wiring is allowed and complete, and then binds exactly the wired branches |
| `ConnectorSteps.NewStep` | sdkgo/step.go:165-241 | constructs a Step iff factory, definition and wiring are valid |
| `ConnectorSteps.DeclaredBranchRoutes` | sdkgo/step.go:365-409 | every declared branch of a constructed Step is wired or optional |
| `ConnectorSteps.StepAlwaysRoutes` | sdkgo/step.go:270-409 | every execution is the run's retry, an Attribute error, the target wired for the result's branch, or a forced failure on an unwired optional branch; the unconfigured-branch error is unreachable |
| `CallIdentity.LengthRoundTrip` | sdkgo/types.go:492-502 | the big-endian prefix reads back the length modulo 2^32 |
| `CallIdentity.DerivePayload` | sdkgo/types.go:492-502 | the loop appends the four length-prefixed fields |
| `CallIdentity.PayloadOfFour` | sdkgo/types.go:492-493 | the hashed fields are the flow, the step execution, the connector and the operation, in this order |
| `CallIdentity.PayloadRoundTrip` | sdkgo/types.go:492-502 | a decoder recovers any list of fields shorter than 2^32 bytes |
| `CallIdentity.DistinctCallsHaveDistinctNames` | sdkgo/types.go:447-467 | such calls share a hashed name iff they are the same call |
| `CallIdentity.LongFieldsCollide` | sdkgo/types.go:492-502 | calls whose flow ID or step execution ID passes 2^32 bytes share a name, for every flow, step and operation |
| `CallIdentity.DistinctExactlyBelow` | sdkgo/types.go:447-502 | accepted calls with fields shorter than a limit have distinct names iff the limit is at most 2^32 + 1 |
| `BoundedMessages.DecodedRune` | sdkgo/step.go:425-440 | re-encoding a decoded rune gives a well-formed character, the same bytes exactly when they were one |
| `BoundedMessages.CharactersArePrefixes` | sdkgo/step.go:425-440 | UTF-8 is a prefix code: a prefix of a text that is whole characters is a prefix of its characters |
| `BoundedMessages.UnchangedIffValid` | sdkgo/step.go:425-440 | sanitising leaves exactly the valid texts alone |
| `BoundedMessages.SanitisedByCharacter` | sdkgo/step.go:425-440 | sanitising keeps each whole character and replaces each byte that starts none |
| `BoundedMessages.CharacterIffEncoded` | sdkgo/step.go:425-440 | the characters are exactly the encodings of the Unicode scalar values |
| `BoundedMessages.IsValidString` | sdkgo/step.go:425-440 | the validity scan decides the character grammar |
| `BoundedMessages.BoundRunes` | sdkgo/step.go:425-440 | the loop keeps the longest valid prefix of the sanitised message within 1024 bytes |
| `BoundedMessages.BoundedFailureMessage` | sdkgo/step.go:425-440 | so does the function, with the truncation flag set iff the sanitised message is longer, and its fast path agrees |
| `TriggerErrors.AsFindsFirst` | sdkgo/trigger_delivery.go:78-82 | errors.As finds the first match of the depth-first order of the error tree |
| `TriggerErrors.MarkedIsUndeliverable` | sdkgo/trigger_delivery.go:68-82 | marking gives an outermost undeliverable error and is idempotent |
| `TriggerErrors.ClassificationIsIdempotent` | sdkgo/trigger_delivery.go:206-227 | classifying twice is classifying once, and a retryable error is returned unchanged |
| `TriggerErrors.ClassificationIsExact` | sdkgo/trigger_delivery.go:206-227 | over all error trees, undeliverable iff the tree holds a marker or missing Flow, its first Worker failure is a handler's marker, or its first mapping failure is an encoding |
| `TriggerErrors.WorkerFailureIsExact` | sdkgo/trigger_delivery.go:229-236 | a Worker failure is consumed iff its code is FailedPrecondition and its message has the prefix |
| `TriggerErrors.MarkerSurvivesWorker` | sdkgo/trigger_delivery.go:41-82 | every marker returned outermost survives the Worker boundary, except the typed nil |
| `TriggerErrors.FlowTargetIsExact` | sdkgo/trigger.go:301-323 | a Flow target consumes iff filtered, started or already started; marks iff undeliverable; returns any other error unchanged |
| `TriggerErrors.RpcTargetIsExact` | sdkgo/trigger.go:351-373 | an RPC target consumes iff filtered, applied or its response is undecodable; marks iff undeliverable; returns any other error unchanged |
| `TriggerDelivery.TriggerRetryDelay` | sdkgo/trigger_delivery.go:193-199 | the loop gives min(250 ms times 2^(n-1), 30 s) without 64-bit overflow |
| `TriggerDelivery.ConsumedOnceAtAnyDepth` | sdkgo/trigger_delivery.go:240-255 | at any nesting depth an undeliverable outcome is logged once, and any other passes through |
| `TriggerDelivery.DeliverTrigger` | sdkgo/trigger_delivery.go:128-159 | the target is called up to the first consuming outcome or the context's end, nil iff consumed, with exactly these retry, skip and delivery records |
| `TriggerDelivery.SkippedOnceNeverDelivered` | sdkgo/trigger_delivery.go:120-159 | a consumed undeliverable event is logged as skipped exactly once and never as delivered |
| `TriggerDelivery.RecordsAreExact` | sdkgo/trigger_delivery.go:128-159 | a retry record stands iff that attempt failed and was to be retried, with its delay; a late-delivery record iff that later attempt succeeded |
| `CommentScanner.RemoveComments` | script/studio_bundle_theme_check.py:473-498 | the index loops compute the rendering of the text's tokens |
| `CommentScanner.LexIsLossless` | script/studio_bundle_theme_check.py:473-498 | the tokens spell the text |
| `CommentGrammar.LexIsTheOnlyReading` | script/studio_bundle_theme_check.py:473-498 | the scanner's tokens are the one reading that the rules for literals, escapes, comments and `://` allow |
| `CommentScanner.LexOfRemoved` | script/studio_bundle_theme_check.py:473-498 | in either mode the tokens of the result are its source's tokens with comments cleaned away and literals emptied unless kept |
| `CommentScanner.RemovalIsStable` | script/studio_bundle_theme_check.py:473-498 | two passes in any modes equal one pass that keeps string text iff both do |
| `CommentScanner.ResultHasNoComments` | script/studio_bundle_theme_check.py:473-498 | the result scans without any comment, and without any text in a literal unless it is kept |
| `CommentScanner.KeptTextKeepsLiterals` | script/studio_bundle_theme_check.py:473-498 | the keeping mode keeps every literal, in order and unchanged |
| `CommentScanner.UnchangedIffUncommented` | script/studio_bundle_theme_check.py:473-498 | the keeping mode leaves a text unchanged iff it holds no comment |
| `Brackets.AcceptsIffBalanced` | script/studio_bundle_theme_check.py:451-470 | a bracket stack ends empty exactly on the texts of the nesting grammar |
| `TemplatePatterns.HasSingleAnchoredTemplateGroup` | schema/token_grants.go:997-1024 | accepts exactly an anchored group whose body, with escapes and classes complete, nests its parentheses |
| `TemplateGrammar.SingleGroupIff` | schema/token_grants.go:997-1024 | which is the grammar of escapes, character classes and nested parentheses, said without a scanner |
| `CallArguments.FindCallArgumentSpans` | script/studio_bundle_theme_check.py:451-470 | a result iff the call's brackets match up to a closing parenthesis; then the pieces between top-level commas, without a blank last one |
| `CallArguments.SplitIsUnique` | script/studio_bundle_theme_check.py:451-470 | the top-level commas determine the pieces |
| `CallArguments.PiecesAreOrdered` | script/studio_bundle_theme_check.py:451-470 | the pieces are in order and disjoint |
| `CallArguments.SpansRebuild` | script/studio_bundle_theme_check.py:451-470 | joining the spans with commas rebuilds the argument text up to a blank final piece |
| `PythonModels.RequiredModels` | cmd/connectorctl/python_codegen.py:217-236 | the loop ends at the least closed set, a fixpoint |
| `PythonModels.RequiredIffReachesEnum` | cmd/connectorctl/python_codegen.py:217-236 | a model is required iff a chain of strict references leads from it to a strict enum field |
| `PythonModels.MissingDefaultIsRequired` | cmd/connectorctl/python_codegen.py:130-183 | a field without a default puts its model in the required set |
| `PythonModels.NonRequiredConstructs` | cmd/connectorctl/python_codegen.py:271-317 | without by-value cycles, building a non-required model with no arguments terminates and succeeds |
| `PythonModels.ConstructsIffNotRequired` | cmd/connectorctl/python_codegen.py:217-317 | for all models the Go loader emits, no arguments suffice iff the model is not required |
| `PythonModels.BuiltNestsByValue` | cmd/connectorctl/python_codegen.py:130-183 | a model built without arguments nests a model for each by-value reference and nothing else |
| `SnakeCase.LowerCamelToSnake` | cmd/connectorctl/dex_connector_manifest.go:167-186 | the loop inserts underscores at the marked positions and lowercases |
| `SnakeCase.GoSnakeIsWritten` | cmd/connectorctl/dex_connector_manifest.go:167-186 | where underscores stand and what each character becomes, by character ranges |
| `SnakeCase.ErasingGivesLowercase` | cmd/connectorctl/dex_connector_manifest.go:167-186 | erasing underscores from the output gives the lowercased name |
| `SnakeCase.AcronymsAreInserted` | cmd/connectorctl/python_codegen.py:70-74 | the backtracking acronym rewrite only inserts underscores, in front of the last capital of each run |
| `SnakeCase.WordsAreInserted` | cmd/connectorctl/python_codegen.py:70-74 | the word rewrite only inserts underscores at lower-to-upper steps |
| `SnakeCase.PythonIsInsertion` | cmd/connectorctl/python_codegen.py:70-74 | the three rewrites together are one insertion into the retitled name, with dashes replaced |
| `SnakeCase.AgreementIsExact` | cmd/connectorctl/python_codegen.py:70-74 | on every lower-camel name the two converters agree iff it has no plural acronym other than a final IDs or URLs that starts a word |
| `SnakeCase.ConvertersDisagree` | cmd/connectorctl/dex_connector_manifest.go:167-186 | the converters disagree on the operation name readAPIs |
| `GoTimestamps.ExecIffRendered` | internal/codegen/typescript_timestamp.go:18-22 | the pattern matches with given groups iff the groups are well formed and spell the text |
| `GoTimestamps.AcceptedIffExists` | internal/codegen/typescript_timestamp.go:21-33 | accepted iff the pattern matches an existing day, a time of that day and a readable offset |
| `GoTimestamps.MonthsFillTheYear` | internal/codegen/typescript_timestamp.go:28-29 | the month lengths add up to every year's length in the 4, 100 and 400 year cycle |
| `GoTimestamps.CanonicalKeepsMeaning` | internal/codegen/typescript_timestamp.go:36-47 | the canonical form matches, is accepted if the input was, and keeps civil time, offset minutes and nanoseconds |
| `GoTimestamps.CanonicalIffSameMeaning` | internal/codegen/typescript_timestamp.go:36-47 | within a day of UTC two timestamps have one canonical form iff they mean the same |
| `GoTimestamps.CanonicalIsTheOne` | internal/codegen/typescript_timestamp.go:36-47 | within a day of UTC the result is the one text of its meaning with a two-digit hour, the fewest fraction digits after a dot, and Z iff there is no offset |
| `GoTimestamps.FarOffsetIsUnchanged` | internal/codegen/typescript_timestamp.go:42 | a timestamp a day or more from UTC is returned as it is |
| `GoTimestamps.CanonicalIsIdempotent` | internal/codegen/typescript_timestamp.go:36-47 | canonicalising twice is canonicalising once |

## Left out

- Git, subprocess, file, network and archive code; git is a tag listing and a map from commits to snapshots.
- Most of `Manifest.Validate`: only the uniqueness, default-method, shared-type and token-grant rules that the release theorems use.
- Manifest rules that change between releases: every release of a run passed the same rules.
- Manifests.ValidateFields: Go names, descriptions, default values and unknown type names are not in the model.
- GrantScopes.KeptIffPublished: at most 2^63 - 1 releases, one for each minor version that an int can hold.
- Emitted source text: validators and dataclasses are modelled by their meaning.
- Configuration defaults: settings theorems are about stored objects before defaults are applied.
- Case-insensitive JSON member matching and Go names: a stored member matches a field by its exact wire name.
- Required boolean fields: the emitted validator does not compile, so it accepts nothing here.
- Versions with a part above the int range, on which the source panics: `IsVersion` and `VersionsFit` exclude them.
- Which of two tags with the same version the scan keeps; only the version is listing-order independent, and no run of the gate has two.
- Rounding of the fence's write window, which is a real number here, and the five-second ticker period: a claim may repeat at any moment.
- SHA-1 and UUID version 5: identity is proved for the hashed name.
- The Dex client, contexts, clocks and log attributes: parameters and a trace of records.
- Panics inside `Invoke`, and definitions that change between calls.
- Query and Mutation runs share one model with a flag; error texts are abbreviated, as no branch depends on them.
- `stepOptions`, the wording of forced failures, and the factory's name and annotation checks.
- `ModelDependencyOrder`, `isPortableTemplatePattern`, float durations and the durable inbox.
- SnakeCase.PythonIsInsertion: letters are ASCII, and a name that ends in a newline, where `$` also matches before it, is not modelled; neither is a lower-camel name.
- PythonModels.NonRequiredConstructs: by-value references are acyclic, as Go requires of the structs they come from.
