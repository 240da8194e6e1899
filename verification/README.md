# Gopherstack verification model

Gopherstack emulates AWS in one Go binary. This project models the parts of the
repository that are algorithms or protocols rather than plumbing, and proves what
they promise:

- the tag router of `cli.go`: which backend the Resource Groups Tagging API hands an
  ARN to, over the ninety-nine registrations `cli.go` makes, and the functions that
  read a service or a resource type out of an ARN (`ArnRouter`, `ResourceTypes`);
- the background protocols of `cli.go`: the purge worker's ticks under a TTL that
  changes while it runs, the purge cycle with its timeouts and grace periods, and the
  default KMS key that concurrent callers create once (`PurgeWorker`, `PurgeCycle`,
  `PurgeSchedule`, `KeyCache`);
- the translation of DynamoDB stream attribute values to their wire form
  (`StreamAttrs`);
- `cmd/clientcoverage`: the two-pass walk that credits SDK client calls, who owns a
  call, what is recorded and what the report counts (`CoverageWalk`, `CoverageEvidence`,
  `ScopedWalk`, `StatementOrder`, `Rebinding`, `ClientCoverage`, `CoverageReport`);
- `cmd/acceptguard` and `cmd/bodyclass`: scans of Go syntax trees with early exits, and
  the memoized SDK look-ups (`GoSyntax`, `AcceptGuard`, `SdkCache`, `BodyClass`,
  `OpClass`);
- the small parsers: closing trailers in commit messages (`TrailerGrammar`,
  `TrailerSearch`, `TrailerVisibility`, `Trailers`, `TrailerScan`), module pins with wrapped comments
  (`CheckPins`, `PinVerdict`) and the flags of `awsgs` (`Awsgs`).

`Text`, `Sequences` and `Wrappers` hold what several modules share.

Code that works by updating variables is modelled by methods and classes. A method's
contract states the result outright, or equates it with a function of its input or of the
old state; such a function is then characterised exactly, for all inputs, in terms that do
not use it (the lemmas named `...Exact`), and what the source promises is proved of it.
Concurrent code is a transition system, and results about it hold in every interleaving.
Regular expressions are written out as matchers and related to a printed form of what they
match.

## Where the code and its own comments part

The model follows the code. Two comments promise more than the code keeps; each has a lemma
with a failing input and the exact condition under which the promise holds.

- `extractSwitchKeys` is said to return the first switch's keys. A later switch outside
  the first overwrites them (`BodyClass.SwitchKeysAreTheLast`, `BodyClass.LaterSwitchWins`).
- `scanTrailers` looks lower-cased ids up in a map keyed by the ids as written, so an
  issue whose id is not all lower case is reported as a typo, unless the map also holds the
  lower-case spelling (`TrailerScan.MixedCaseIssueIsTypo`).

Four limits that no comment mentions are stated the same way.

- A trailer whose verb stands where an earlier clause is still reading the body of an id is
  taken for id text. It is read as a trailer if and only if its place is visible: at a word
  boundary, and not right after a chain that starts at a visible place and is cut inside the
  body of its last id (`TrailerVisibility.VisibleIffCovered`, `HiddenIffSwallowed`; a family
  of hidden trailers is `HiddenTrailer`). A hyphen before the verb alone hides nothing.
- A client variable bound to two modules can lose calls. The flat walk credits a call like a
  scoped walk does if and only if the variable's last binding in source order names the
  module it holds there (`ScopedWalk.CallCreditedIffLastBinding`; a failing function is
  `Rebinding.RebindingLosesACall`).
- A service that lists a module more than once owns none of the module's calls.
  `ClientCoverage.OwnerByListings` gives owner and ambiguity for every census with distinct
  names. `cmd/opcensus/main.go:177-205` removes duplicates, so only a census made otherwise
  gets there.
- The default key is created a second time if the backend answered with an empty id, and
  only then (`KeyCache.OneKeyIffNoEmptyId`). The KMS backend of this repository takes its
  ids from `uuid.New()` (`services/kms/keys.go:128`), so this needs another backend.

## Model

| member | source | states |
|---|---|---|
| `ArnRouter.ArnServiceIsThirdField` | cli.go:6054-6077 | the scan for colons accepts a service name iff it is the third field of a string with at least three colons |
| `ArnRouter.OneServicePerArn` | cli.go:6054-6077 | an ARN belongs to at most one service name |
| `ArnRouter.S3TokensDisjoint` | cli.go:8952-9048 | no ARN is claimed by both the S3 and the S3 Control guard, although they share a token |
| `ArnRouter.TwoTakersAreRdsFamily` | cli.go:7262-7274 | two different registrations take the same ARN only if both are among DocumentDB, Neptune and RDS |
| `ArnRouter.DispatchOrderIndependent` | cli.go:6082-6104 | for every ARN and every list of registrations: any permutation that keeps DocumentDB, Neptune and RDS in their relative order chooses the same backend |
| `ArnRouter.RdsFirstShadowsTheOthers` | cli.go:7262-7274 | why that order matters: with RDS first, every "rds" ARN goes to RDS, whatever DocumentDB and Neptune own |
| `ArnRouter.WiredTokensApart` | cli.go:6192-6379 | the registrations the wiring makes meet the condition order independence needs |
| `ArnRouter.FamilyOfWired` | cli.go:6192-6263 | the wiring registers DocumentDB, then Neptune, then RDS, each once |
| `ArnRouter.WiredDispatchIsRoute` | cli.go:6148-6379 | with all services wired, first-match dispatch equals a routing table read off the ARN's token, for every ARN and every answer of the DocumentDB and Neptune backends |
| `ArnRouter.FirstHandlerExact` | services/resourcegroupstaggingapi/tag_resources.go:157-182 | the handler chosen is a registration that handles the ARN with none before it that does; none is chosen iff none handles it |
| `ArnRouter.RouteAll` | services/resourcegroupstaggingapi/tag_resources.go:157-182 | each handled ARN of a request is delivered once, to its first handler, in request order, and no other; the failures reported are exactly the ARNs nobody handles and those whose first handler fails, each with its reason |
| `ArnRouter.Registry.Register` | services/resourcegroupstaggingapi/cross_service.go:88-105 | a service's tagger and untagger are appended together, so both lists stay equal |
| `ArnRouter.Registry.TagResources` | services/resourcegroupstaggingapi/tag_resources.go:138-191 | tagging delivers and fails as the registered taggers decide |
| `ArnRouter.Registry.UntagResources` | services/resourcegroupstaggingapi/untag_resources.go:50-115 | untagging reaches exactly the backends tagging reaches; that the two closures of a service share one guard is read off the wiring, where one registration stands for both |
| `ResourceTypes.AppmeshIsInnermostKind` | cli.go:6655-6667 | for any non-empty list of slash-free kind/id pairs the App Mesh type is the innermost kind |
| `ResourceTypes.FlatTypeIsFirstKind` | cli.go:6551-6564 | the flat derivation gives the first kind up to its first colon |
| `ResourceTypes.FlatTypeExact` | cli.go:6551-6564 | for every resource: the part before its first slash or colon, and the bare service if it has neither |
| `ResourceTypes.NestedTypeExact` | cli.go:6606-6618 | for every resource: the third of four segments, otherwise the flat type |
| `ResourceTypes.AppmeshTypeExact` | cli.go:6655-6667 | for every resource: the last segment but one of an even number, otherwise the bare service |
| `ResourceTypes.ShortArnHasNoType` | cli.go:6551-6667 | an ARN with fewer than five colons yields the bare service in all three derivations |
| `ResourceTypes.NestedAgreesWithAppmesh` | cli.go:6606-6667 | the two derivations agree iff there are two pairs or the first kind, cut at its first colon, equals the innermost; at depth one that is: the kind has no colon |
| `PurgeWorker.Worker.OnTick` | cli.go:3796-3818 | one tick purges or not as the decision on the last start, the TTL and the clock says, and records the start of a purge |
| `PurgeWorker.Worker.Run` | cli.go:3777-3819 | a run of ticks starts exactly the purges of the run's log |
| `PurgeWorker.PurgeStartsAreApart` | cli.go:3796-3818 | over any run and any TTL changes: two purge starts are at least the sum of the TTLs in force at the later ones apart; a cutoff is the start less the TTL, and the later cutoff is not before the earlier start |
| `PurgeWorker.PurgeRateIsBounded` | cli.go:3796-3818 | while every enabled TTL is at least T, n purges span at least (n-1) T |
| `PurgeWorker.PurgesKeepUp` | cli.go:3796-3818 | with constant TTL T and ticks at most d apart: the first tick purges, consecutive purges start less than T+d apart, and the last purge is less than T old |
| `PurgeWorker.DisabledTicksChangeNothing` | cli.go:3800-3803 | ticks with a TTL of zero or less leave the log as if they had not happened |
| `PurgeCycle.BehaviourKeepsInv` | cli.go:3822-3862 | the invariant on position, started and running services, visits and their times holds at every moment of every interleaving |
| `PurgeCycle.EachPurgeableStartedOnce` | cli.go:3831-3861 | started services are purgeable, each started once, in list order; a finished cycle started all of them, even after cancellation |
| `PurgeCycle.UnfinishedAreBounded` | cli.go:3831-3861 | unfinished purges never exceed the grace timers that fired plus one |
| `PurgeCycle.NextStartsAfterPrevious` | cli.go:3842-3860 | the loop moves on only after the purge finished, or after its context ended and the whole grace period ran out |
| `PurgeCycle.CycleEndsInTime` | cli.go:3822-3862 | a loop that reacts at once is through a whole cycle at most n times timeout plus grace after it began, for n purgeable services |
| `PurgeSchedule.PurgesKeepUpWithCycles` | cli.go:3777-3862 | with cycles running inside their ticks and constant TTL: consecutive purges start less than the TTL plus the check interval apart, or at most one cycle's bound plus the check interval |
| `PurgeCycle.CycleTimeIsBounded` | cli.go:3822-3862 | a loop that reacts at once ends its n-th visit within n times timeout plus grace, and spends at most the grace period on a service it reaches after cancellation |
| `KeyCache.Adapter.ResolveKeyId` | cli.go:4614-4636 | one call alone: another id comes back unchanged and leaves the cache; a non-empty cache answers the alias and stays; an empty one is answered by CreateKey and holds its id only on success |
| `KeyCache.Adapter.ServeInTurn` | cli.go:4608-4636 | any sequence of requests, the alias and explicit ids mixed, with no empty id among the answers: the first alias request that is answered makes the key, every later alias request returns it, those before fail, explicit ids come back unchanged |
| `KeyCache.InterleavingsAreSerial` | cli.go:4614-4636 | in every interleaving the completed calls, for the alias and for explicit ids, behave and make keys as if run one after the other, those for the alias in the order they held the lock |
| `KeyCache.ResolvedKeysWereCreated` | cli.go:4614-4636 | the cached key is the last one made, earlier ones had empty ids; a resolved alias was made by CreateKey; other ids come back unchanged |
| `KeyCache.OneDefaultKey` | cli.go:4611-4636 | unless the backend answers with an empty id, at most one key is made and every successful resolution of the alias returns it |
| `KeyCache.FailureIsRetried` | cli.go:4623-4632 | a failed creation leaves the cache empty and the next call for the alias, with any explicit ids in between, asks the backend again |
| `KeyCache.OneKeyIffNoEmptyId` | cli.go:4614-4636 | for any non-empty set of ids the backend may answer with: no run makes more than one key iff the empty id is not among them |
| `KeyCache.EmptyIdIsForgotten` | cli.go:4619-4635 | a run with an empty id in which two keys are made |
| `StreamAttrs.ConvertItem` | cli.go:5211-5221 | filling the output map in any order gives the item's wire form |
| `StreamAttrs.ConvertAttr` | cli.go:5226-5256 | the recursive conversion computes the value's wire form |
| `StreamAttrs.SameWireIffSamePruned` | cli.go:5211-5256 | two values have the same wire form iff they agree up to map entries of unknown variant and the identity of unknown list elements |
| `StreamAttrs.KnownRoundTrip` | cli.go:5226-5256 | without unknown variants at any depth, reading back one-entry objects named like their variant undoes the conversion, which is injective |
| `StreamAttrs.ContainersKeepShape` | cli.go:5211-5256 | lists keep length and positions; a converted map has exactly the keys whose value is of a known variant |
| `ClientCoverage.BuildModuleIndex` | cmd/clientcoverage/main.go:80-99 | the index lists, for each module, one entry per listing in census order, and each service's declared operations |
| `ClientCoverage.IndexExact` | cmd/clientcoverage/main.go:80-99 | for any census, names repeated or not: a name has operations iff a service bears it, those of the last such service, and is listed under a module iff some service of that name lists it |
| `ClientCoverage.ResolveOwner` | cmd/clientcoverage/main.go:114-139 | the loops compute the owner function |
| `ClientCoverage.OwnerExact` | cmd/clientcoverage/main.go:101-139 | a returned owner imports the module and declares the operation and is the only candidate or named like the module; ambiguity is reported iff there are two candidates and none is named like the module |
| `ClientCoverage.OwnerIgnoresCensusOrder` | cmd/clientcoverage/main.go:114-139 | the answer is the same for every order of the census |
| `ClientCoverage.OwnerByListings` | cmd/clientcoverage/main.go:114-139 | for every census with distinct names, modules listed however often: the call is ambiguous iff the declaring services list the module twice or more in all and the one named like it not exactly once; a service owns it iff it lists the module once and is alone or named like it |
| `ClientCoverage.RepeatedModuleIsAmbiguous` | cmd/clientcoverage/main.go:114-139 | so a service listing a module more than once owns none of its calls, and one without competitors owns them iff it lists the module once |
| `ClientCoverage.CoverageResult.Record` | cmd/clientcoverage/main.go:320-337 | one credit: an ambiguous call is listed, an owned one is covered unless it already was, any other changes nothing |
| `ClientCoverage.RecordedOpsAreDeclared` | cmd/clientcoverage/main.go:320-337 | after any sequence of calls every covered operation is declared by its service |
| `ClientCoverage.FirstEvidenceIsKept` | cmd/clientcoverage/main.go:332-336 | an operation is covered iff some call went to it, and keeps the evidence of a call that no other such call precedes |
| `ClientCoverage.AmbiguousAreListed` | cmd/clientcoverage/main.go:320-330 | the ambiguous calls are listed, each once, in the order they were recorded |
| `CoverageReport.BuildReport` | cmd/clientcoverage/main.go:563-598 | the loop computes the rows, sorts them and sums the totals |
| `CoverageReport.RowExact` | cmd/clientcoverage/main.go:566-585 | the row bears the service's name; covered plus uncovered is the total; the uncovered operations are the declared ones without credit, as often as declared, sorted |
| `CoverageReport.SortRowsSorts` | cmd/clientcoverage/main.go:587-595 | the rows are a permutation, widest gap first, then by name |
| `CoverageReport.OneRowPerService` | cmd/clientcoverage/main.go:563-598 | the report has one row per service, each the row of a service, widest gap first and then by name in the order of the alphabet |
| `CoverageReport.TotalsExact` | cmd/clientcoverage/main.go:563-598 | the total counts every declared operation; the covered total is that less the operations the rows list as uncovered |
| `Sequences.StrLeExact` | cmd/clientcoverage/main.go:587-595 | the order of names is lexicographic: a prefix first, otherwise the smaller character where two names first differ |
| `CoverageReport.ReportCountsEveryCredit` | cmd/clientcoverage/main.go:563-598 | after any recorded calls the covered total is the number of credited (service, operation) pairs, and the totals are the sums over the sorted rows |
| `CoverageWalk.ExtractClientParams` | cmd/clientcoverage/main.go:245-264 | the table of `*pkg.Client` parameters is the fold of their bindings |
| `CoverageEvidence.ClassifyExact` | cmd/clientcoverage/main.go:266-309 | the right-hand side of an assignment yields a module as its k-th result iff it is `pkg.NewFromConfig(...)` or a call of a helper whose k-th result has that module; it is a paginator iff it calls `pkg.New<Op>Paginator` |
| `CoverageEvidence.BindingsExact` | cmd/clientcoverage/main.go:223-309 | a function binds a name to a module iff a parameter of it or of a closure has type `*pkg.Client`, or a fitting assignment or var spec gives the name the result of `pkg.NewFromConfig` or a result of a helper with that module |
| `CoverageEvidence.PaginatorsExact` | cmd/clientcoverage/main.go:284-299 | a paginator is credited iff a fitting assignment or var spec has `pkg.New<Op>Paginator(...)` on its right, with that operation, module and line |
| `CoverageWalk.FunctionWalk.BindAssign` | cmd/clientcoverage/main.go:413-463 | one assignment changes the bindings and records the paginators as its effects say |
| `CoverageWalk.WalkFunc` | cmd/clientcoverage/main.go:351-402 | the two traversals record exactly the function's credits on top of what was recorded |
| `ScopedWalk.TableIsExact` | cmd/clientcoverage/main.go:361-376 | the flat table holds exactly the function's bindings iff no identifier is bound to two modules |
| `ScopedWalk.CreditsExact` | cmd/clientcoverage/main.go:351-402 | without any condition: a credit is recorded iff it is a paginator of an assignment, or an upper-case call on an identifier whose last binding in the function is that module |
| `ScopedWalk.LastBoundExact` | cmd/clientcoverage/main.go:361-376 | the last binding of a name is a binding that no later one of that name follows |
| `ScopedWalk.ScopedCreditsAreCredited` | cmd/clientcoverage/main.go:339-402 | if no identifier the function calls through is bound to two modules, every call that a walk obeying Go's scopes and statement order credits is credited |
| `ScopedWalk.SingleModuleCallsAreCredited` | cmd/clientcoverage/main.go:351-402 | identifier by identifier: every paginator, and every call on an identifier whose bindings all name one module, is credited, whatever other identifiers do |
| `ScopedWalk.CallCreditedIffLastBinding` | cmd/clientcoverage/main.go:361-402 | at a call the scoped walk credits, the flat walk gives the same credit iff the identifier's last binding in source order names the module it holds there |
| `ScopedWalk.ScopedCoverageIsCovered` | cmd/clientcoverage/main.go:339-402 | under the same condition no operation that walk finds covered is reported uncovered |
| `Rebinding.RebindingLosesACall` | cmd/clientcoverage/main.go:361-376 | for a variable that holds two clients in turn, a call on the first is not credited |
| `StatementOrder.PermutedBlock` | cmd/clientcoverage/main.go:351-402 | every permutation of a block is a reordering in the sense of the next row |
| `StatementOrder.CreditsIgnoreStatementOrder` | cmd/clientcoverage/main.go:351-402 | if no identifier the function calls through is bound to two modules, permuting the statements of any blocks and cases at any depth changes neither the credited operations nor the covered ones |
| `GoSyntax.PreorderHolds` | cmd/acceptguard/scan.go:284-316 | the traversal visits exactly the nodes of the tree |
| `GoSyntax.PreorderInOrder` | cmd/acceptguard/scan.go:284-316 | a node comes before all below it, and everything below a child before anything below a later child |
| `GoSyntax.ExprChildrenExact` | cmd/bodyclass/classify.go:128-152 | the parts of an expression the traversal goes into, all of them, in source order |
| `GoSyntax.ClosureChildrenExact` | cmd/clientcoverage/main.go:361-376 | of a closure: parameter types, result types, body |
| `GoSyntax.StmtChildrenExact` | cmd/bodyclass/classify.go:351-373 | of assignments, declarations, cases, blocks and range clauses: all parts, left sides before right sides, labels before statements |
| `GoSyntax.BranchChildrenExact` | cmd/acceptguard/scan.go:284-316 | of `if` and `switch`: the initialisation, the condition or tag, then the branches |
| `GoSyntax.FindFirst` | cmd/bodyclass/classify.go:128-152 | a traversal that prunes everything once it has found a match finds the first match of the full traversal |
| `AcceptGuard.IsToleratedFallback` | cmd/acceptguard/scan.go:284-316 | true iff some `if` anywhere in the function guards on an identifier being empty, assigns it from the field inside its block, and the function assigns it from a real member somewhere |
| `AcceptGuard.GuardExact` | cmd/acceptguard/scan.go:324-349 | the identifier found is the one the first operand of a printed `&&` chain of any length compares with the empty string; later operands do not matter |
| `AcceptGuard.FallbackExact` | cmd/acceptguard/scan.go:284-421 | the nested pruned traversals lose no match: what they compute is the existential statement over the tree |
| `AcceptGuard.SelectorLine` | cmd/acceptguard/scan.go:600-625 | the line of the first read of the field in source order, if there is one |
| `AcceptGuard.BoundVarNamesExact` | cmd/acceptguard/scan.go:436-494 | a name is bound to the struct iff a parameter of type `S` or `*S` lists it, or a var declaration in the body has a spec of that type listing it |
| `AcceptGuard.FuncReadsField` | cmd/acceptguard/scan.go:423-441 | the read reported is through the first bound name that has one |
| `AcceptGuard.ReadLineExact` | cmd/acceptguard/scan.go:423-431 | a line is reported iff some bound name reads the field, and it is the line of such a read |
| `AcceptGuard.FindFieldUsage` | cmd/acceptguard/scan.go:253-270 | the first function that binds the struct and reads the field |
| `AcceptGuard.FieldUsageExact` | cmd/acceptguard/scan.go:253-270 | a usage is found iff some function with a body reads the field through a name it binds to the struct; it is the first such function, with the line of such a read |
| `AcceptGuard.CheckRequestStruct` | cmd/acceptguard/scan.go:92-156 | PATCH operations and undecoded structs yield nothing; otherwise the findings are the judged suspects, and a failed module look-up is an error iff there is a suspect |
| `AcceptGuard.FindingsExact` | cmd/acceptguard/scan.go:110-155 | one finding for each field that is on the wire, unknown to the operation and read through a bound name, in field order, and no other; a finding is confident iff no operation of the module knows the member and the read is no tolerated fallback |
| `AcceptGuard.NothingToReport` | cmd/acceptguard/scan.go:110-130 | the check has no suspect iff no field is to be reported |
| `AcceptGuard.HasIgnoresCase` | cmd/acceptguard/sdkfields.go:133-135 | a look-up ignores the case of letters |
| `AcceptGuard.HasSdkName` | cmd/acceptguard/sdkfields.go:46-135 | a name is found iff it is an input field in some spelling, or a member or alternative of the type such a field is declared as |
| `Text.LowerIgnoresCase` | cmd/acceptguard/sdkfields.go:121-135 | two names have the same lower case iff they differ only in the case of letters |
| `Text.LowerIsIdempotent` | cmd/bdaudit/trailers.go:83 | the lower case of a text is a spelling of it without upper-case letters |
| `AcceptGuard.DedupeFindings` | cmd/acceptguard/scan.go:631-651 | the loop keeps the first finding per key |
| `AcceptGuard.FirstPerKeyExact` | cmd/acceptguard/scan.go:631-651 | each key survives once, in first-seen order, with its first finding |
| `AcceptGuard.DedupedExact` | cmd/acceptguard/scan.go:631-651 | kept are exactly the findings that no earlier one matches in file, struct, field and kind, in order |
| `SdkCache.SdkFieldCache.FieldsFor` | cmd/acceptguard/sdkfields.go:46-78 | the answer is what a fresh computation gives; absences are remembered, errors are not |
| `SdkCache.SdkFieldCache.ModuleFields` | cmd/acceptguard/sdkfields.go:85-119 | the same for a whole module |
| `SdkCache.SdkFieldCache.Answer` | cmd/acceptguard/sdkfields.go:46-119 | any sequence of both kinds of calls gets the fresh answers |
| `SdkCache.KeyInjective` | cmd/acceptguard/sdkfields.go:47-50 | a pair without NUL shares its cache key with no other pair |
| `SdkCache.KeysCanCollide` | cmd/acceptguard/sdkfields.go:47-50 | with NUL allowed, different pairs share a key |
| `SdkCache.FoldedExact` | cmd/acceptguard/sdktypes.go:150-184 | a name counts iff, lower-cased, it is an input field or a member of the struct or union such a field is declared as, under any pointers and arrays |
| `SdkCache.FieldsExact` | cmd/acceptguard/sdkfields.go:46-78 | absent iff the input struct is absent; an error iff one of the two files gives that error; otherwise the names of the previous row |
| `SdkCache.UnionExact` | cmd/acceptguard/sdkfields.go:85-119 | the union fails with the first `api_op_*.go` file that cannot be read, if there is one, and otherwise holds exactly the lower-cased names of all of them |
| `SdkCache.ModuleExact` | cmd/acceptguard/sdkfields.go:85-119 | the same for a module; a directory that cannot be read is an error |
| `BodyClass.FindDocumentCall` | cmd/bodyclass/classify.go:128-175 | the first assignment of a recognised shape in source order |
| `OpClass.DocumentCallExact` | cmd/bodyclass/classify.go:128-219 | the document call found is the first assignment in source order that decodes the document, with its callee and how it hands over the output; none is found iff none is there |
| `BodyClass.ExtractSwitchKeys` | cmd/bodyclass/classify.go:263-278 | the overwriting traversal returns the labels of the last switch outside any other |
| `BodyClass.OuterSwitchesExact` | cmd/bodyclass/classify.go:263-278 | the switches considered are those not inside another |
| `BodyClass.KeySwitchLabels` | cmd/bodyclass/classify.go:280-297 | the labels of a printed key switch are its keys in order; a clause without keys adds none |
| `BodyClass.SwitchKeysAreTheLast` | cmd/bodyclass/classify.go:263-297 | these are the first switch's labels, as the comment promises, iff the first and last outer switch list the same ones |
| `BodyClass.LaterSwitchWins` | cmd/bodyclass/classify.go:263-278 | of two sibling switches the first one's labels are lost |
| `BodyClass.CollectAssignedFields` | cmd/bodyclass/classify.go:351-373 | the captured slice ends up as the distinct fields in traversal order |
| `BodyClass.AssignedFieldsExact` | cmd/bodyclass/classify.go:349-387 | exactly the fields of the parameter assigned at any depth, each once, in first-seen order |
| `BodyClass.AssignedInSourceOrder` | cmd/bodyclass/classify.go:351-373 | a field stands before another only if it is assigned no later in source order |
| `OpClass.PayloadExact` | cmd/bodyclass/classify.go:302-338 | a payload call is flat, with that member, iff the callee assigns one distinct field of its first parameter, and unknown otherwise |
| `OpClass.WrappedExact` | cmd/bodyclass/classify.go:229-257 | a whole-output call is wrapped, with given keys, iff the callee's last outer switch lists them and they are not empty, and unknown otherwise |
| `OpClass.HttpBindingsExact` | cmd/bodyclass/classify.go:389-412 | the body calls an HTTP-bindings helper iff a call with such a name stands anywhere in it |
| `OpClass.OpClassExact` | cmd/bodyclass/classify.go:46-105 | the exact condition for each of the five classes of an operation, with the result's member, callee and keys, read off the tree |
| `TrailerGrammar.ClauseIsLongestChain` | cmd/bdaudit/trailers.go:60-72 | the matcher finds the longest closing chain at a place, and finds one iff there is one |
| `TrailerGrammar.MatchesFoldExact` | cmd/bdaudit/trailers.go:60-76 | a word of the pattern matches its letters in either case, U+212A for k and U+017F for s, and nothing else |
| `TrailerGrammar.IdCharExact` | cmd/bdaudit/trailers.go:70-76 | the characters of an id, by code point: `[0-9a-zA-Z]` and the two that fold into it |
| `Text.AsciiClasses` | cmd/bdaudit/trailers.go:69-76 | digits, letters, `\s` and the word characters of `\b`, by code point |
| `TrailerSearch.ExtractionSound` | cmd/bdaudit/trailers.go:78-89 | every cited id lies inside a closing chain standing at a word boundary of the body |
| `TrailerVisibility.VisibleIffCovered` | cmd/bdaudit/trailers.go:69-89 | the exact condition: a chain standing in the body lies within a clause the search finds iff its place is visible |
| `TrailerVisibility.HiddenIffSwallowed` | cmd/bdaudit/trailers.go:69-89 | at a word boundary a place is not visible iff an earlier clause ends with the chain's verb, read as the end of an id |
| `TrailerVisibility.NoOpenIdIsVisible` | cmd/bdaudit/trailers.go:69-74 | a place at a word boundary is visible when the text before it does not end in "gopherstack-" followed only by id characters |
| `TrailerVisibility.ExtractionComplete` | cmd/bdaudit/trailers.go:78-89 | every id of an uncut chain at a visible place is found, wherever the chain stands |
| `TrailerSearch.PrintedChainRoundTrip` | cmd/bdaudit/trailers.go:60-89 | printing a chain and searching it gives back exactly its ids, in order |
| `TrailerVisibility.HiddenTrailer` | cmd/bdaudit/trailers.go:78-89 | a trailer that starts as the body of an id is missed |
| `Trailers.FetchCommits` | cmd/bdaudit/trailers.go:36-54 | the loop over records computes the log's commits |
| `Trailers.LogRoundTrip` | cmd/bdaudit/trailers.go:28-55 | reading back a printed log gives the same commits iff no message contains the record separator |
| `Trailers.LogHoldsRecords` | cmd/bdaudit/trailers.go:36-54 | whatever git prints: a commit is read iff some record is, after leading newlines, its hash, the first field separator and its body; other records give none |
| `Trailers.ExtractClosedIds` | cmd/bdaudit/trailers.go:78-98 | the map and the sort compute the closed ids |
| `Trailers.PrintedChainIsExtracted` | cmd/bdaudit/trailers.go:74-98 | a verb followed by ids joined by "," or " and ", each optionally repeating the verb, yields exactly those ids lower-cased, sorted, without duplicates |
| `Trailers.ExtractedIdsAreCited` | cmd/bdaudit/trailers.go:78-98 | every extracted id is the lower-cased id of a chain in the body |
| `Trailers.CitedIdsAreExtracted` | cmd/bdaudit/trailers.go:78-98 | every id of an uncut chain at a visible place is extracted |
| `TrailerScan.ScanTrailers` | cmd/bdaudit/trailers.go:114-144 | an id is reported as not closed iff some commit cites it and the export has it with a status other than "closed", as a typo iff some commit cites it and the export lacks it; each once, in first-citation order, with that status and the first at most three commits that cite it |
| `TrailerScan.ScanIsDetermined` | cmd/bdaudit/trailers.go:114-144 | only one pair of lists meets that description |
| `TrailerScan.MixedCaseIssueIsTypo` | cmd/bdaudit/trailers.go:128-136 | an issue cited as spelt is taken for a typo iff its id is not all lower case and the lower-case spelling is no issue |
| `CheckPins.ExtractSdkModule` | cmd/checkpins/main.go:245-268 | the loop over lines finds the field, its value and its continuation lines |
| `CheckPins.ModuleExact` | cmd/checkpins/main.go:240-279 | for every file: the first field line's value is what stands before the first " #", its comment what follows joined with the text of the indented lines up to the first blank or unindented one |
| `CheckPins.NoFieldExact` | cmd/checkpins/main.go:245-268 | no module is found iff no line starts with the field name |
| `CheckPins.BlankExact` | cmd/checkpins/main.go:245-279 | the characters trimmed are the white space of Unicode, by code point |
| `CheckPins.WrappedFieldIsRecovered` | cmd/checkpins/main.go:240-279 | however the comment's words are wrapped, the value and the single-spaced words come back |
| `PinVerdict.MatchPinExact` | cmd/checkpins/main.go:46-65 | a pin expression matches exactly prefix, name, "@" and version, in one way |
| `PinVerdict.PinCharsExact` | cmd/checkpins/main.go:46-65 | the characters of names and versions, by code point |
| `PinVerdict.UnquoteExact` | cmd/checkpins/main.go:281-285 | the value compared is the recorded one without the blanks around it and then without the quotes around that |
| `PinVerdict.CacheOnlyExact` | cmd/checkpins/main.go:298-303 | a comment excuses a missing module iff it holds "not a go.mod dependency" in some mixture of cases |
| `PinVerdict.VerdictIgnoresWrapping` | cmd/checkpins/main.go:195-238 | the verdict depends only on the value and the comment's words |
| `PinVerdict.RecordedPinVerdict` | cmd/checkpins/main.go:195-238 | what a file with a well-formed AWS or Azure pin gets, however its comment is wrapped |
| `PinVerdict.VerdictExact` | cmd/checkpins/main.go:195-303 | for every file, the exact condition for each verdict: no field, unreadable, good, missing from go.mod under that name, or at odds with go.mod in those two versions |
| `Awsgs.ParseAwsgsFlags` | cmd/awsgs/main.go:99-128 | the index loop computes the recursive reading |
| `Awsgs.SettingsAreStripped` | cmd/awsgs/main.go:99-128 | settings in either form anywhere among aws arguments leave those verbatim and in order, and the last setting of each flag wins |
| `Awsgs.EveryCommandLine` | cmd/awsgs/main.go:99-128 | every command line is such a sequence, but for a flag left dangling at its end, which is dropped |
| `Awsgs.BuildAwsArgs` | cmd/awsgs/main.go:150-163 | the scan and append compute the arguments passed on |
| `Awsgs.EndpointInjectedOnce` | cmd/awsgs/main.go:150-163 | an endpoint the user gave is left alone, otherwise one is put first; doing it again changes nothing |

## Left out

- ArnRouter.RouteAll: the backends' answers to HasTaggableResource are functions fixed for one request, and which handlers fail is a function of registration and ARN; the taggers' own work, tag values and error messages are not modelled.
- ArnRouter.Registry.TagResources: request validation and its limits, the deep copy of the tags and the cache invalidation are not modelled.
- ArnRouter.DispatchOrderIndependent: a plain registration is known by its token; that the wiring gives no token twice is read off the list of tokens and not proved.
- PurgeWorker.PurgeStartsAreApart: instants and durations are unbounded integers; the saturation of `time.Since` and 64-bit durations are not modelled. Starts are wall-clock instants because `.UTC()` drops the monotonic reading; that the clock does not run backwards is assumed within a tick only.
- PurgeCycle.CycleTimeIsBounded: assumes the loop reacts at once when a channel or timer is ready; scheduling delays of the Go runtime are not bounded by anything in the source.
- KeyCache.Adapter.ResolveKeyId: the KMS backend's answer to CreateKey is a parameter, and error texts are not kept.
- StreamAttrs.ConvertAttr: binary values are opaque; that Go maps and slices are shared with the input is not modelled.
- CoverageReport.SortRowsSorts: `sort.Slice` is unstable; rows equal in gap and name, which a census with distinct names cannot have, are put in one fixed order.
- CoverageWalk.WalkFunc: parsing imports, collecting the function signatures of a package and visiting files and directories are inputs; the result slice of a signature is given.
- ScopedWalk.ScopedCreditsAreCredited: the reference walk uses the evidence the tool uses (constructors, helper functions, parameters), treats a closure's body as run where it stands, and takes a name no scope declares as one of the outermost scope.
- StatementOrder.CreditsIgnoreStatementOrder: speaks of which operations are credited; the kept evidence is that of the first call and does depend on the order.
- AcceptGuard.CheckRequestStruct: the operation name, the wire keys of the fields and whether the struct is decoded from JSON are inputs (deriveOpName, ownFieldWireKey, structIsJSONDecoded); detail texts are not kept.
- SdkCache.SdkFieldCache.FieldsFor: SDK files do not change while the tool runs, paths with a NUL are refused by the operating system, and the aliasing of returned maps is not modelled. Only the error's presence and text as a string are kept.
- OpClass.OpClassExact: the number of output fields, which reads SDK sources, is an input; notes attached to results are not kept.
- TrailerGrammar.ClauseIsLongestChain: `(?i)` folding covers ASCII, U+212A and U+017F, which is all it adds for the letters used; the leftmost-first semantics of Go's engine is written as a matcher.
- Text.Lower: covers ASCII and the KELVIN SIGN. U+0130 is the only other character whose lower case is an ASCII letter; it cannot occur in an id, the phrases searched for have no `i`, and the SDK's field names are ASCII.
- PinVerdict.RecordedPinVerdict: go.mod is given as a map; message texts are not kept.
- Awsgs.ParseAwsgsFlags: the port found in the environment is a parameter, so is the rest of resolvePort.
- GoSyntax: the syntax tree has the node kinds the traversals look at; identifiers that are only part of a selector or a declaration are not nodes of their own, which no traversal here notices.
- The service backends, HTTP, TLS, DNS, signal handling, the dashboard, persistence and the port allocator: plumbing or far outside these algorithms.
- The general precedence of settings in `cli.go` and their copying, saving and loading: plain field copying.
- The `wireTagging*` bodies beyond their guards, the resource providers, and the other resource-type derivations of `cli.go` (WAFv2, S3 Tables): they would only add easy members.
- `cmd/covledger`, the suspicion and issue parts of `cmd/bdaudit`, opcensus and module resolution: filters, sorts and look-ups.
