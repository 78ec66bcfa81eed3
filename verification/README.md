# Hypagraph: a verified model of the scheduling core

Hypagraph is an event-sourced workflow scheduler. This project models its pure
decision code in Dafny and proves what that code promises, over all inputs and
over all runs:

- **Fair batches** (`ConcurrencyGroups`, `FairSelection`, `FairBatch`, `FairBatchLaws`, `Ordinals`,
  `ConcurrencyLimits`, `FairRuns`, with the shared `KeyedRecords`, `RecordLists`, `Counting`, `Text`): candidates
  compete for capacity-bounded groups; each round picks the oldest admissible ones, the fairness key
  whose turn an event-backed ordinal names, and then the least identity, and admits the pick virtually.
- **Derived fan-out** (`DerivedFanOut`, `Decimal`, `FanOutValidation`, `FanOutDiagnostics`, `FanIn`, `FanOutRuns`,
  `FanOutInterleaving`, `FanOutHistory`): a list of values becomes branches with attempts; the steps make
  a weak shape check, the restore path a strong one, and fan-in judges the settled branches.
- **Conditions** (`Conditions`, `ConditionLaws`): a complexity measure, a short-circuiting evaluator with
  a shared budget, and an independent three-outcome semantics.
- **Canonical text** (`StableJson`, `StableJsonLaws`): the printer that every identity is hashed from, and a
  reader that inverts it.
- **Scope** (`Porcelain`, `ScopeVerification`, `ScopePaths`, `CanonicalPaths`, `ScopeNarrowing`, `ScopeEnforcement`): the parser
  of `git status --porcelain -z`, the before/after comparison of a mutating program, the narrowing of scopes
  from goal to goal, and what it means for the allowlist that enforces a scope and for a scope used as a
  lease list.
- **Action selection and dispatch** (`Workflow`, `StartPolicies`, `GoalRunnable`, `WorkOffers`, `GoalActions`,
  `GoalBlockage`, `GoalContinuation`, `ActionDispatch`, `DispatchLedger`, `DeterministicDispatch`,
  `DispatchProtocol`): what a goal can do next, and the ledger of selected, dispatched and closed actions.

Code that steps through its input is a method with loop invariants, proved equal to a specification
function; the laws are lemmas about those functions. Objects that are mutated in place (the measuring
walk, the evaluation budget) are classes.

## Results where the code and its description differ

- A goal that completes or fails keeps a pending dispatch in the workflow projection, although the
  dispatch module by itself interrupts it; `DispatchLedger.WorkflowStopExactly` says exactly when a stop
  leaves nothing pending, and `DispatchLedger.CompletedGoalKeepsDispatch` gives a run.
- A reconcile action is offered even where its loop is blocked, and the runnable test then refuses it;
  `GoalRunnable.EnumeratedActionsRunnable` gives the exact condition.
- The comment at src/code/scope-verification.ts:110-111 calls baseline paths without content hashes an
  exemption; the code fails closed on them (`ScopeVerification.WithoutHashesFailsClosed`).
- An array holding one undefined element prints like the empty array; `StableJsonLaws.SameTextExactly`
  shows that, beside key order and undefined fields, this is the only loss.
- Scope narrowing is not transitive below a glob whose directory is itself a glob text, and is transitive
  below every other pattern (`ScopeNarrowing.TransitiveExactly`).
- Narrowing treats a glob as a directory, and the allowlist that enforces node scopes takes it literally: `src`
  narrows its own glob, allows src/a, and the glob does not (`ScopeEnforcement.SourceDirectoryWidensAllowlist`).
  `ScopeEnforcement.NarrowingKeepsAllowlistExactly` says exactly which scopes are safe at every depth. For a
  scope used as a lease list the test strips the glob, and is kept by every ordinary one
  (`ScopeEnforcement.OrdinaryGlobsKeepLease`).
- The empty scope restricts no narrowing, while the allowlist and the lease test let nothing pass it.
- A path behind a leading dot segment may hide a drive: `./C:/x` is accepted, although its canonical form `C:/x`
  is not (`CanonicalPaths.HiddenDriveIsAccepted`, and `CanonicalPaths.CanonicalTwiceExactly` for all paths).
- Finishing a check does not test its time; `DispatchProtocol.FinishAfterBegin` says when the projection
  then refuses the event.

## Model

| member | source | states |
|---|---|---|
| Text.LessExactly | src/domain/concurrency-groups.ts:209-213 | identity order is lexicographic: decided at the first differing position, a prefix coming first |
| Text.TrimExactly | src/domain/concurrency-groups.ts:606-680 | trimming strips white space from both ends and nothing else, and a text is blank exactly when it is white space throughout |
| ConcurrencyGroups.RegistryLimits | src/domain/concurrency-groups.ts:398-580 | an accepted registry resolves to exactly the bound written beside each trimmed group id |
| ConcurrencyGroups.BuildLimitMap | src/domain/concurrency-groups.ts:380-388 | the loop builds the limit map of the definitions |
| ConcurrencyGroups.RegistryCodes | src/domain/concurrency-groups.ts:398-580 | a registry is refused exactly when a definition is faulty or two sound ones share a trimmed id, and reports exactly those faults |
| ConcurrencyGroups.ParseGroupIdsExactly | src/domain/concurrency-groups.ts:606-680 | a membership list parses to its trimmed ids in order exactly when it names groups once each, and else reports exactly its faults |
| ConcurrencyGroups.ExtractAttemptExactly | src/domain/concurrency-groups.ts:684-745 | an attempt extracts to its trimmed form exactly when it is sound, and else reports exactly its faults |
| ConcurrencyGroups.ParseStateExactly | src/domain/concurrency-groups.ts:774-897 | a state parses to the trimmed forms of its attempts in order, or reports exactly the faulty attempts and the repeated ids |
| ConcurrencyGroups.ParseStateClean | src/domain/concurrency-groups.ts:774-897 | a parsed state has clean unique identities, and a clean state parses to itself |
| RecordLists.ParseUnique | src/domain/concurrency-groups.ts:774-897 | the parse loop extracts each entry, refuses a repeated key and collects every diagnostic in order |
| RecordLists.ParseAllAccepts | src/domain/concurrency-groups.ts:774-897 | the loop accepts exactly the lists whose entries all extract with distinct keys, and never fails without a diagnostic |
| RecordLists.ParseAllDiagnoses | src/domain/concurrency-groups.ts:774-897 | the diagnostics of the loop, in order, are each entry's own and the duplicate one for every repeated key |
| ConcurrencyGroups.CountActiveInGroup | src/domain/concurrency-groups.ts:364-375 | the loop counts the active attempts of a group |
| ConcurrencyGroups.EvaluateKnownGroupCapacity | src/domain/concurrency-groups.ts:1252-1268 | the early-return loop holds exactly when every group is known and below its bound |
| ConcurrencyGroups.AdmitOntoCopy | src/domain/concurrency-groups.ts:1373-1396 | the checks, push and sort yield the specified admission |
| ConcurrencyGroups.AdmitRefusal | src/domain/concurrency-groups.ts:1286-1306 | a well-formed admission is refused with the code for a duplicate, else for an unknown group, else for a full group, and is added otherwise |
| ConcurrencyGroups.AdmitReportsFirst | src/domain/concurrency-groups.ts:1311-1396 | a malformed admission reports what is wrong with the registry, else the state, else the attempt |
| ConcurrencyGroups.ReleaseExactly | src/domain/concurrency-groups.ts:1405-1435 | a release takes out the one attempt with the trimmed id, keeps the others in place and reports whether there was one |
| ConcurrencyGroups.ReleaseUndoesAdmit | src/domain/concurrency-groups.ts:1373-1435 | releasing what was admitted restores the state up to order, and exactly if it was in id order |
| ConcurrencyGroups.CapacityOverAllRuns | src/domain/concurrency-groups.ts:1373-1435 | after any admits and releases from empty: unique sorted ids, every group within its bound, size = accepted admits minus effective releases |
| ConcurrencyLimits.ResolveConcurrencyLimits | src/domain/concurrency-limits.ts:332-431 | the key loop resolves the limits, stopping at the first bad entry |
| ConcurrencyLimits.LimitsMeaning | src/domain/concurrency-limits.ts:332-444 | limits resolve exactly when every bound and kind is good; a kind has its own bound, else the global one, default two |
| ConcurrencyLimits.LimitsCodes | src/domain/concurrency-limits.ts:332-431 | refused limits report the global bound, else the first entry that is not good, its kind before its bound |
| ConcurrencyLimits.ExtractAttemptExactly | src/domain/concurrency-limits.ts:454-538 | an attempt extracts to its trimmed form exactly when it is sound, and else reports exactly its faults |
| ConcurrencyLimits.ParseStateExactly | src/domain/concurrency-limits.ts:565-685 | a state of the supported schema parses to the trimmed forms of its attempts, or reports exactly their faults |
| ConcurrencyLimits.AdmitAttempt | src/domain/concurrency-limits.ts:892-938 | push and sort on a copy; it admits exactly when the admission check reports nothing |
| ConcurrencyLimits.AdmitRefusal | src/domain/concurrency-limits.ts:797-843 | a well-formed admission is refused with the code for a duplicate, else for the global bound, else for the bound of its kind, and is added otherwise |
| ConcurrencyLimits.AdmitReportsFirst | src/domain/concurrency-limits.ts:850-938 | a malformed admission reports what is wrong with the limits, else the state, else the attempt; the admission query answers with the same codes |
| ConcurrencyLimits.ReleaseExactly | src/domain/concurrency-limits.ts:947-975 | a release takes out the one attempt with the trimmed id, keeps the others in place and reports whether there was one |
| ConcurrencyLimits.KindsAreIndependent | src/domain/concurrency-limits.ts:8-12 | an executor kind at capacity does not block another kind while global capacity remains |
| ConcurrencyLimits.ReleaseUndoesAdmit | src/domain/concurrency-limits.ts:915-975 | releasing what was admitted restores the state up to order, and exactly if it was in id order |
| ConcurrencyLimits.CapacityOverAllRuns | src/domain/concurrency-limits.ts:915-975 | after any admits and releases from empty: unique ids, total and every kind within bounds, size = accepted admits minus effective releases |
| FairSelection.ParseCandidatesClean | src/domain/concurrency-groups.ts:920-1101 | parsed candidates are clean with unique attempt ids, and clean candidates parse to themselves |
| FairSelection.ExtractCandidateExactly | src/domain/concurrency-groups.ts:920-1012 | a candidate extracts to its trimmed form exactly when it is sound, and else reports exactly its faults |
| FairSelection.ParseCandidatesExactly | src/domain/concurrency-groups.ts:1029-1101 | candidates parse to their trimmed forms in order, or report exactly the faulty ones and the repeated ids |
| FairSelection.OldestReady | src/domain/concurrency-groups.ts:1502-1509 | the running minimum is the least ready sequence |
| FairSelection.CollectKeys | src/domain/concurrency-groups.ts:1511-1520 | the key set, sorted in place, is the strictly sorted turn order |
| FairSelection.SelectAmongAdmissible | src/domain/concurrency-groups.ts:1479-1528 | an invalid ordinal is refused before the idle answer; otherwise the pick is the fair choice |
| FairSelection.PickIsFair | src/domain/concurrency-groups.ts:1479-1528 | the pick is among the oldest, has the key whose turn the ordinal names, and has the least attempt id of those in text order |
| FairSelection.FairChoiceUnique | src/domain/concurrency-groups.ts:1457-1466 | with unique ids, the three policy levels determine one key order and one candidate |
| FairBatch.FilterAdmissible | src/domain/concurrency-groups.ts:1537-1591 | the filter loop of the batch keeps exactly the inactive candidates with capacity |
| FairBatch.PickIsAdmitted | src/domain/concurrency-groups.ts:1695-1749 | the admission check never refuses the pick, so the early exit on a failed admission is unreachable |
| FairBatch.RunBatch | src/domain/concurrency-groups.ts:1690-1757 | the loop over virtual state, ordinal and selected list computes the specified rounds |
| FairBatch.SelectFairBatch | src/domain/concurrency-groups.ts:1629-1757 | parsing, validation and the loop together give the specified batch or codes |
| FairBatchLaws.PickAt | src/domain/concurrency-groups.ts:1690-1749 | pick k is the fair choice among the candidates admissible after the first k picks, at the ordinal advanced k times |
| FairRuns.BatchIsTheFairRun | src/domain/concurrency-groups.ts:1629-1757 | a list of picks is what the batch selects if and only if each pick is the oldest, whose turn it is, of least id, among what the earlier picks leave open, and the list ends at the limit or when nothing is open; without a limit only then |
| FairBatchLaws.BatchOccupancy | src/domain/concurrency-groups.ts:1690-1749 | a batch adds to each group exactly its selected members and activates exactly the selected ids |
| FairBatchLaws.BatchRefinesSinglePicks | src/domain/concurrency-groups.ts:1629-1801 | a batch equals repeating the single select-and-admit helper with the advanced ordinal; it fails for a bad ordinal, then a bad limit, then with exactly the codes of the helper |
| FairBatchLaws.SinglePickReportsFirst | src/domain/concurrency-groups.ts:1537-1625 | the single pick reports the occupancy, else the registry, else the candidates, else an unknown group, else the ordinal, and is idle exactly when every candidate is active or has a full group |
| FairBatchLaws.BatchSplits | src/domain/concurrency-groups.ts:1629-1757 | a batch of a + b is a batch of a and then a batch of b from the returned state and ordinal |
| FairBatchLaws.BatchOrderIndependent | src/domain/concurrency-groups.ts:1457-1466 | permuting candidates or stored attempts changes neither the selection nor the ordinal nor any error |
| FairBatchLaws.CapacityKept | src/domain/concurrency-groups.ts:1252-1268 | a group within its bound stays within it, any other group does not grow |
| FairBatchLaws.BatchIsMaximal | src/domain/concurrency-groups.ts:1695-1749 | a batch that stops below its limit leaves every other candidate active or blocked by a full group |
| FairBatchLaws.SelectedByAge | src/domain/concurrency-groups.ts:1502-1509 | the ready sequence never decreases along the selected list |
| FairBatchLaws.NoPriorityInversion | src/domain/concurrency-groups.ts:1695-1749 | an unselected older candidate had a full group at the younger pick and still has it at the end |
| FairBatchLaws.RoundRobinInBatch | src/domain/concurrency-groups.ts:1511-1520 | while the oldest work keeps m keys over m picks, each key is picked exactly once |
| Ordinals.RoundRobinTurns | src/domain/concurrency-groups.ts:1275-1280 | without a wrap, m consecutive ordinals give each of m slots one turn |
| Ordinals.WrapKeepsRoundRobin | src/domain/concurrency-groups.ts:1275-1280 | the wrap to 0 keeps every cycle of m turns exact if and only if m divides 2^53 |
| DerivedFanOut.ExpandDerivedFanOutRegion | src/domain/derived-fan-out.ts:1482-1543 | the expansion loop yields one fresh branch per value; its duplicate exit is unreachable |
| DerivedFanOut.ExpandExactly | src/domain/derived-fan-out.ts:1482-1543 | an expansion has one untouched branch per value under its decimal position; a faulty definition is refused for exactly its faults |
| Decimal.ShowReads | src/domain/derived-fan-out.ts:666-668 | the decimal text of a position stands for it, without leading zeros |
| DerivedFanOut.StartDerivedBranchAttempt | src/domain/derived-fan-out.ts:1576-1643 | the field updates of a start are the specified step, with its refusals |
| DerivedFanOut.CompleteDerivedBranch | src/domain/derived-fan-out.ts:1658-1804 | the field updates of a completion are the specified step, with its refusals |
| DerivedFanOut.AppendDerivedBranchEvidence | src/domain/derived-fan-out.ts:1810-1854 | the evidence append is the specified step, with its refusals |
| DerivedFanOut.StepRefusedExactly | src/domain/derived-fan-out.ts:1576-1854 | a step is refused for the schema, else its branch id, else its arguments, else a missing branch, else what its branch and the used ids do not allow, each with its code |
| DerivedFanOut.EvidenceCodesExactly | src/domain/derived-fan-out.ts:744-835 | evidence earns one diagnostic for each entry without a reference or with an unknown tag |
| DerivedFanOut.CopyEvidenceExactly | src/domain/derived-fan-out.ts:679-705 | the evidence copy keeps exactly the entries with a reference, in order, trimmed and without unknown tags |
| FanOutHistory.BranchHistory | src/domain/derived-fan-out.ts:1576-1854 | the steps of a branch are accepted exactly when they follow the attempt lifecycle, and its fields are what the steps spell out |
| FanOutHistory.RunsAreHistories | src/domain/derived-fan-out.ts:1482-1854 | a run is accepted exactly when every branch's steps are a history and all attempt ids differ, and every branch is what its history says |
| FanOutValidation.ValidateDerivedFanOutExpansion | src/domain/derived-fan-out.ts:1025-1354 | the validator's loops report the specified diagnostics in order |
| FanOutValidation.ValidatorMeaning | src/domain/derived-fan-out.ts:1025-1354 | the validator reports nothing exactly for a sound record with safe attempt numbers |
| FanOutDiagnostics.ValidatorReportsExactly | src/domain/derived-fan-out.ts:1025-1354 | whatever a record holds, a diagnostic is reported exactly when the record has its fault |
| FanOutDiagnostics.ValidatorReportsInOrder | src/domain/derived-fan-out.ts:1025-1354 | diagnostics come in the order header, recorded ids by position, branches by position |
| FanOutDiagnostics.ParseExactly | src/domain/derived-fan-out.ts:1361-1412 | restore refuses with the validator's diagnostics and returns any other record with its identities trimmed |
| FanOutValidation.ParseOfTrimmed | src/domain/derived-fan-out.ts:1361-1412 | restore returns a valid record in trimmed form unchanged |
| FanOutValidation.ParseIdempotent | src/domain/derived-fan-out.ts:1361-1412 | restore is idempotent on whatever it accepts |
| FanOutRuns.ApplyKeepsSound | src/domain/derived-fan-out.ts:1576-1854 | an accepted step keeps a sound record sound although it makes only the weak shape check |
| FanOutRuns.ReachablePassesValidator | src/domain/derived-fan-out.ts:1025-1354 | every reachable expansion passes the full validator and restores to itself |
| FanOutInterleaving.RunSplits | src/domain/derived-fan-out.ts:1576-1854 | a run is one local run per branch plus the shared id history |
| FanOutInterleaving.InterleavingIndependence | src/domain/derived-fan-out.ts:1576-2076 | two runs with the same steps per branch are both accepted or both not, and give equal branches, permuted ids and the same fan-in |
| FanIn.Distribute | src/domain/derived-fan-out.ts:1937-2076 | the walk distributes the branches over the four lists |
| FanIn.EvaluateDerivedFanIn | src/domain/derived-fan-out.ts:1937-2076 | the evaluation computes the specified result or the schema refusal |
| FanIn.FanInMeaning | src/domain/derived-fan-out.ts:1937-2075 | pending while a branch is open, then failed exactly as the policy reads the branches; another schema is refused |
| FanIn.FanInLists | src/domain/derived-fan-out.ts:1948-2073 | each of the four lists is the ids of the branches of its status, in the order of the stable sort by index |
| FanIn.FanInCounts | src/domain/derived-fan-out.ts:1948-2073 | an id occurs in a list exactly as often as a branch of that id has the list's status |
| FanIn.FanInPartitionsBranches | src/domain/derived-fan-out.ts:1937-2076 | every branch id is reported in exactly one list |
| Conditions.MeasureCondition | src/domain/conditions.ts:32-54 | the walk with its captured counters computes the specified complexity |
| Conditions.MeasureMeaning | src/domain/conditions.ts:32-54 | the measure succeeds exactly at size at most 128 and depth at most 32, and then reports both |
| Conditions.MeasureStops | src/domain/conditions.ts:32-53 | a refused measure stops at the first node in walk order beyond a limit, counts up to it, and blames the node limit exactly at the 129th |
| Conditions.Evaluate | src/domain/conditions.ts:81-126 | the evaluator with its mutable budget computes the specified result and remaining budget |
| Conditions.EvaluateChildren | src/domain/conditions.ts:95-114 | the child loops of `all` and `any` return early on an error or a deciding value |
| Conditions.EvaluateCondition | src/domain/conditions.ts:128-135 | measure first, then evaluate with the full budget |
| ConditionLaws.ComparisonLaws | src/domain/conditions.ts:66-79 | which values each operator applies to, and what it answers: number order, equality, list membership and substrings |
| ConditionLaws.EvalComputes | src/domain/conditions.ts:81-126 | with a budget for the nodes it visits the evaluator reports the left-to-right meaning and spends exactly that; with less it reports the limit |
| ConditionLaws.OutcomeMeaning | src/domain/conditions.ts:81-135 | within the limits the outcome is the meaning with its deciding facts; outside them it is the code of the first node beyond one, with no fact read |
| ConditionLaws.OutcomeIsLocal | src/domain/conditions.ts:56-64 | any fact record agreeing on the reported facts gives the same result |
| ConditionLaws.SameOutcome | src/domain/conditions.ts:128-135 | conditions of the same meaning evaluate to equal results whenever both are within the limits |
| ConditionLaws.NegationMovesInward | src/domain/conditions.ts:91-114 | `not all` is `any not` and dually, errors and facts included |
| ConditionLaws.NestingFlattens | src/domain/conditions.ts:95-114 | nested `all` in `all` and `any` in `any` may be spliced in place |
| ConditionLaws.RewriteInContext | src/domain/conditions.ts:89-114 | a valid rewrite stays valid at any child position |
| StableJsonLaws.StringReads | src/domain/hash.ts:14 | a quoted string reads back, escapes of section 7 of RFC 8259 included |
| StableJsonLaws.EscapeIsShortest | src/domain/hash.ts:14 | an escape is the shortest text that reads as its character, unique up to the case of hex digits |
| StableJsonLaws.PrintReads | src/domain/hash.ts:3-15 | printed text, whatever follows it, reads back as the value it denotes with every one-element array of undefined squashed to the empty array |
| StableJsonLaws.TextRecoversValue | src/domain/hash.ts:3-15 | the value is recovered exactly when no array in it is the one-element array of undefined |
| StableJsonLaws.UndefinedElementCollides | src/domain/hash.ts:4 | the array of one undefined element prints like the empty array |
| StableJsonLaws.PrintedKeysAreTheFields | src/domain/hash.ts:7-9 | the printed keys are the defined fields, strictly sorted |
| StableJsonLaws.SameTextSameValue | src/domain/hash.ts:3-15 | where no array is the one-element array of undefined, two identities have the same text exactly when equal up to key order and undefined fields |
| StableJsonLaws.SameTextExactly | src/domain/hash.ts:3-15 | any two values have the same text exactly when they denote the same value with every one-element array of undefined squashed to the empty array |
| StableJsonLaws.SameIdExactly | src/domain/hash.ts:17-19 | two identities share an id exactly when they are the same squashed value or the hash collides on their own two texts |
| Porcelain.ParsePorcelainZ | src/code/scope-verification.ts:189-211 | the index loop with its skips computes the specified paths |
| Porcelain.PorcelainRoundTrip | src/code/scope-verification.ts:182-211 | for any list of records the parser returns exactly all new and original paths, whatever they look like |
| Porcelain.CutOffOutput | src/code/scope-verification.ts:189-211 | output cut off in its last entry still yields that entry's path |
| ScopeVerification.HashWorkspacePaths | src/code/scope-verification.ts:132-154 | the loop hashes every path, with both sentinels, unless the signal aborts it |
| ScopeVerification.CaptureScopeBaseline | src/code/scope-verification.ts:93-100 | the capture is the parsed status with its hashes, or its failure |
| ScopeVerification.CaptureExactly | src/code/scope-verification.ts:93-154 | a baseline is captured exactly when the status is read and no hashing is interrupted, with each path's hash or sentinel; each failure is passed on |
| ScopeVerification.VerifyCodeScope | src/code/scope-verification.ts:39-90 | the verdict is the specified one; a pass means a non-empty scope that allows every reported path |
| ScopeVerification.PassesExactly | src/code/scope-verification.ts:39-90 | a mutating program passes if and only if its scope is not empty, the status was read, no hashing was interrupted and every reported path is allowed; otherwise the error is the one that occurred |
| ScopeVerification.VerificationIsExact | src/code/scope-verification.ts:39-100 | with an injective hash the reported paths are exactly those with different content after than before, and it passes exactly when all are allowed |
| ScopeVerification.WithoutHashesFailsClosed | src/code/scope-verification.ts:102-113 | without baseline hashes it passes exactly when every baseline and every dirty path is allowed |
| ScopeVerification.RenderedListsChanges | src/code/scope-verification.ts:156-211 | git output that names the changed paths parses to a list of exactly those |
| ScopeNarrowing.ScopeReflexive | src/domain/child-goal-binding.ts:242-264 | every pattern and every scope list is within itself |
| ScopeNarrowing.TransitiveExactly | src/domain/child-goal-binding.ts:255-264 | narrowing is transitive below a pattern exactly when it is no nested glob |
| ScopeNarrowing.NestedGlobBreaksNarrowing | src/domain/child-goal-binding.ts:255-264 | a concrete path, glob and nested glob break transitivity |
| ScopeNarrowing.DescendantWithinAncestor | src/domain/child-goal-binding.ts:242-249 | a descendant any number of levels down is within the first ancestor's scope |
| ScopeNarrowing.NarrowsExactly | src/domain/child-goal-binding.ts:242-264 | an unrestricted parent admits every scope, any other exactly the non-empty ones whose every entry it covers, said of texts |
| ScopePaths.PathWithinLeaseScope | src/domain/workspace-lease.ts:283-292 | the early-return loop holds exactly when some entry of the lease scope covers the path |
| CanonicalPaths.CanonicalExactly | src/domain/integrity-policy.ts:13-19 | a canonical form exists exactly for a relative path with a named segment, and has exactly the named segments in order |
| CanonicalPaths.CanonicalTwiceExactly | src/domain/integrity-policy.ts:13-19 | a canonical form is its own canonical form exactly when it is neither blank nor on a drive |
| CanonicalPaths.HiddenDriveIsAccepted | src/domain/integrity-policy.ts:13-19 | a concrete path whose canonical form is a drive path, which is itself refused |
| ScopeEnforcement.AllowsNoMoreExactly | src/code/paths.ts:15-23 | as allowlists, a scope allows no path more than another exactly when each of its valid entries is itself allowed by the other |
| ScopeEnforcement.EveryDepthExactly | src/domain/child-goal-binding.ts:242-264 | what all narrowings of a scope at every depth satisfy, said of its own patterns and the directories under its globs |
| ScopeEnforcement.NarrowingKeepsAllowlistExactly | src/domain/child-goal-binding.ts:242-264 | no narrowing at any depth allows a path the scope forbids, exactly when the scope is not empty and allows the directory under each of its valid globs |
| ScopeEnforcement.LoneGlobWidensAllowlist | src/code/paths.ts:15-23 | for every ordinary directory, the directory narrows its own glob and allows what the glob does not |
| ScopeEnforcement.SourceDirectoryWidensAllowlist | src/code/paths.ts:15-23 | the concrete scopes and the file at which a narrowing widens the allowlist |
| ScopeEnforcement.LeaseMeaning | src/domain/workspace-lease.ts:261-275 | a lease entry covers a path exactly when it is the whole workspace or its directory holds the path |
| ScopeEnforcement.LeasesNoMoreExactly | src/domain/workspace-lease.ts:261-292 | as lease scopes, a scope covers no path more than another exactly when each of its valid entries is itself within the other |
| ScopeEnforcement.NarrowingKeepsLeaseExactly | src/domain/child-goal-binding.ts:242-264 | no narrowing at any depth covers a path the scope does not cover, exactly when it is not empty and, for the directory under each glob, the directory, the directory with a separator and its glob are covered where valid, and the whole workspace is covered where the directory's entries are top-level paths |
| ScopeEnforcement.OrdinaryGlobsKeepLease | src/domain/workspace-lease.ts:210-275 | a scope whose globs are all ordinary directory globs keeps its lease at every depth |
| ScopeEnforcement.ExactPathsKeepBoth | src/domain/child-goal-binding.ts:242-264 | a non-empty scope without globs keeps both its allowlist and its lease at every depth |
| ScopeNarrowing.ValidateChildDefinitionScopes | src/domain/child-goal-binding.ts:270-295 | the loop reports nothing exactly when every declared node scope is well formed and narrows the binding |
| ScopeNarrowing.DiagnosticsExactly | src/domain/child-goal-binding.ts:270-295 | a node is reported exactly for a malformed scope, or for a well-formed one that widens the binding |
| StartPolicies.StartsAtAnyTime | src/domain/check-policy.ts:12-72 | a check or code node can start without waiting exactly when every unused attempt id is accepted at every time |
| StartPolicies.CanStartExactly | src/domain/check-policy.ts:12-26 | a node can start without waiting exactly when it is ready, or may retry a failed, timed-out or erroneous result without backoff |
| StartPolicies.BackoffNamesFirstTime | src/domain/code-policy.ts:61-76 | a backoff refusal names the first time at which the same start is accepted |
| StartPolicies.StartExactly | src/domain/code-policy.ts:33-80 | a start is accepted exactly under an unused id for a ready node, or for a failed one that may retry its current attempt once completion plus backoff has passed |
| StartPolicies.RefusalExactly | src/domain/check-policy.ts:28-72 | each refusal is the answer exactly for its own reason; a backoff refusal names completion plus backoff |
| StartPolicies.EffectStartExactly | src/domain/effect-policy.ts:28-48 | an effect starts exactly on a ready node under an unused id, and each refusal has its own reason |
| StartPolicies.CollectIndeterminateAttempts | src/domain/effect-policy.ts:52-64 | the loop collects the attempts whose effect is indeterminate and sorts them by id |
| StartPolicies.IndeterminateSorted | src/domain/effect-policy.ts:52-64 | the result is strictly sorted and names exactly the indeterminate attempts, whatever order the record lists them in |
| GoalRunnable.EnumerateIndeterminateEffectActions | src/domain/goal-runnable.ts:22-42 | the loop with its skips enumerates the nodes to reconcile |
| GoalRunnable.EnumeratedActionsRunnable | src/domain/goal-runnable.ts:44-121 | an enumerated action passes the separate runnable test exactly outside a loop without id and, for a reconciliation, inside a pending or running loop |
| GoalRunnable.ReconcileInBlockedLoopIsOffered | src/domain/goal-runnable.ts:22-42 | a workflow whose offered reconciliation is not runnable |
| GoalRunnable.IdleEnumerationIsComplete | src/domain/goal-runnable.ts:75-121 | with nothing to reconcile and nothing active, the enumerator and the test agree on every action |
| GoalRunnable.EnumerationShape | src/domain/goal-runnable.ts:75-94 | one action per node; reconciliation, continuation and new work are never offered together |
| GoalRunnable.OffersAreAccepted | src/domain/goal-runnable.ts:44-73 | every offered check, code or effect node is accepted by its start policy for every unused id at every time |
| WorkOffers.EnumerationExactly | src/domain/goal-runnable.ts:22-94 | the enumerated actions, in definition order: reconciliations alone, else the one task at work, else the new work of every node |
| WorkOffers.RunnableExactly | src/domain/goal-runnable.ts:96-121 | an action is runnable exactly when a node of its id may run it and it names the id of that node's loop |
| GoalActions.ActionMatches | src/domain/goal-continuation.ts:114-119 | the match of two actions is equality |
| GoalBlockage.NotBlockedExactly | src/domain/goal-blockage.ts:44-131 | a goal is not blocked exactly when it can proceed by itself; the last fall-through is unreachable |
| GoalBlockage.BlockageIsSound | src/domain/goal-blockage.ts:26-131 | a revision is offered only to a stuck, non-terminal goal with an attempt and budget left, and names the state it saw |
| GoalBlockage.EligibleExactly | src/domain/goal-blockage.ts:26-131 | a revision is eligible exactly for a stuck goal with a repairable cause while an attempt and budget are left, and exhausted exactly when the attempts are used up |
| GoalBlockage.StoppedLoopAnswers | src/domain/goal-blockage.ts:84-105 | the first stopped loop names the blocker, and whether it is repairable |
| GoalBlockage.BlockedNodeAnswers | src/domain/goal-blockage.ts:107-122 | without a stopped loop the first blocked node names the blocker; only repository work is repairable |
| GoalBlockage.NoPathAnswers | src/domain/goal-blockage.ts:124-131 | without either the workflow has no path, which is repairable |
| GoalBlockage.HeldAnswers | src/domain/goal-blockage.ts:46-82 | a goal that neither proceeds nor is stuck is held by its status, its workflow's phase or a retained attempt, and is never offered a revision |
| GoalBlockage.RevisionRepairsOnly | src/domain/goal-blockage.ts:84-131 | a revision never answers a safeguard, an external dependency, a terminal policy or a bounded loop stop |
| GoalBlockage.LoopsBeforeNodes | src/domain/goal-blockage.ts:84-105 | a stopped loop is classified before the node blocks it causes |
| GoalContinuation.SelectedWorkIsRunnable | src/domain/goal-continuation.ts:69-133 | the selected action is enumerated and passes the runnable test exactly under the loop condition |
| GoalContinuation.DispatchNeedsLiveGoal | src/domain/goal-continuation.ts:69-112 | only an active goal of its own running workflow dispatches work, a revision needs an active or blocked goal |
| GoalContinuation.StopsExactly | src/domain/goal-continuation.ts:69-95 | each stop of a goal's own status is the answer exactly for that status, and each mismatch is named by its cause |
| GoalContinuation.WaitsExactly | src/domain/goal-continuation.ts:96-107 | an active goal waits exactly when nothing is runnable and an interaction is open, and names the open ones in definition order |
| GoalContinuation.DerivedWaitingIsDecision | src/domain/interaction-presentation.ts:109-126 | the derived waiting state is the controller's own decision, for a goal of this workflow |
| GoalContinuation.RevisionDecidesExactly | src/domain/goal-continuation.ts:62-112 | a goal that looks for a revision gets it exactly when one is eligible, else stops as blocked; the remaining invariant error is a goal that is not blocked at all |
| GoalContinuation.WorkDecidesExactly | src/domain/goal-continuation.ts:95-112 | an active goal with work dispatches the action of its turn |
| GoalContinuation.RevisionRunnableExactly | src/domain/goal-continuation.ts:121-133 | a requested revision stays runnable exactly while the goal is blocked and its pending turn and attempt are of one operation for this blocker |
| GoalContinuation.EachCandidateOnce | src/domain/goal-continuation.ts:111 | m consecutive turns over m candidates select every candidate exactly once |
| GoalContinuation.InvariantErrorExactly | src/domain/goal-continuation.ts:69-112 | when an active goal of a running workflow ends in an invariant error |
| GoalContinuation.RevisionIsSound | src/domain/goal-continuation.ts:62-112 | a requested revision has an attempt and budget left, no pending turn and no work to run |
| ActionDispatch.ApplyActionDispatchEvent | src/domain/action-dispatch.ts:91-150 | the checks and field assignments give the specified refusal or next runtime |
| DispatchLedger.RefusalExactly | src/domain/action-dispatch.ts:91-150 | each refusal of a lifecycle event is the answer exactly for its own reason, in order of precedence |
| DispatchLedger.GoalEventExactly | src/domain/action-dispatch.ts:165-251 | what each goal event does to the ledger: a requested turn opens a model dispatch, a recorded one completes it, an abandoned one and a stop interrupt, nothing else touches it |
| DispatchLedger.ValidatorExactly | src/domain/action-dispatch.ts:253-292 | the validator accepts exactly the coherent runtimes and names the first thing wrong with any other |
| DispatchLedger.AcceptedTraces | src/domain/action-dispatch.ts:91-150 | the ledger accepts exactly the repetitions of selected, dispatched, finished with one id, ordered times and ordinals counting from 1, and the runtime is read off the trace |
| DispatchLedger.LedgerIsBalanced | src/domain/action-dispatch.ts:91-150 | ordinal = selections = terminal events + pending; the last outcome is the last terminal one; the validator never throws |
| DispatchLedger.GoalRunsAreBalanced | src/domain/action-dispatch.ts:206-292 | the ledger that any accepted run of goal events folds to, in the module or in the whole projection, balances what was recorded since the goal started |
| DispatchLedger.StopClosesDispatch | src/domain/action-dispatch.ts:228-242 | a stop is accepted exactly when nothing is pending or the dispatch was dispatched no later, and then nothing is pending |
| DispatchLedger.BatchedStopsLeaveNothingPending | src/domain/action-dispatch.ts:206-251 | with batched selections and monotone time every later stop is accepted and leaves nothing pending |
| DispatchLedger.WorkflowStopExactly | src/domain/projection.ts:34-40 | in the workflow projection this holds exactly unless the goal completed or failed with a dispatch pending |
| DispatchLedger.CompletedGoalKeepsDispatch | src/domain/projection.ts:34-40 | a batched run whose completed goal keeps a pending dispatch |
| DeterministicDispatch.BeginReadyCheckDispatch | src/domain/deterministic-check-dispatch.ts:87-149 | validation, then the selected and dispatched events |
| DeterministicDispatch.DispatchReadyGate | src/domain/deterministic-gate-dispatch.ts:138-194 | the gate batch: open, evaluate, close as completed or failed |
| DispatchProtocol.BeginOpensTheDispatch | src/domain/deterministic-check-dispatch.ts:123-149 | on a consistent state a valid selection always opens, except at the largest ordinal, in two accepted steps whose events project to the new ledger, and blocks every further selection |
| DispatchProtocol.FinishAfterBegin | src/domain/deterministic-check-dispatch.ts:151-172 | finishing succeeds exactly at a parseable time no earlier than the begin, and closes this dispatch |
| DispatchProtocol.FinishExactly | src/domain/deterministic-check-dispatch.ts:151-172 | finishing is rejected exactly for another dispatch, and succeeds exactly at a time no earlier than the dispatch, closing it as asked |
| DispatchProtocol.ValidExactly | src/domain/deterministic-check-dispatch.ts:87-121 | a dispatch request is valid exactly when it repeats the decision that the state makes now |
| DispatchProtocol.RejectionExactly | src/domain/deterministic-check-dispatch.ts:87-121 | each rejection is the answer exactly for its own reason, in order of precedence |
| DispatchProtocol.NoSecondDispatch | src/domain/deterministic-check-dispatch.ts:103-149 | once a valid request has opened its dispatch, its decision is refused on every state that any further accepted events lead to |
| DispatchProtocol.OneDispatchPerState | src/domain/deterministic-gate-dispatch.ts:100-136 | two valid requests on one state, for checks or gates, carry the same decision |
| DispatchProtocol.GateClosesExactly | src/domain/deterministic-gate-dispatch.ts:138-194 | a gate batch ends without an exception exactly when the evaluation is refused or leaves its dispatch open |
| DispatchProtocol.GateDispatchCloses | src/domain/deterministic-gate-dispatch.ts:138-194 | a gate dispatch leaves nothing pending and its own outcome, even when the evaluation ends the goal, and its events project to the ledger it returns |
| DispatchProtocol.RecoveryClosesDispatch | src/domain/action-dispatch-recovery.ts:24-77 | exactly when recovery succeeds or is rejected, that it closes a deterministic or executor dispatch as interrupted, and that it leaves a model dispatch alone |
| DispatchProtocol.BatchedRecoveryLeavesNothingPending | src/domain/action-dispatch-recovery.ts:24-77 | after any run with batched selections and monotone time, recovery at any later time succeeds and leaves no deterministic or executor dispatch pending |

## Left out

- Ordinals and sequences of dispatch events are integers; a selection whose numbers are not integers, which the code refuses, is not represented.
- A pending dispatch is `dispatched` when it has a dispatch time, so a stored record whose status and time disagree is not represented.
- The dispatch of ready code and effect nodes, which repeats the begin and finish steps of checks.
- Text is a sequence of Unicode scalar values: lone surrogates, and the code-unit order of astral characters, are not modelled.
- Locale collation is replaced by code-point order wherever the code sorts with `localeCompare`; only which order is used changes, not the sets.
- Own-property descriptor reads, proxies, prototypes, extra properties and values of the wrong host type: inputs are records of the declared types with unchecked contents.
- Diagnostic texts and locations: diagnostics are codes, in the code's order; blocker reasons, which identities compare, keep their texts.
- Copies made against aliasing (`structuredClone`, copied arrays) are values here, so mutation through a shared reference is not modelled.
- Non-finite numbers in conditions and canonical texts, functions, symbols, dates and big integers.
- StableJson.StableStringify: numbers are any type with a token text that reads back, because the decimal printing of a double belongs to the host.
- SHA-256 is an arbitrary function; injectivity is a hypothesis where a statement needs it.
- DeterministicDispatch.DispatchReadyGate: the reducer's gate command is an arbitrary function of the state; its law assumes that the events it emits are of the graph or end the goal, and that its new state carries what they project to.
- DeterministicDispatch.BeginReadyCheckDispatch: phase and hash of the projected state are arbitrary functions; schema versions and event ids are not modelled.
- ScopeVerification.VerifyCodeScope: running git, resolving paths against the root and reading files become an output text, a containment predicate and a file map; the allowlist test is any predicate, of which `ScopePaths.PathMatchesAllowlist` is the one in use; a program is mutating when one of its capabilities is.
- The variant of the lease test for changed paths reported by git (src/domain/workspace-scope-validation.ts:394-413), which keeps backslashes and does not strip a glob from the path.
- Lease paths arrive in a dispatch request of their own (src/domain/family-concurrent-dispatch.ts:865-918); that a request's lease lists a goal's binding scope is not claimed.
- The reason text of a blockage decision, beside the reason of its blocker.
- Family scheduling, child goal creation and return, the durable check and code lifecycles, workspace leases and integration: they rest on the reducer and on stored families.
- The host extension, process, file, git and sandbox execution, and the user interface.
- Report parsers, executor contracts and authoring advisories: long but shallow, one branch per fact.
