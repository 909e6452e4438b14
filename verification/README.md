# Verified models of the SITEBORNE utility

Dafny models of the parts of the repository whose correctness spans many steps or many functions,
with proofs that hold for every input, every schema set and every schedule.

| modules | what they model |
|---|---|
| `VerifierGraph`, `Waves`, `MeshRun`, `MeshVerdict`, `Mesh` (over `Graph`, `Text`) | the verifier mesh: depth-first topological sort, longest-path waves, concurrent execution of the waves, fail-closed verdict |
| `Bundling` (over `JsonTree`, `Unfolding`) | self-contained output schemas: three documents become one and their pointers are rewritten |
| `InlineRefs`, `InlineMeaning` (over `Chains`) | inlining of references over a set of schema files that may refer to each other in cycles, and what it does to their meaning |
| `Compat` | the structural diff of contract releases and the version bump it asks for |
| `WorkerPool` | the load runner: workers that share one counter |
| `ObjectSafety` | the bounded explicit-stack walk over request bodies |
| `SettlementRecovery`, `DelegationReconciliation` | the read-only classifiers that gate external payment actions after a crash |
| `TaskFrontier` | the execution frontier of the task list |
| `CreditSettlement` (over `Decimal`) | evidence of prepaid-credit settlements |
| `Margin`, `MicroUsd`, `DocumentUsage` | minimum prices, decimal amounts, document charges and their settlement |

Code that updates variables or fields in place is a method or a class here (`Sorter`, `Inliner`,
`SharedPool`, and the loops), proved against a function of its input; code made of expressions is a
function. What the original promises is then proved about those functions. Concurrent code is a state
machine whose steps may be scheduled in any order; exceptions are `Result`, `Option` or error values.

JSON Pointer is section 4 of RFC 6901. References follow JSON Schema draft-07 core, section 8.3, which
ignores the siblings of `$ref`. In `Bundling` a reference is followed by document id, alone or with a
fragment, or inside its document. The root of PCC or money is read as a target without `$id` and
`$schema`, that of the service and of the bundle without `$defs`. Siblings are kept beside the target, so
equal trees agree under either reading of them.
In `InlineMeaning` references to files are followed, and fragment references are read in two ways: left
opaque, or followed inside the nearest enclosing object with an `$id` (section 8.2), else inside the file.

## Where the code and its description differ

- The mesh decides whether a result is mandatory by the id written in the result, not by the id the
  verifier was registered under (`MeshVerdict.MislabelledFailureIsNotCounted`).
- A mandatory failure that is not of blocking severity does not stop a `pass`.
- The bundle is to stand for the three documents. It loses the service's own `$defs`
  (`Bundling.OwnDefinitionsAreLost`), references by id with a pointer (`Bundling.PccIdWithPointerDangles`),
  and, inside PCC, `#` and references to money (`Bundling.PccLosesMoneyAndRoot`). The frozen schemas have
  none of these. `Bundling.ServiceReferenceKeptExactly`, `Bundling.PccReferenceKeptExactly` and
  `Bundling.MoneyReferenceKeptExactly` say which references keep their meaning.
- Inlining moves a file's fragment references into another document. That is harmless exactly when they
  stand inside an object with an `$id` of its own (`InlineMeaning.FragmentsSurviveExactly`); the schema
  files all carry one. A reader that ignores `$id` does not find them (`InlineMeaning.RootPointerIsLost`).
- The policy makes a new required field and an added or removed `enum` value major
  (governance/CONTRACT_COMPATIBILITY.yaml:59-64, 87-92; docs/contracts/COMPATIBILITY_POLICY.md:177, 181).
  The diff reads arrays as objects keyed by index, so its branches for whole `enum` and `required` lists
  are never taken. An appended name or value, and a first list, are additions of an optional property
  and only minor, in the release too; removing or reordering values is major
  (`Compat.PolicyKeptExactly`, `Compat.AppendedValueIsMinor`, `Compat.FirstListIsMinor`,
  `Compat.AdditionIsMinorRelease`; `Compat.MajorExactlyWhenBreaking` and `Compat.ReleaseMajorExactly` say
  when the bump is major).
- A key lost because a container under `default` (or `minimum`, `maximum`, in one direction) became a
  plain value asks only for a minor bump (`Compat.LostDefaultKeyIsMinor`).
- NOT_SETTLED permits a retry on the strength of an empty listing. If the first request is still on its
  way, both may succeed (`SettlementRecovery.CrashInFlightSettlesTwice`); waiting until nothing is in
  flight is exactly what is needed (`SettlementRecovery.ClearanceHarmlessExactly`).
- The delegation classifier is to rule out a second delegation on retry. It does not if a listing lags
  behind a creation (`DelegationReconciliation.LateListingCreatesTwice`); a `no_match` is harmless exactly
  when the listings have shown every live delegation (`DelegationReconciliation.ClearanceHarmlessExactly`).
- A settlement retried after a failed attempt is never recognised again: two recorded transactions are
  ambiguous for good (`SettlementRecovery.RetryStaysAmbiguous`).
- An empty ready set is taken to mean that nothing is left to execute. That holds exactly when unresolved
  tasks have no cycle, and only self-dependency is checked (`TaskFrontier.NothingReadyMeansAllResolved`,
  `TaskFrontier.MutualWaitIsAccepted`).
- The margin check accepts some prices below cost, because the signed remainder can make the common
  divisor negative (`Margin.DividingLossIsAccepted`, `Margin.LossAtPriceThree`);
  `Margin.MarginCheckRightExactly` says for which inputs.

## Model

| member | source | states |
|---|---|---|
| `Graph.VisitKeepsOrder` | packages/verification/src/graph.ts:38-53 | A visit that returns only extends the order, keeps every dependency before its dependents without repetition, keeps the finished ids apart from the stack, and ends with the visited id finished |
| `Graph.VisitFindsCycle` | packages/verification/src/graph.ts:40-42 | When a visit throws, the graph really has a cycle, and it runs through the reported id |
| `Graph.SearchDecides` | packages/verification/src/graph.ts:36-57 | Searching from every id succeeds exactly on acyclic graphs, and then lists every id in dependency order |
| `Graph.TopologicalMeansAcyclic` | packages/verification/src/graph.ts:4-9 | A graph that can be listed in dependency order has no cycle |
| `Graph.VisitIgnoresOrder` | packages/verification/src/graph.ts:46-48 | The order in which `dependsOn` is written cannot be seen in what a visit does |
| `VerifierGraph.GraphOfFindsEach` | packages/verification/src/graph.ts:11 | With unique ids, the `byId` map gives each verifier back with its own dependencies |
| `VerifierGraph.FindDuplicateId` | packages/verification/src/graph.ts:13-19 | Throws exactly when two verifiers share an id, and names a repeated one |
| `VerifierGraph.FindMissingDependency` | packages/verification/src/graph.ts:21-30 | Throws exactly when some dependency is not registered, and names a verifier and such a dependency of it |
| `VerifierGraph.Sorter.constructor` | packages/verification/src/graph.ts:32-34 | The search starts with nothing visited, nothing on the stack and an empty order |
| `VerifierGraph.Sorter.Visit` | packages/verification/src/graph.ts:38-53 | The in-place recursive visit terminates on every closed graph, cyclic or not, ends in the state of the functional search, restores the stack, or throws at the same id |
| `VerifierGraph.SearchInOrder` | packages/verification/src/graph.ts:36-59 | The visits from the sorted ids together give the order of the functional search, or its cycle error |
| `VerifierGraph.TopologicalSort` | packages/verification/src/graph.ts:10-60 | Returns a permutation of the ids with dependencies first exactly when ids are unique, dependencies exist and there is no cycle; each error is thrown exactly when the checks before it pass and its own fails, and names a culprit |
| `VerifierGraph.IndependentInTextOrder` | packages/verification/src/graph.ts:4-9 | Verifiers without dependencies are listed by id; of two ids the one that is a start of the other, or has the smaller character at the first difference, comes first |
| `VerifierGraph.OrderIgnoresRegistration` | packages/verification/src/graph.ts:4-9 | The same verifiers registered in another order, with dependencies written in another order, give the same result |
| `Waves.WaveAfterIsDepth` | packages/verification/src/graph.ts:70-74 | One more than the largest wave of the dependencies is the length of the longest dependency chain |
| `Waves.DepthAlongChain` | packages/verification/src/graph.ts:70-77 | Depth falls by one along a longest chain; hence no wave below the last is empty |
| `Waves.AssignWaves` | packages/verification/src/graph.ts:70-75 | The loop gives every id the length of its longest dependency chain |
| `Waves.FillWaves` | packages/verification/src/graph.ts:77-81 | Every id lands, once, in the wave it was given, and nothing else does |
| `Waves.LayerOrder` | packages/verification/src/graph.ts:70-82 | From any dependency order the second half of the function arrives at the longest-path layers |
| `Waves.ComputeWaves` | packages/verification/src/graph.ts:65-83 | For exactly the valid acyclic sets it returns the longest-path layers, sorted and none empty (a single empty wave without verifiers); otherwise the error that is due |
| `Waves.WavesInTextOrder` | packages/verification/src/graph.ts:82 | Within a wave the ids stand in that order too |
| `Waves.WavesPartition` | packages/verification/src/graph.ts:77-82 | Every id is in exactly one wave, and only ids are |
| `Waves.DependenciesInEarlierWaves` | packages/verification/src/graph.ts:62-64 | Every dependency lies in a strictly earlier wave |
| `Waves.LayersAreLeast` | packages/verification/src/graph.ts:65-83 | No assignment of waves that respects dependencies places a verifier earlier |
| `Waves.LayersAreFewest` | packages/verification/src/graph.ts:77-78 | No such assignment needs fewer waves |
| `Waves.WavesIgnoreOrder` | packages/verification/src/graph.ts:65-83 | The waves do not depend on registration order or on the order of `dependsOn` |
| `MeshRun.RunKeepsInvariant` | packages/verification/src/mesh.ts:185-194 | In every interleaving, what is recorded is the finished waves concatenated with their own results, and what is settled belongs to verifiers of the current wave that have been started |
| `MeshRun.ResultsIgnoreSchedule` | packages/verification/src/mesh.ts:185-196 | Every finished run has the same result list, whatever order verifiers complete in |
| `MeshRun.StartedExactlyOnce` | packages/verification/src/mesh.ts:186-192 | In every interleaving a verifier is started at most once, and exactly once by the end |
| `MeshRun.DependenciesRecordedBeforeStart` | packages/verification/src/mesh.ts:185-194 | Whenever a verifier is about to start, each of its dependencies has its own result recorded |
| `MeshRun.UnfinishedRunCanStep` | packages/verification/src/mesh.ts:185-194 | A run that has not finished can always take a step |
| `MeshRun.RunsAreBounded` | packages/verification/src/mesh.ts:185-194 | Runs have at most two steps per verifier and one per wave, and that many exactly when finished |
| `MeshVerdict.RunVerifier` | packages/verification/src/mesh.ts:64-132 | A returned result passes through as it is; an exception or a timeout becomes a blocking failure under the verifier's own id |
| `MeshVerdict.ListMissing` | packages/verification/src/mesh.ts:198-204 | Lists each missing mandatory verifier in order |
| `MeshVerdict.CountResults` | packages/verification/src/mesh.ts:206-221 | The loop leaves the requirement list, the failure list and the two flags that the counted results determine |
| `MeshVerdict.ComputeVerdict` | packages/verification/src/mesh.ts:198-279 | The verdict is `pass` exactly when every mandatory id is present and no counted result blocks or is undecided; `quarantined` or `fail` exactly when one is missing or one blocks, by the injection result; the score is zero unless it passes |
| `MeshVerdict.DegradingNeverRaises` | packages/verification/src/mesh.ts:93-131 | Replacing a result by a blocking failure, or a pass by an undecided one, never raises the decision |
| `MeshVerdict.CrashForcesLowestRank` | packages/verification/src/mesh.ts:93-131 | An exception or timeout of a counted verifier forces `fail` or `quarantined` |
| `MeshVerdict.MissingMandatoryForcesLowestRank` | packages/verification/src/mesh.ts:163-169 | Without a mandatory verifier the decision is `fail` or `quarantined` whatever the others say |
| `MeshVerdict.OptionalNeverDecides` | packages/verification/src/mesh.ts:158-160 | When results carry their own ids, neither the result nor the registration of an optional verifier changes the decision |
| `MeshVerdict.BlockingDecidesExactly` | packages/verification/src/mesh.ts:163-169 | A blocking result forces `fail` or `quarantined` exactly when it is counted, by the id written in it, or something else blocks anyway |
| `MeshVerdict.MislabelledFailureIsNotCounted` | packages/verification/src/mesh.ts:210-211 | In every mode, a blocking failure under any label that is not mandatory leaves a `pass` as it is |
| `MeshVerdict.FieldsAreTheirVerifiers` | packages/verification/src/mesh.ts:223-234 | With distinct ids, each field of the verdict is read from its own verifier's result |
| `MeshVerdict.AbsentVerifiers` | packages/verification/src/mesh.ts:223-234 | Without a result the checks count as failed and the scores as zero, but the sources as agreeing |
| `MeshVerdict.InjectionIsRead` | packages/verification/src/mesh.ts:292-300 | The first injection line of the limitations is read back as written |
| `MeshVerdict.ScoreBounded` | packages/verification/src/mesh.ts:250-253 | The score stays between 0 and 1 if the verifiers' own scores do |
| `MeshVerdict.MandatoryByName` | packages/verification/src/mesh.ts:38-60 | The mandatory verifiers of each mode, by name |
| `MeshVerdict.RequirementsExactly` | packages/verification/src/mesh.ts:201-221 | A text is listed among the failed requirements, or the deterministic failures, exactly when a missing mandatory verifier or a counted result gives it |
| `MeshVerdict.InjectionExactly` | packages/verification/src/mesh.ts:292-300 | The injection result is confirmed or suspected exactly when the first injection line says so, up to a second `=` |
| `Mesh.EachIsRecorded` | packages/verification/src/mesh.ts:92-131 | Each registered verifier has an entry, and it is the result it returned, or a failure under its id and version that says whether it threw or timed out |
| `Mesh.RunWaves` | packages/verification/src/mesh.ts:185-194 | The wave loop stores the results as the waves concatenated |
| `Mesh.RunMesh` | packages/verification/src/mesh.ts:170-279 | Fails with the graph error that is due, or returns the waves, their results in order and the verdict those determine; every registered verifier is recorded with what its behaviour contributes |
| `Mesh.DecisionByBehaviour` | packages/verification/src/mesh.ts:198-248 | The decision by how the registered verifiers behave: `pass` exactly when every mandatory id is registered, no counted verifier threw or timed out, and no counted result blocks or is undecided; and the other three decisions likewise |
| `Mesh.FieldsByBehaviour` | packages/verification/src/mesh.ts:223-253 | Every check, score and the injection result of the verdict by the behaviour of its own verifier, with the default for each that is absent; the score of a pass is a quarter of the sum of its four parts |
| `Mesh.VerdictIgnoresOrder` | packages/verification/src/mesh.ts:163-169 | Result list and verdict are the same for every registration order, order of `dependsOn` and completion order |
| `Mesh.WorseBehaviourNeverRaises` | packages/verification/src/mesh.ts:185-248 | If one verifier of a run crashes, times out, blocks, or becomes undecided after a pass, the verdict of the run does not rise |
| `Mesh.RunWithoutMandatory` | packages/verification/src/mesh.ts:176-206 | A run without some mandatory verifier has a verdict of the lowest rank |
| `Mesh.DroppingMandatoryNeverRaises` | packages/verification/src/mesh.ts:176-206 | Leaving a mandatory verifier out of the registration never raises the verdict of the run |
| `Bundling.RewriteRefsLoop` | packages/protocol-mcp/src/frozen-contracts.ts:12-23 | The rewriting loop computes the rewriting, member by member, whatever order members come in |
| `Bundling.BundleRefsLoop` | packages/protocol-mcp/src/frozen-contracts.ts:25-39 | The same for the bundling of document references |
| `Bundling.RewrittenExactly` | packages/protocol-mcp/src/frozen-contracts.ts:12-23 | At every pointer rewriting keeps shape, members and plain values, but turns the text `#/` + p of a `$ref` into `#/$defs/pcc/` + p |
| `Bundling.BundledExactly` | packages/protocol-mcp/src/frozen-contracts.ts:25-39 | At every pointer bundling keeps shape, members and plain values, but turns the two document ids, where they stand as a `$ref`, into `#/$defs/pcc` and `#/$defs/money` |
| `Bundling.RewriteCommutes` | packages/protocol-mcp/src/frozen-contracts.ts:12-23 | Rewriting and pointer resolution commute, for every pointer: what the rewritten tree holds there is the rewriting of what the tree held, or the new text of a pointer |
| `Bundling.BundleCommutes` | packages/protocol-mcp/src/frozen-contracts.ts:25-39 | Bundling and pointer resolution commute in the same way, for every pointer |
| `Bundling.PccPointerInBundle` | packages/protocol-mcp/src/frozen-contracts.ts:17-20 | For every p, the bundle holds at `#/$defs/pcc/` + p what PCC holds at `#/` + p, rewritten, and nothing under `$id` and `$schema` |
| `Bundling.MoneyPointerInBundle` | packages/protocol-mcp/src/frozen-contracts.ts:44-52 | At `#/$defs/money/` + p the bundle holds what the money schema holds at `#/` + p, and nothing under `$id` and `$schema` |
| `Bundling.EmbeddedRoots` | packages/protocol-mcp/src/frozen-contracts.ts:42-52 | The two embedded roots are found where bundled references point |
| `Bundling.ServicePointerInBundle` | packages/protocol-mcp/src/frozen-contracts.ts:49-52 | At every pointer outside `$defs` the bundle holds what the service holds, bundled; under `$defs` it holds the two definitions and nothing else |
| `Bundling.BundleBisimulates` | packages/protocol-mcp/src/frozen-contracts.ts:41-53 | A node of the three documents and its place in the bundle take matching steps: same shape, and references, by id, by id with a pointer, or inside the document, lead to matching nodes or nowhere on both sides |
| `Bundling.BundlingPreservesMeaning` | packages/protocol-mcp/src/frozen-contracts.ts:41-53 | From every node of the service outside its `$defs`, following references in the bundle gives the same tree, at every depth, as following them across the documents, if every reference is of a kind that keeps its meaning |
| `Bundling.EmbeddedPccPreservesMeaning` | packages/protocol-mcp/src/frozen-contracts.ts:41-48 | The same for every node of PCC inside the bundle |
| `Bundling.BundleRootPreservesMeaning` | packages/protocol-mcp/src/frozen-contracts.ts:41-53 | The same for the whole service schema, the `$defs` on both sides set aside |
| `Bundling.OwnDefinitionsAreLost` | packages/protocol-mcp/src/frozen-contracts.ts:51 | No pointer to a definition of the service's own (under a name other than `pcc` and `money`) resolves in the bundle |
| `Bundling.OwnDefinitionDangles` | packages/protocol-mcp/src/frozen-contracts.ts:51 | A reference to such a definition is followed across the documents and leads nowhere in the bundle |
| `Bundling.ServiceReferenceKeptExactly` | packages/protocol-mcp/src/frozen-contracts.ts:25-53 | The kind is exact: of all references of the service, those keep their meaning that are the id of PCC or money, or lead, by fragment or own id, to a place outside `$defs` (not the text of a replaced id), or lead nowhere on both sides. The id of PCC or money with a pointer that resolves is not among them |
| `Bundling.PccReferenceKeptExactly` | packages/protocol-mcp/src/frozen-contracts.ts:12-23 | Of all references of PCC, those keep their meaning that are `#/` pointers to a place other than its names and the texts of its pointers, or that lead nowhere under an id or plain name; `#` and references to money are not among them |
| `Bundling.MoneyReferenceKeptExactly` | packages/protocol-mcp/src/frozen-contracts.ts:44-52 | The money schema is not rewritten: its references keep their meaning exactly when they lead nowhere on both sides or name the service at a place that is kept |
| `Bundling.PccIdWithPointerDangles` | packages/protocol-mcp/src/frozen-contracts.ts:30-36 | The failing input: the id of PCC with a pointer that resolves in PCC is followed across the documents and leads nowhere in the bundle |
| `Bundling.PccLosesMoneyAndRoot` | packages/protocol-mcp/src/frozen-contracts.ts:17-20 | Inside PCC, a reference to money leads nowhere in the bundle, and `#` leads to the root of the bundle |
| `Unfolding.BisimilarUnfoldAlike` | packages/protocol-mcp/src/frozen-contracts.ts:41-53 | Matching steps imply equal trees at every finite depth |
| `InlineRefs.Inliner.constructor` | packages/pcc-schema/scripts/create-combined-schemas.ts:21 | Inlining starts with nothing visited |
| `InlineRefs.Inliner.InlineRefs` | packages/pcc-schema/scripts/create-combined-schemas.ts:21-58 | Terminates on every schema set, cyclic or not, leaves `visited` as it found it, and returns the inlined schema |
| `InlineRefs.Inliner.InlineMembers` | packages/pcc-schema/scripts/create-combined-schemas.ts:53-57 | The member loop inlines every member under the same `visited` |
| `InlineRefs.FileIsInlined` | packages/pcc-schema/scripts/create-combined-schemas.ts:28-48 | For every file of every set, a reference to its path or to either of its two addresses becomes the inlined file, or `$ref` with the path while the file is being expanded |
| `InlineRefs.OtherReferenceIsKept` | packages/pcc-schema/scripts/create-combined-schemas.ts:50 | A reference of none of these forms is left as it is |
| `InlineRefs.PlainObjectIsEntered` | packages/pcc-schema/scripts/create-combined-schemas.ts:28-57 | An object whose `$ref` is absent or falsy is inlined member by member |
| `InlineRefs.LeftoverIsOnItsPath` | packages/pcc-schema/scripts/create-combined-schemas.ts:40-44 | Every resolvable reference left in the output names a document on its own expansion path |
| `InlineRefs.NothingLeftMeansNoReturn` | packages/pcc-schema/scripts/create-combined-schemas.ts:40-48 | If nothing resolvable is left, no chain of references from the schema ever repeats a document |
| `InlineRefs.RefsAreLeftExactlyOnCycles` | packages/pcc-schema/scripts/create-combined-schemas.ts:40-48 | Resolvable references are left exactly when references can be followed back to a document already passed; on an acyclic set none is |
| `Chains.EndsAlike` | packages/pcc-schema/scripts/create-combined-schemas.ts:28-49 | Two related chains of references, one of which may wait, both end, at places that are alike, or neither ends |
| `InlineMeaning.InliningSimulates` | packages/pcc-schema/scripts/create-combined-schemas.ts:28-49 | A place of a document and its inlined form go on to one place, or the inlined one waits while a reference is expanded, or both step, or both have ended |
| `InlineMeaning.AlikeUnfoldAlike` | packages/pcc-schema/scripts/create-combined-schemas.ts:21-58 | Places whose chains are related by a simulation that keeps shapes unfold to the same tree |
| `InlineMeaning.InliningPreservesMeaning` | packages/pcc-schema/scripts/create-combined-schemas.ts:21-58 | On every set of schema files, cyclic ones too, the inlined schema unfolds to the same tree as the original at every depth: always if fragment references are left opaque, and with fragments followed in the nearest `$id` resource if no file has a fragment outside one |
| `InlineMeaning.LooseFragmentIsLost` | packages/pcc-schema/scripts/create-combined-schemas.ts:45-48 | The failing input: a file without `$id` whose fragment reference leads to a node of its own, placed under another key, no longer means the same |
| `InlineMeaning.SmallFileLosesFragment` | packages/pcc-schema/scripts/create-combined-schemas.ts:45-48 | For example a file whose `a` refers to `#/b`, placed under `x` |
| `InlineMeaning.FragmentsSurviveExactly` | packages/pcc-schema/scripts/create-combined-schemas.ts:21-58 | The condition is exact: inlining keeps the meaning of every sound document exactly when no file has a fragment reference outside an `$id` resource |
| `InlineMeaning.RootPointerIsLost` | packages/pcc-schema/scripts/create-combined-schemas.ts:45-48 | To a reader that ignores `$id`: in a host whose one member holds the inlined file, no pointer whose first token is not the key of that member resolves from the root of the output |
| `Compat.CompareSchemas` | packages/contracts/scripts/compat.ts:131-269 | Reports exactly the changes of the diff, each once |
| `Compat.CompareKey` | packages/contracts/scripts/compat.ts:137-245 | One key of the previous version contributes exactly its own changes |
| `Compat.ReportAdditions` | packages/contracts/scripts/compat.ts:247-266 | The second loop completes the diff with the added keys |
| `Compat.DiffIsComplete` | packages/contracts/scripts/compat.ts:131-269 | Making the reported changes in the previous tree yields the next one |
| `Compat.NoChangesExactlyWhenEqual` | packages/contracts/scripts/compat.ts:131-269 | Nothing is reported exactly when the two trees read the same |
| `Compat.PathsGoThroughKey` | packages/contracts/scripts/compat.ts:138 | Every change found below a key carries a path through that key |
| `Compat.LostKeyForcesMajor` | packages/contracts/scripts/compat.ts:141-154 | A key lost at any depth is reported by exactly one change at or above it, and that change is major exactly when the key was not lost inside a `default`, `minimum` or `maximum` value that became plain in the lenient direction |
| `Compat.LenientMeansMinor` | packages/contracts/scripts/compat.ts:185-228 | A replacement is minor exactly under `default`, under `minimum` when the number does not rise, and under `maximum` when it does |
| `Compat.EditReported` | packages/contracts/scripts/compat.ts:161-228 | A plain value edited at any depth is reported once, with both values; kind and bump are those of its key: `minimum` and `maximum` by whether the number rises, `default` minor, all others major |
| `Compat.BoundEditIsMajorExactly` | packages/contracts/scripts/compat.ts:188-191 | A number under `minimum` is major exactly when it rises, under `maximum` exactly when it falls |
| `Compat.RemovedKeyReported` | packages/contracts/scripts/compat.ts:141-154 | A key that is gone is reported once, at its place, as a removed property, major |
| `Compat.AddedKeyReported` | packages/contracts/scripts/compat.ts:247-266 | A key that is new is reported once, as an added optional property, minor |
| `Compat.LostDefaultKeyIsMinor` | packages/contracts/scripts/compat.ts:195-196 | A concrete lost key that only a minor change reports |
| `Compat.MajorExactlyWhenBreaking` | packages/contracts/scripts/compat.ts:131-269 | A major change is reported exactly when some member at some depth is gone, or changed without both sides being containers and outside the lenient keys; additions never are |
| `Compat.ListMajorExactly` | packages/contracts/scripts/compat.ts:131-135 | A list of plain values is read by index: it asks for a major bump exactly when the previous list is not an initial part of the next one |
| `Compat.ListUnderKeyBreaksExactly` | packages/contracts/scripts/compat.ts:141-154 | The same for a list under a key of any object both versions have, at any depth: exactly when the list is gone, or not an initial part of the next one, a missing list read as empty |
| `Compat.PolicyKeptExactly` | packages/contracts/scripts/compat.ts:182-209 | For `required` and `enum` lists, the policy (a new required name, or an enum value added or removed, is major) is kept exactly when the edit does not merely append values, the first list included |
| `Compat.RemovedValueBreaks` | packages/contracts/scripts/compat.ts:203-209 | A value removed from such a list always asks for a major bump |
| `Compat.AppendedValueIsMinor` | packages/contracts/scripts/compat.ts:247-266 | The failing input: for every schema and list, appending a value, say a name to `required`, is reported as one minor addition and nothing else |
| `Compat.FirstListIsMinor` | packages/contracts/scripts/compat.ts:247-266 | So is the first list a schema gets |
| `Compat.Summarize` | packages/contracts/scripts/compat.ts:491-498 | The bump is the highest any change requires, and `none` without changes |
| `Compat.CompareFile` | packages/contracts/scripts/compat.ts:427-487 | One baseline file contributes its missing-file, descriptor or schema changes |
| `Compat.CollectChanges` | packages/contracts/scripts/compat.ts:406-489 | The report lists exactly the changes of the checked files, under their names |
| `Compat.CompatCheck` | packages/contracts/scripts/compat.ts:397-520 | Compatible exactly when no checked file is missing, a changed descriptor, or reads differently; the bump is the highest of all changes |
| `Compat.LostKeyMakesReleaseMajor` | packages/contracts/scripts/compat.ts:491-498 | A key lost from any checked file makes the release major, the lenient losses aside |
| `Compat.ReleaseMajorExactly` | packages/contracts/scripts/compat.ts:491-498 | The release is major exactly when a checked file is missing or has an edit that breaks |
| `Compat.ReleasePatchExactly` | packages/contracts/scripts/compat.ts:491-500 | No bump is asked for exactly when every checked file is as it was, and a patch exactly when only release descriptors are not |
| `Compat.TighterBoundIsMajorRelease` | packages/contracts/scripts/compat.ts:491-498 | A raised minimum or lowered maximum in any checked file makes the release major |
| `Compat.LooserBoundIsMinorRelease` | packages/contracts/scripts/compat.ts:491-498 | A release whose one edit loosens a bound is minor |
| `Compat.AdditionIsMinorRelease` | packages/contracts/scripts/compat.ts:491-498 | A release whose one change is an addition, such as a name appended to `required`, is minor |
| `WorkerPool.SharedPool.constructor` | scripts/security/load-stats.ts:62-71 | The pool starts with the counter at zero, no results and `min(concurrency, n)` workers |
| `WorkerPool.SharedPool.ClaimNext` | scripts/security/load-stats.ts:66-67 | Claiming in place is the claim step: one index to one worker, or its return |
| `WorkerPool.SharedPool.StoreResult` | scripts/security/load-stats.ts:68 | Storing in place is the finish step: the value goes to the task's own index |
| `WorkerPool.RunKeepsInvariant` | scripts/security/load-stats.ts:57-74 | In every interleaving each claimed task is either stored with its own value or held by exactly one worker, unclaimed tasks are untouched, and nobody returns while a task is unclaimed |
| `WorkerPool.ClaimedOnce` | scripts/security/load-stats.ts:66 | Each index below the counter is claimed by exactly one worker, once, and no other index is |
| `WorkerPool.BoundedConcurrency` | scripts/security/load-stats.ts:53-56 | At most `min(concurrency, n)` tasks are in flight, and that is the number of workers |
| `WorkerPool.ResultsInOrder` | scripts/security/load-stats.ts:68-73 | When all workers have returned, `results[i]` is the value of task i for every i |
| `WorkerPool.NoDeadlock` | scripts/security/load-stats.ts:64-70 | A worker that has neither returned nor failed can always take a step |
| `WorkerPool.RunsAreBounded` | scripts/security/load-stats.ts:64-70 | No schedule has more than two steps per task and one per worker |
| `ObjectSafety.PushEntries` | packages/protocol-a2a/src/transport.ts:45-51 | Pushes every child once, one level deeper, or stops at a forbidden key |
| `ObjectSafety.ObjectSafetyError` | packages/protocol-a2a/src/transport.ts:36-54 | Accepts exactly the trees with at most 10,000 objects and arrays, none deeper than 64, and no forbidden key; each error tells the truth |
| `ObjectSafety.ShallowMeansShortPointers` | packages/protocol-a2a/src/transport.ts:44 | In a tree within the depth limit no pointer of more than 64 tokens leads to an object or array |
| `ObjectSafety.DeepMeansLongPointer` | packages/protocol-a2a/src/transport.ts:44 | Beyond the limit there is such a pointer |
| `ObjectSafety.HostileKeyHasPointer` | packages/protocol-a2a/src/executor.ts:47-53 | The recursive check finds a key only if some pointer leads to an object that has it |
| `ObjectSafety.PointerFindsHostileKey` | packages/protocol-a2a/src/executor.ts:47-53 | And it finds every one that a pointer leads to |
| `ObjectSafety.AcceptedExactly` | packages/protocol-a2a/src/transport.ts:32-54 | What the walk accepts, by pointers and names: at most 10,000 objects and arrays, none at a pointer of more than 64 tokens, and no member `__proto__`, `constructor` or `prototype` at any |
| `SettlementRecovery.SettledExactlyOnEvidence` | packages/protocol-nevermined/src/settlement-recovery.ts:184-206 | SETTLED is reported exactly for a readable, consistent delegation with one transaction, which has succeeded; NOT_SETTLED exactly for one with no transaction or one failed transaction |
| `SettlementRecovery.MismatchIsAmbiguous` | packages/protocol-nevermined/src/settlement-recovery.ts:150-172 | A delegation with another provider, a currency that differs in more than letter case, a present and different plan, or a payer that differs in more than letter case makes the answer AMBIGUOUS, whatever the listing says |
| `SettlementRecovery.AgreeingDelegationLetsListingAnswer` | packages/protocol-nevermined/src/settlement-recovery.ts:150-172 | With none of these, absent fields included, the answer is that of the listing |
| `SettlementRecovery.ListingAnswers` | packages/protocol-nevermined/src/settlement-recovery.ts:55-94 | One transaction is SETTLED exactly if its status reads `succeeded`, NOT_SETTLED exactly if it reads `failed`, `declined` or `rejected`, letter case aside; none is NOT_SETTLED, several or an unreadable listing AMBIGUOUS |
| `SettlementRecovery.RunKeepsInvariant` | packages/protocol-nevermined/src/settlement-recovery.ts:69-89 | Through any history of crashes, lost and late requests and ledger progress, if no recovery clears the caller while a request is in flight, at most two attempts are recorded or on their way, the second only after the first finally failed |
| `SettlementRecovery.SettledAtMostOnce` | packages/protocol-nevermined/src/settlement-recovery.ts:46-54 | Under that condition no history ever holds two succeeded transactions |
| `SettlementRecovery.ClearanceHarmlessExactly` | packages/protocol-nevermined/src/settlement-recovery.ts:69-70 | The condition is exact: after a NOT_SETTLED, no two successes can ever follow exactly when no request was in flight |
| `SettlementRecovery.CrashInFlightSettlesTwice` | packages/protocol-nevermined/src/settlement-recovery.ts:1-6 | The failing run: the process dies after sending, the listing is still empty, and both requests are recorded as succeeded |
| `SettlementRecovery.SuccessNeverForgotten` | packages/protocol-nevermined/src/settlement-recovery.ts:173-183 | Once a success is recorded no later reconciliation reports NOT_SETTLED, whatever is in flight |
| `SettlementRecovery.RetryStaysAmbiguous` | packages/protocol-nevermined/src/settlement-recovery.ts:72-80 | Once two transactions are recorded every reconciliation is AMBIGUOUS for good, even if one succeeds |
| `DelegationReconciliation.Reconcile` | packages/protocol-nevermined/src/delegation-reconciliation.ts:103-140 | The first listing that shows a candidate decides; without one the result is `no_match` if the last listing succeeded and `timeout` otherwise |
| `DelegationReconciliation.ClassifyDecides` | packages/protocol-nevermined/src/delegation-reconciliation.ts:128-131 | A delegation is adopted exactly when it is the only exact match |
| `DelegationReconciliation.ConflictExactly` | packages/protocol-nevermined/src/delegation-reconciliation.ts:135-136 | Candidates conflict exactly when none matches exactly |
| `DelegationReconciliation.FirstCandidateDecides` | packages/protocol-nevermined/src/delegation-reconciliation.ts:120-136 | Later listings cannot change the result |
| `DelegationReconciliation.NoMatchExactly` | packages/protocol-nevermined/src/delegation-reconciliation.ts:96-102 | `no_match` is reported exactly when the last listing succeeded and no listing that succeeded showed a candidate |
| `DelegationReconciliation.FilterKeepsExact` | packages/protocol-nevermined/src/delegation-reconciliation.ts:120-128 | The filter for exhausted delegations never hides an exact match |
| `DelegationReconciliation.AdoptedExactly` | packages/protocol-nevermined/src/delegation-reconciliation.ts:64-73 | In the first listing that shows a delegation of the provider that is not spent up, an id is adopted exactly if its delegation alone is fit: provider, currency and status (letter case aside), budget not below the minimum, expiry strictly later |
| `DelegationReconciliation.ConflictsExactly` | packages/protocol-nevermined/src/delegation-reconciliation.ts:128-136 | It is a conflict exactly if none is fit; the ids reported are those of the delegations concerned, or of the fit ones if there are several |
| `DelegationReconciliation.AdoptedSuits` | packages/protocol-nevermined/src/delegation-reconciliation.ts:64-73 | An adopted delegation is always fit |
| `DelegationReconciliation.AbsentExactly` | packages/protocol-nevermined/src/delegation-reconciliation.ts:87-126 | `no_match` is reported exactly when the last listing succeeds and everything any listing shows is of another provider or spent up |
| `DelegationReconciliation.LiveWasNotShown` | packages/protocol-nevermined/src/delegation-reconciliation.ts:111-126 | After `no_match`, a delegation that is still live was shown by none of the listings of the whole polling loop |
| `DelegationReconciliation.StepKeepsInvariant` | packages/protocol-nevermined/src/delegation-reconciliation.ts:1-10 | Every step keeps at most one unexhausted delegation, and none while a caller is cleared to create |
| `DelegationReconciliation.NeverTwoLive` | packages/protocol-nevermined/src/delegation-reconciliation.ts:1-10 | Creating only on `no_match` never leads to two unexhausted delegations, however often the caller crashes and resumes and however late listings are, if each creation is visible by the last successful listing of a later reconciliation that clears it |
| `DelegationReconciliation.ClearanceHarmlessExactly` | packages/protocol-nevermined/src/delegation-reconciliation.ts:120-126 | The condition is exact: a `no_match` is harmless exactly when the listings have shown every delegation that is still live |
| `DelegationReconciliation.NeverTwoLiveWhenFresh` | packages/protocol-nevermined/src/delegation-reconciliation.ts:1-10 | In particular no history leads to two unexhausted delegations if a last listing that succeeds always shows every live one, whatever the outcome of the reconciliation |
| `DelegationReconciliation.LateListingCreatesTwice` | packages/protocol-nevermined/src/delegation-reconciliation.ts:4-6 | The failing run: a crash after a creation that the next listing does not show yet ends with two live delegations |
| `TaskFrontier.ReadyUnfinished` | scripts/lib/task-frontier.ts:63-69 | Selects exactly the unresolved tasks whose dependencies are all present and resolved |
| `TaskFrontier.BlockerFailures` | scripts/lib/task-frontier.ts:100-106 | Reports exactly the active tasks that carry a genuine blocker |
| `TaskFrontier.FrontierFailures` | scripts/lib/task-frontier.ts:139-153 | Reports exactly the ready tasks that are not explicitly blocked, each for the right reason |
| `TaskFrontier.ValidateExecutionFrontier` | scripts/lib/task-frontier.ts:93-160 | Valid and status are decided as documented for no, one and several active tasks, and the failures are exactly those due |
| `TaskFrontier.DueExactly` | scripts/lib/task-frontier.ts:100-153 | Each failure is due exactly when the tasks give cause for it, by their states, blockers and dependencies |
| `TaskFrontier.ReadyExactly` | scripts/lib/task-frontier.ts:39-69 | A task is ready exactly when its state is none of the five finished ones and every dependency names a task (the last of that id) in one of them |
| `TaskFrontier.ActiveCounted` | scripts/lib/task-frontier.ts:47-95 | The active tasks are those in state `active` or `in_progress`, each counted |
| `TaskFrontier.FollowToReady` | scripts/lib/task-frontier.ts:53-61 | Without cycles every chain of unresolved tasks leads on to a ready one |
| `TaskFrontier.ReadyReachedExactlyWithoutKnot` | scripts/lib/task-frontier.ts:63-69 | Every unresolved task leads to a ready one exactly when no unresolved tasks wait only on each other |
| `TaskFrontier.AcceptedIdleExactly` | scripts/lib/task-frontier.ts:126-159 | Without an active task a frontier is accepted exactly when no failure is due |
| `TaskFrontier.AcceptedMeansBlocked` | scripts/lib/task-frontier.ts:126-159 | An accepted frontier without active tasks means that every unresolved task is, or transitively waits on, an explicitly blocked one, exactly when no unresolved tasks wait only on each other |
| `TaskFrontier.AcyclicHasNoKnot` | scripts/lib/task-frontier.ts:126-159 | On an acyclic task graph there are no such tasks |
| `TaskFrontier.NothingReadyMeansAllResolved` | scripts/lib/task-frontier.ts:132-137 | When nothing is ready, nothing is left to do exactly when the unresolved tasks have no cycle |
| `TaskFrontier.MutualWaitIsAccepted` | scripts/validate-tasks.ts:104-107 | The failing input: two tasks waiting on each other, neither active, leave nothing ready and no failure due, so the frontier is accepted |
| `TaskFrontier.AcyclicTasksAcyclicUnresolved` | scripts/validate-tasks.ts:104-107 | It is enough that the whole task graph has no cycle |
| `Decimal.CanonicalEqual` | packages/protocol-nevermined/src/credits-settlement-evidence.ts:59-61 | Canonical decimal strings are equal exactly when their values are |
| `Decimal.PrintOfValue` | packages/protocol-nevermined/src/credits-settlement-evidence.ts:59-61 | Printing the value of a canonical string gives the string back |
| `CreditSettlement.BuiltEvidenceValidExactly` | packages/protocol-nevermined/src/credits-settlement-evidence.ts:103-174 | Built evidence validates exactly when it is about the expected payment and plan and its numbers add up |
| `CreditSettlement.MalformedExactly` | packages/protocol-nevermined/src/credits-settlement-evidence.ts:59-101 | Evidence is malformed exactly when its kind, an identifier, a number, the transaction, the date or the hash does not have its form |
| `CreditSettlement.ReasonIsTrue` | packages/protocol-nevermined/src/credits-settlement-evidence.ts:134-172 | Every other reason names a mismatch that is there, in numbers where it is about numbers |
| `CreditSettlement.ValidAddsUp` | packages/protocol-nevermined/src/credits-settlement-evidence.ts:121-168 | Validated evidence, however it came about, adds up: balance equation, expected amounts, redemption within the authorization |
| `CreditSettlement.AlteredEvidenceIsInvalid` | packages/protocol-nevermined/src/credits-settlement-evidence.ts:169-172 | Changing any field under an unchanged hash is detected, if the hash tells payloads apart |
| `CreditSettlement.SettlementConserves` | packages/protocol-nevermined/src/credits-settlement-evidence.ts:162-168 | One settlement turns the balance before it, plus cash, into the balance after it, plus what was redeemed |
| `CreditSettlement.CreditsConserved` | packages/protocol-nevermined/src/credits-settlement-evidence.ts:121-174 | Along any chain of validated settlements, final balance + total redeemed = initial balance + total cash |
| `CreditSettlement.RedemptionsCovered` | packages/protocol-nevermined/src/credits-settlement-evidence.ts:152-168 | At no step is more redeemed than was available, and each redemption is within its authorization |
| `Margin.GcdDivides` | packages/pricing/src/index.ts:95-96 | JavaScript's signed `gcd` returns a non-zero common divisor, for all signs |
| `Margin.MarginReduces` | packages/pricing/src/index.ts:91-98 | The reduced margin is the unreduced one divided by that divisor, exactly |
| `Margin.CeilDivLeast` | packages/pricing/src/index.ts:76-79 | The ceiling division is the least integer that covers |
| `Margin.LeastAcceptablePrice` | packages/pricing/src/index.ts:68-109 | For cost at most price, a margin is accepted exactly when the price is at least the computed minimum |
| `Margin.MarginCheckRightExactly` | packages/pricing/src/index.ts:91-109 | For every cost, also above the price, the check agrees with the minimum price exactly unless there is a loss that Euclid's algorithm reduces against the price in an even number of steps |
| `Margin.DivisorPositiveExactly` | packages/pricing/src/index.ts:95-96 | The signed `gcd` comes out positive exactly then |
| `Margin.TargetPriceIsAccepted` | packages/pricing/src/index.ts:8-9 | A price computed for the target margin is the least with a margin of 70 hundredths, and passes the check with the accepted minimum |
| `Margin.AcceptedAtFourTenths` | packages/pricing/src/index.ts:104-109 | Without a loss a price is accepted exactly when cost is at most four tenths of it |
| `Margin.DividingLossIsAccepted` | packages/pricing/src/index.ts:91-109 | Every loss that divides the price is accepted, for every minimum margin |
| `Margin.LossAtPriceThree` | packages/pricing/src/index.ts:91-109 | For example cost 4 at price 3 |
| `MicroUsd.MicroRoundTrip` | packages/pricing/src/index.ts:30-40 | Reading back a printed amount gives the amount |
| `MicroUsd.ReadingFloors` | packages/pricing/src/index.ts:30-34 | Reading any digit string with an optional fraction gives the floor of its value times 10^6 |
| `MicroUsd.Rescale` | packages/pricing/src/service-prices.ts:124-135 | Rescaling is exact from six decimals on and the floor below |
| `MicroUsd.AtomicUnitsNeverOverstate` | packages/pricing/src/service-prices.ts:130-135 | The converted amount is exact or the floor, never above, and printed canonically |
| `DocumentUsage.PriceMicro` | packages/pricing/src/service-prices.ts:21-31 | The price strings of the table read as 12000, 19000, 29000 and 190000 micro-dollars |
| `DocumentUsage.ChargeByTier` | packages/pricing/src/document-usage.ts:50-71 | The charge is the smaller of the cap and the sum over tiers of pages times price |
| `DocumentUsage.CostByFields` | packages/pricing/src/document-usage.ts:26-30 | A page with tables costs 29000, one without that was recognised 19000, any other 12000 |
| `DocumentUsage.ChargeByFields` | packages/pricing/src/document-usage.ts:50-71 | The charge by the numbers of such pages, capped at 190000, with the cost of every page in page order |
| `DocumentUsage.ChargeIgnoresOrder` | packages/pricing/src/document-usage.ts:53-61 | Reordering pages does not change the charge |
| `DocumentUsage.ChargeGrows` | packages/pricing/src/document-usage.ts:50-71 | Adding a page anywhere, or moving one to a dearer tier, never lowers the charge |
| `DocumentUsage.ChargeWithPage` | packages/pricing/src/document-usage.ts:61-68 | One page more adds its price, up to the cap |
| `DocumentUsage.ChargeInRedemptionRange` | packages/protocol-nevermined/src/document-dynamic-plan-validator.ts:102-120 | The charge for at least one page lies between 12000 and 190000, the plan's redemption range |
| `DocumentUsage.AtomicUnitsAgree` | packages/pricing/src/document-usage.ts:73-82 | The direct conversion agrees with printing the total and converting the string, for every number of decimals, and never overstates |
| `DocumentUsage.DocumentChargeIsAccepted` | packages/protocol-nevermined/src/dynamic-settlement.ts:13-33 | With the cap authorized, every document charge is accepted and exactly it is settled |
| `DocumentUsage.PreparedExactly` | packages/protocol-nevermined/src/dynamic-settlement.ts:13-33 | A usage result is invalid exactly when it is of another service or an amount is no digit string, exceeds the authorization exactly when its number is greater, and else settles what was used |
| `DocumentUsage.AcceptedExactlyWithinAuthorization` | packages/protocol-nevermined/src/dynamic-settlement.ts:23-25 | With any other authorization it is accepted exactly when it is within it |

## Left out

- Text: ids and texts are Dafny strings compared character by character; JavaScript compares UTF-16 code units, and `toLowerCase` is modelled on ASCII letters only.
- Numbers: prices and amounts are unbounded integers, exact for doubles below 2^53; scores, budgets and JSON numbers are reals, so rounding, negative zero and infinities are not modelled.
- Member order of JSON objects: objects are maps, and loops over their keys take them in any order; which of several safety errors is reported, and the order of a change list, is therefore not fixed.
- Percentiles, latency statistics and throughput of the load runner: floating-point summaries of a sorted copy.
- The load runner's error for a concurrency that is not positive, and fractional concurrency.
- Audit events, timestamps, hashes of results, real timers, backoff sleeping and the texts of error messages.
- Verification results: only the fields that the verdict reads; the verdict does not include `details`, the policy id or the version map.
- The mesh run: how a verifier behaves (returns, throws, times out) is an input; its dependence on the candidate and on time is not modelled.
- Plain-name and percent-encoded fragments and relative references count as leading nowhere; in InlineMeaning, so do references with both a document id and a fragment, and an `$id` is not used to resolve references to files. In Bundling an `$id` counts at the root of a document only.
- InlineMeaning.InliningPreservesMeaning: with fragments followed, asks that the pointers of fragments pass through no reference, because what lies behind a reference is not part of the file; schema files hold objects or booleans.
- InlineMeaning.FragmentsSurviveExactly: asks that loose fragments lead to a node that is not a reference again; a fragment that leads nowhere in its own file has no meaning to lose.
- `$ref` members in data positions (`enum`, `const`, `default`) are treated as references, as the code treats them.
- Bundling.ServiceReferenceKeptExactly: asks that the reference does not lead into definitions that the service and the bundle both have (a `$defs` of the service, or its members `pcc` and `money`), which may or may not be alike; the service's `$id` names no other document and has no fragment.
- Bundling.PccReferenceKeptExactly: for `#`, asks that the roots of PCC and the service do not have the same member names, as those of the frozen schemas do not.
- Bundling.MoneyReferenceKeptExactly: asks the same, and that a pointer does not resolve on both sides.
- InlineRefs.Inliner.InlineRefs: requires every truthy `$ref` to be a string, because the code throws a TypeError on any other; siblings of a reference are dropped as in the code.
- Schema files with equal `JSON.stringify` texts are taken to be equal documents, and file names to be non-empty paths that start neither with a schema URL prefix nor with `#`.
- Compat.CompareSchemas: paths are key sequences instead of dotted texts and encoded pointers, and `Number` on arbitrary values is a parameter.
- Compat.CompatCheck: whether a file is missing, unchanged, a YAML descriptor or edited is an input (reading and hashing files is left out), edited files hold an object or array at the top, and the count of compared files is not reported.
- Baseline and release verification, which compare hashes file by file.
- Settlement recovery and delegation reconciliation: only the one caller that recovers or resumes sends and creates; other issuers and two callers at once are not modelled.
- Delegation reconciliation: a creation request takes effect at once or is lost; only its visibility is late.
- Delegation amounts and instants are given as `Number` and `Date` read them, an absent spent amount as zero.
- Settlement evidence of the wrong types: evidence is a record of strings; the hash and the set of date strings are parameters.
- MicroUsd.ReadingFloors: requires a digit string with an optional fraction; what `parseInt` makes of other strings is left out.
- DocumentUsage.PriceMicro: takes the embedded price table; loading the governance file and caching it are left out.
- Scarcity, failure-risk and price-change percentages, which are floating-point factors.
- Registry reconciliation, the promotion ladder, plan validators (their redemption range apart) and the schema package's own validators: they would add easy or line-by-line members.
- HTTP routes, protocol SDK handlers, signing, file and process input and output.
