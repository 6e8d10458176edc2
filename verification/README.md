# UDS bundle CLI: verified model

This project models the parts of the UDS bundle CLI whose correctness is not visible from one function and proves what
they are relied on for. It verifies with `dafny verify dfyconfig.toml`.

- **Levelled deployment.** `Walks`, `DependencyGraph`, `Levels`, `DeploymentOrder`, `Selection` and `BundleValidation`
  cover the dependency graph: cycle detection, Kahn's algorithm in waves with in-degrees that count duplicate
  `depends_on` entries, filtering to a selection and the safety checks. `DeployScheduler` is the concurrent, fail-stop
  scheduler as a step machine, `DeployGuarantees` what all of its interleavings guarantee, `DeployCancellation` what a
  failure or a cancellation stops in them, and `Removal` the teardown in reverse level order.
- **Locals and file().** `LocalOrder`, `Expressions`, `LocalEvaluation` and `BundleSource` order and evaluate the local
  definitions of a bundle file; `Occurrences` tells by positions in the tree what the traversals find, and
  `WrittenOrder` says when the way locals are written shows. `TextEdits` and `Materialization` rewrite every expression
  that calls file() to a literal, `MaterializedText` relates the new text to its structure, `MaterializedLocals` and
  `MaterializedMeaning` show when the rewritten file means the same without the files, and `ChangedMeaning` that it
  need not.
- **Archives.** `Prefetch` is the streaming metadata prefetch against direct lookups, `PrefetchedFiles` what it
  delivers by titles and archive entries, `SharedDigests` what it finds when packages share a manifest, `ArchiveOrder`
  the order in which archives are written and why one pass over a prefix is then enough.
- **OCI content.** `Oci` is the content descriptor, `ContentGraph` reachability, verification and pruning of
  content-addressed blobs; `Registry`, `RootIndex` and `Push` are the multi-architecture root index at a tag and the
  ordered writes of a push. The formats are those of the OCI Image Format Specification, sections "OCI Content
  Descriptors" and "OCI Image Index Specification".
- **Configuration.** `VariableTrees` is the algebra of overlaying variables, `VariableMerge` the in-place merge over
  heap maps that implements it without aliasing. `FeatureMode` prints, parses and resolves feature flags across process
  boundaries. `Strings`, `Ordering`, `Sequences` and `Wrappers` hold shared definitions.

Code that changes things in place is modelled by methods and classes proved against functions on values; the lemmas are
about those functions. Recursive closures become classes whose fields are the captured variables.

What the source takes from outside enters as a parameter: what `DeployPackage` returns is any choice of a run, files are
a map, expressions are abstract syntax, archives are sequences of entries, hashing is an injective function, and a
registry connection may be lost after any number of writes. Of `errgroup` the scheduler assumes that at most the limit
of bodies hold a slot, that the first error cancels the derived context before its body releases the slot, and that
cancellation is sticky.

Some promises hold under a condition only. The condition is then a hypothesis, with a lemma that shows how it fails:

- the values of locals do not depend on the order in which they are written when every other local is a transitive
  dependency or dependent of each local that uses `local` as a whole (`WrittenOrder.ComparableOrderIrrelevant`). For
  locals that name what they reference or are the object of all locals this is exact
  (`WrittenOrder.WrittenOrderIrrelevantExactly`), and it can fail (`WrittenOrder.BareLocalShowsWrittenOrder`);
- a materialized bundle file means the same exactly when each local without file() that uses `local` as a whole has its
  value among the locals before it once the references of file() locals are dropped
  (`MaterializedMeaning.MaterializationPreservesMeaning`). On the source alone, it is enough that the same locals stand
  before it, which is also necessary when it is the object of all locals (`MaterializedMeaning.ScopesDecideMeaning`) and
  can fail (`ChangedMeaning.FileReferenceHeldTheOrder`);
- with pairwise distinct manifest digests prefetch agrees with lookups (`Prefetch.PrefetchIsLookup`). With a shared digest
  it makes one pass, and agrees with successful lookups when every metadata blob is a manifest or stands behind one that
  names it; where manifests use each title once, only then (`SharedDigests.SharedDigestIsLookup`,
  `SharedDigests.SharedDigestLosesMetadata`);
- the search finds everything reachable exactly when no occurrence of a found digest leads outside of what was found
  (`ContentGraph.FoundExactly`), as when all occurrences of a digest lead to the same; a digest met first as a leaf and
  then as an index can break it (`ContentGraph.DigestReuseHidesSuccessors`);
- merging panics exactly where nil Variables would be stored into or a foreign map copied
  (`VariableTrees.MergeableMeaning`), and is associative exactly up to a value other than a map between two maps
  (`VariableTrees.RegroupingMeaning`, `VariableTrees.ScalarBetweenMaps`);
- the cluster's packages are told apart by metadata name and namespace when names have no slash, as names of cluster
  resources have none; with a slash, keys of different packages coincide (`Removal.SlashesAreAmbiguous`);
- the arguments of a resolved command strip back exactly when Zarf's features were inserted before the end of options,
  which fails when a root flag takes `--` for its value (`FeatureMode.EndOfOptionsAsFlagValue`);
- a published root can be read again, by the next push or by a resolver, exactly when it does not outgrow the fetch
  limit of 16 MiB, which the push itself does not check (`RootIndex.RootReadBack`, `RootIndex.PushedChildResolves`,
  `RootIndex.HistoryOutgrowsLimit`).

## Model

| member | source | states |
|---|---|---|
| `DependencyGraph.CycleDetector.Dfs` | internal/bundle/dependency.go:248-267 | One call of the recursive search extends the set of finished packages, restores the recursion stack, and reports an error only when an edge closes a cycle over the stack |
| `DependencyGraph.DetectCycles` | internal/bundle/dependency.go:244-277 | The depth-first search with a recursion stack reports an error if and only if the graph has a cycle |
| `DependencyGraph.BuildDependencyGraph` | internal/bundle/dependency.go:35-77 | Construction succeeds if and only if every `depends_on` name is declared and the edges are acyclic; the edges are then exactly the declared ones, duplicates kept |
| `BundleValidation.Validate` | pkg/bundle/spec/validation.go:12-69 | An error is reported exactly when the header or some package gives cause for it: version, metadata name, package list, names, sources, dependencies and optional components |
| `BundleValidation.AcceptedMeaning` | pkg/bundle/spec/validation.go:27-54 | No error about the package list, names or dependencies means names legal and distinct and no dependency empty, unknown or the package itself, and conversely |
| `BundleValidation.ValidatedBundleCycles` | pkg/bundle/spec/validation.go:40-65 | For a validated bundle every reference is known and every cycle has at least two packages, so graph construction can only fail on such a cycle |
| `BundleValidation.ValidatedPackagesDeclared` | internal/bundle/dependency.go:38-50 | No package of a validated bundle is overwritten in the name-keyed package map |
| `DeploymentOrder.ReverseEdges` | internal/bundle/dependency.go:116-124 | The dependents lists hold a package under a dependency exactly as often as `depends_on` names it |
| `DeploymentOrder.Release` | internal/bundle/dependency.go:147-156 | Placing one package turns the in-degrees into the unmet dependency occurrences without it, also when `depends_on` repeats names |
| `DeploymentOrder.NothingReadyCyclic` | internal/bundle/dependency.go:135-137 | When no in-degree is zero although packages remain, the graph has a cycle |
| `DeploymentOrder.TopologicalLevels` | internal/bundle/dependency.go:108-161 | Kahn's waves succeed if and only if the graph is acyclic, and then give the levelling of the graph, each level sorted by name |
| `Ordering.BelowMeaning` | internal/bundle/dependency.go:140-142 | The order of names by which levels are sorted: by the first difference, a prefix before what extends it |
| `DeploymentOrder.TopologicalSort` | internal/bundle/dependency.go:81-93 | The flat order lists every package once with all its dependencies earlier, and exists exactly for acyclic graphs |
| `DeploymentOrder.Level` | internal/bundle/dependency.go:207-221 | The level of a package in the levelling, -1 for an unknown package or a cyclic graph |
| `Levels.LevelIsOnePlusMaximum` | internal/bundle/dependency.go:108-161 | The level is 0 without dependencies and otherwise one more than the largest level of a dependency |
| `Levels.NoLongerWalk` | internal/bundle/dependency.go:108-161 | No dependency path from a package is longer than its level |
| `Levels.LongestWalkExists` | internal/bundle/dependency.go:108-161 | Some dependency path from a package is as long as its level |
| `Levels.LevelIsEarliest` | internal/bundle/dependency.go:95-107 | Any assignment of waves that respects the dependencies places every package at least as late |
| `Levels.LevelsAreFewest` | internal/bundle/dependency.go:95-107 | No division into waves that respects the dependencies has fewer levels |
| `Levels.LevellingUnique` | internal/bundle/dependency.go:108-161 | A graph has one levelling, so map iteration order cannot show in the result |
| `Levels.LevellingAcyclic` | internal/bundle/dependency.go:135-137 | A graph that can be levelled has no cycle, so what the cycle check accepts is exactly what the waves can finish |
| `Levels.DependencyIsLower` | internal/bundle/dependency.go:108-161 | Every transitive dependency sits on a strictly lower level |
| `Selection.FilterLevels` | internal/bundle/dependency.go:167-202 | Unknown names are refused; otherwise the result is every level restricted to the selection, without the levels that became empty |
| `Selection.FilteredFlatten` | internal/bundle/dependency.go:181-199 | Restricting the levels and restricting the flat order give the same sequence |
| `Selection.FilteredKeepsOrder` | internal/bundle/dependency.go:181-199 | Dropping packages and empty levels keeps which of two remaining packages is on a lower level |
| `Selection.MissingDependencies` | internal/bundle/dependency.go:362-385 | Every selected package with direct dependencies outside the selection, and exactly those; empty if and only if the selection is deploy-safe |
| `Selection.DependentBlockers` | internal/bundle/dependency.go:335-358 | Under every removed package the staying packages that depend on it, once per occurrence, sorted; empty if and only if the selection is removal-safe |
| `Selection.SafetyDuality` | internal/bundle/dependency.go:335-385 | A selection is deploy-safe if and only if its complement is removal-safe |
| `Selection.DeploySafeIsTransitive` | internal/bundle/dependency.go:362-385 | Emptiness of the direct-edge check means that the selection holds every transitive dependency |
| `Selection.RemovalSafeIsTransitive` | internal/bundle/dependency.go:335-358 | Emptiness of the direct-edge check means that the removal holds every transitive dependent |
| `DeployScheduler.StepInv` | internal/zarf/deploy_orchestrator.go:74-150 | Every step of the scheduler (admission, slot, context re-check, begin, success, failure, cancellation, slot release, level barrier, parent cancellation) keeps the invariant that ties phases, slots, `deployed` and the accumulator together |
| `DeployScheduler.RunInv` | internal/zarf/deploy_orchestrator.go:74-150 | Every state of every interleaving satisfies that invariant |
| `DeployGuarantees.BeginAfterLowerLevels` | internal/zarf/deploy_orchestrator.go:96-147 | In every run `DeployPackage` is called only when every package of every lower level is recorded as deployed |
| `DeployGuarantees.RunningAboveLowerLevels` | internal/zarf/deploy_orchestrator.go:96-147 | At every moment of a run a package begun and not yet recorded is on the current level, with all packages of lower levels recorded |
| `DeployGuarantees.DependenciesDeployedFirst` | internal/zarf/deploy_orchestrator.go:101-147 | After a deploy-safe selection is filtered out of the levels, every transitive dependency of a package whose deployment has begun is already deployed |
| `DeployGuarantees.WholeBundleIsSafe` | internal/zarf/deploy_orchestrator.go:74-150 | Running the unfiltered levels of an acyclic graph is such a safe selection |
| `DeployGuarantees.ConcurrencyBounded` | internal/zarf/deploy_orchestrator.go:96-97 | In every state of every run no more than the configured number of deployments are running |
| `DeployGuarantees.BegunOnce` | internal/zarf/deploy_orchestrator.go:108-135 | No package is begun twice; the accumulator holds one error for exactly the packages that have begun, are not under way any more and are not deployed |
| `DeployGuarantees.FinishedLevelAccounted` | internal/zarf/deploy_orchestrator.go:138-141 | Each package of a finished level is exactly one of deployed, failed and never begun |
| `DeployGuarantees.OutcomeExplained` | internal/zarf/deploy_orchestrator.go:138-149 | Run ends with the joined errors of exactly the begun and undeployed packages, with the parent's error only after a parent cancellation and with everything begun deployed, or with success past the last level |
| `DeployGuarantees.SuccessMeansAllDeployed` | internal/zarf/deploy_orchestrator.go:74-150 | When Run returns nil every package of every level was deployed exactly once and the deployed list is the flattened levels, although the error of `g.Wait` is discarded |
| `DeployGuarantees.DeployedPackages` | internal/zarf/deploy_orchestrator.go:55-68 | The recorded packages in the order of the flattened levels |
| `DeployGuarantees.SequentialPrefix` | internal/zarf/deploy_orchestrator.go:96-136 | At concurrency 1 the deployed packages are at every moment a prefix of the flattened levels |
| `DeployGuarantees.RunsAreBounded` | internal/zarf/deploy_orchestrator.go:74-150 | No run takes more than 8 * (packages + levels + 1) steps |
| `DeployGuarantees.NeverStuck` | internal/zarf/deploy_orchestrator.go:74-150 | A run that has no outcome yet can always take a step that needs no outside help |
| `DeployCancellation.NothingQueuedIsDeployed` | internal/zarf/deploy_orchestrator.go:101-117 | Once the derived context is cancelled, at any concurrency, only packages whose body had already passed its context check still begin; a queued one never does, at most one more body starts, no later level runs and the run cannot succeed |
| `DeployCancellation.FailureIsReported` | internal/zarf/deploy_orchestrator.go:121-140 | An accumulated error ends the run with that error among its failures, whatever else happens, a cancelled parent included |
| `DeployCancellation.CancelledRunNeverAdvances` | internal/zarf/deploy_orchestrator.go:141-143 | After the parent is cancelled no further level starts, and Run returns nil only if its loop was already over |
| `DeployCancellation.CancelledLevelNeverStarts` | internal/zarf/deploy_orchestrator.go:75-83 | When the parent is cancelled before the check at the head of a level, nothing happens any more but the return of the parent's error |
| `DeployCancellation.RecordsFollowResults` | internal/zarf/deploy_orchestrator.go:121-134 | A package is recorded as deployed exactly when its deployment returned nil, as failed exactly when it returned an error, apart from results still on their way |
| `DeployCancellation.ResultFollowsEvents` | internal/zarf/deploy_orchestrator.go:137-149 | Run returns the joined errors if and only if some deployment failed, of exactly those that failed, and the parent's error only when there is none and the parent was cancelled |
| `DeployCancellation.SlotsRunInParallel` | internal/zarf/deploy_orchestrator.go:96-136 | While the context is live, k free slots let the next k packages of a level be deployed at the same time: the limit is reached, not only kept |
| `DeployCancellation.OutsideEventsArePossible` | internal/zarf/deploy_orchestrator.go:84-95 | A running deployment may return either way, the parent may be cancelled at any time before Run returns, and this may reach the derived context at once |
| `Removal.Remover.GetCluster` | internal/zarf/remove.go:96-106 | A connection is tried only until the first success, whose client is cached |
| `Removal.Remover.DeployedPackages` | internal/zarf/remove.go:111-135 | The deployed keys, asked of the cluster only until the first success |
| `Removal.Remover.RemovePackage` | internal/zarf/remove.go:227-276 | The first of the checks that fails decides the outcome of one removal; once the cluster has answered, whether the pair of metadata name and namespace is deployed decides |
| `Removal.Remover.RemovePackages` | internal/zarf/remove.go:186-218 | The results report, in reverse level order, a prefix of the packages, cut exactly at the first outcome that is neither success nor not-deployed; each is skipped exactly when its pair of metadata name and namespace is not deployed; the cluster is asked at most once |
| `Removal.KeysTellApart` | internal/zarf/remove.go:77-84 | Keys of metadata names without a slash are equal exactly when both name and namespace are |
| `Removal.SlashesAreAmbiguous` | internal/zarf/remove.go:82-84 | Names without a slash are exactly those whose keys no other package has: a name with a slash shares each key with its part before the slash |
| `Removal.OutcomeByIdentity` | internal/zarf/remove.go:254-275 | A package is skipped exactly when its metadata name is not deployed in its own namespace, whatever is deployed elsewhere, and removed only when it is |
| `Removal.ReverseOrderAt` | internal/zarf/remove.go:188-190 | Where the loop over levels backwards meets each package |
| `Removal.HigherLevelsFirst` | internal/zarf/remove.go:186-218 | Everything on a higher level is handled before |
| `Removal.DependentsRemovedFirst` | internal/zarf/remove.go:186-218 | Under a removal-safe selection every transitive dependent is handled before the package it depends on |
| `LocalOrder.Sorter.Visit` | internal/bundle/expressions.go:266-311 | One call of the three-colour search keeps the order duplicate-free with dependencies first, and answers a failure with a closed walk taken from the stack or an undefined reference |
| `LocalOrder.TopoSortLocals` | internal/bundle/expressions.go:260-319 | Sorting succeeds if and only if nothing reachable from the source order is undefined or on a cycle; the order then lists exactly what is reachable, each once, dependencies earlier; a cycle error is a closed walk of dependency edges |
| `Expressions.LocalDependencies` | internal/bundle/expressions.go:220-257 | The names an expression references directly, each once, in order of first use, a bare `local` not included |
| `Expressions.EvalAgrees` | internal/bundle/expressions.go:384-410 | The value of an expression depends on the locals it mentions and on nothing else of the scope |
| `LocalEvaluation.EvaluationSolves` | internal/bundle/expressions.go:379-412 | Evaluating one local after the other gives every local that references others by name the value of its own expression in the scope of all locals; when all do, the values solve the definitions as equations |
| `LocalEvaluation.ValueInOwnScope` | internal/bundle/expressions.go:384-412 | Every local, also one that uses `local` as a whole, has the value of its expression in the final values of the locals evaluated before it |
| `LocalEvaluation.SolutionUnique` | internal/bundle/expressions.go:379-412 | The recursive local equations have at most one solution |
| `LocalEvaluation.LaterLocalsIrrelevant` | internal/bundle/expressions.go:388-410 | Later additions never change the value of an earlier expression that names what it references |
| `LocalEvaluation.FailureMeansUnsolvable` | internal/bundle/expressions.go:404-407 | When an evaluation step fails, the equations have no solution |
| `LocalEvaluation.OrderIrrelevant` | internal/bundle/expressions.go:342-377 | When all references are by name, neither success nor the values depend on the order in which the locals are evaluated |
| `LocalEvaluation.OrderIrrelevantAmong` | internal/bundle/expressions.go:342-377 | Whatever other locals do, the values of locals that reference only each other, by name, do not depend on the order |
| `LocalEvaluation.OrderShowsInBareLocals` | internal/bundle/expressions.go:384-412 | Another evaluation order gives the same values if and only if each local that uses `local` as a whole, evaluated on its own in the values of those before it, has its value |
| `LocalEvaluation.OrderIrrelevantExactly` | internal/bundle/expressions.go:384-412 | Orders that put the same locals before each local using `local` as a whole give the same values; when locals name what they reference or are the object of all locals, only those do |
| `WrittenOrder.ComparableOrderIrrelevant` | internal/bundle/expressions.go:325-413 | Two files that define the same locals succeed alike, with the same values, when every other local is a transitive dependency or dependent of each local that uses `local` as a whole |
| `WrittenOrder.WrittenOrderIrrelevantExactly` | internal/bundle/expressions.go:325-413 | When locals name what they reference or are the object of all locals, the values of an extractable file do not depend on how its locals are written if and only if every other local is a transitive dependency or dependent of each of the latter |
| `WrittenOrder.BareLocalShowsWrittenOrder` | internal/bundle/expressions.go:389-392 | Two files with the same two locals, one a bare `local`, written in the two orders: the bare local holds nothing in one and the other local in the other |
| `BundleSource.CollectLocals` | internal/bundle/expressions.go:337-377 | The blocks are accepted exactly when they hold attributes only and no name twice; expressions, positions, references and source order are recorded for each |
| `BundleSource.BlockOrderMeaning` | internal/bundle/expressions.go:342-358 | The locals of a locals block are processed by ascending position, then name; other blocks are passed over |
| `Occurrences.LocalAttributesMeaning` | internal/bundle/expressions.go:325-377 | The locals are exactly the attributes directly inside the top-level locals blocks |
| `Occurrences.DependencyNamesMeaning` | internal/bundle/expressions.go:220-257 | The dependencies of a local are the names n for which local.n stands somewhere in its expression, and references are by name only when a bare local stands nowhere in it |
| `BundleSource.EvaluateLocals` | internal/bundle/expressions.go:384-412 | The incremental loop gives the values of the sorted evaluation, fails exactly where it fails, and keeps under each position the scope in which that local was evaluated |
| `BundleSource.ExtractLocals` | internal/bundle/expressions.go:325-413 | Extraction succeeds exactly when the locals are well formed, can be ordered and evaluate in that order, with bare locals and without; it gives their values and, under every position, the scope of that local |
| `BundleSource.ExtractsSolution` | internal/bundle/expressions.go:325-413 | When all references are by name, extraction succeeds exactly when the definitions have a solution as equations, and gives it |
| `TextEdits.DescendingReversed` | internal/bundle/expressions.go:171-171 | Sorting the replacements by descending start is the reverse of sorting them by ascending start |
| `TextEdits.Splice` | internal/bundle/expressions.go:171-179 | Splicing disjoint ranges from the highest start to the lowest equals one simultaneous substitution |
| `TextEdits.UntouchedText` | internal/bundle/expressions.go:171-179 | Any text outside the ranges is unchanged at its shifted position |
| `TextEdits.ReplacedText` | internal/bundle/expressions.go:171-179 | Every replaced range reads as its replacement at its shifted position |
| `Materialization.FileCallContainingExpressions` | internal/bundle/expressions.go:185-200 | The expressions that call file(), at any block depth, each with its multiplicity |
| `Materialization.CollectedExactly` | internal/bundle/expressions.go:185-217 | Collected are exactly the attributes, at any block depth, in whose expression some node is a call of file |
| `Occurrences.ContainsFileMeaning` | internal/bundle/expressions.go:203-217 | The test for a file() call answers yes exactly when a call of file stands at some position of the expression tree |
| `Occurrences.AllAttributesMeaning` | internal/bundle/expressions.go:185-200 | The traversal visits exactly the attributes of the body and of the blocks nested in it at any depth |
| `Materialization.MaterializeFileCallExpressions` | internal/bundle/expressions.go:144-180 | The result is the source with the values of all collected expressions put in at once, or the first evaluation error |
| `Materialization.MaterializeBundleFileCalls` | internal/bundle/expressions.go:126-141 | Materialization succeeds exactly when the locals extract and every file() expression has a value in its own scope, and then substitutes those values, each evaluated in the context extracted for it |
| `Materialization.CollectionOrderIrrelevant` | internal/bundle/expressions.go:185-200 | Attributes and blocks may be visited in any order: that decides neither success nor the substituted text |
| `MaterializedText.MaterializedExpression` | internal/bundle/expressions.go:143-180 | In the result every expression with a call of file at some position reads as its rendered value, and every expression without one as before |
| `MaterializedText.FileCallReadsContents` | internal/bundle/expressions.go:47-83 | A call of file reads as the contents of the file for the bundle's own architecture when its path is built from sys.arch, and of the file that a local names when its path is that local |
| `MaterializedText.MaterializedElsewhere` | internal/bundle/expressions.go:143-180 | Every stretch of text that meets no file() expression is unchanged |
| `MaterializedText.TextMatchesStructure` | internal/bundle/expressions.go:143-180 | The ranges of the rewritten structure are nonempty, inside the result and disjoint, and each holds the new text of its expression |
| `MaterializedText.MaterializingTwice` | internal/bundle/expressions.go:126-180 | Any second materialization of a materialized file leaves its text as it is |
| `MaterializedMeaning.MaterializingAgain` | internal/bundle/expressions.go:126-180 | A materialized file materializes again, with any files and to the same text, if and only if its locals have values without files; where bare locals keep their scopes they have |
| `MaterializedLocals.LiteralsKeepValues` | internal/bundle/expressions.go:384-412 | With literals for the locals that call file(), evaluation without files gives the old values if and only if each remaining local that uses `local` as a whole has its value among the locals that the new order puts before it |
| `MaterializedMeaning.LocalsAfter` | internal/bundle/expressions.go:126-141 | The locals of the materialized file are the old ones with literals for those that called file(), well formed, in the order that their remaining references give |
| `MaterializedMeaning.MaterializationPreservesMeaning` | internal/bundle/bundle.go:148-190 | The result is well formed and calls file() nowhere; it has the same locals and the same value or error for every expression if and only if each local without file() that uses `local` as a whole has its value among the locals before it once references of file() locals are dropped |
| `MaterializedMeaning.NamedLocalsKeepScopes` | internal/bundle/bundle.go:148-190 | The scopes of bare locals are kept when every local that does not call file() references others by name |
| `MaterializedMeaning.IndependentFilesKeepScopes` | internal/bundle/bundle.go:148-190 | The scopes of bare locals are kept, with the whole order, when no local that calls file() references a local by name |
| `MaterializedMeaning.ComparableLocalsKeepScopes` | internal/bundle/expressions.go:342-392 | The scopes of bare locals are kept when, by the references of locals without file(), every other local is a transitive dependency or dependent of each of them |
| `MaterializedMeaning.ScopesDecideMeaning` | internal/bundle/bundle.go:148-190 | Dropping the references of file() locals and leaving the same locals before every other local that uses `local` as a whole is enough for the meaning to be kept; when these are the object of all locals it is also necessary |
| `ChangedMeaning.FileReferenceHeldTheOrder` | internal/bundle/expressions.go:342-392 | A reference inside a file() local can be all that orders another local before a bare one; an expression that reads it through the bare local then fails in the materialized file |
| `Prefetch.HandleInv` | pkg/legacy/bundle/tarball_prefetch.go:102-161 | Every archive entry keeps the invariant: captured bytes are those of the archive, every metadata layer of a parsed manifest is captured or needed, and nothing unwanted is |
| `Prefetch.PassKeeps` | pkg/legacy/bundle/tarball_prefetch.go:163-174 | A pass fails only when direct lookups would, and captures whatever was needed at its start and still comes by |
| `Prefetch.LaterPassShrinks` | pkg/legacy/bundle/tarball_prefetch.go:175-182 | Once every manifest is captured a further pass only shrinks `needed` |
| `Prefetch.TwoPassesSuffice` | pkg/legacy/bundle/tarball_prefetch.go:172-185 | With distinct manifest digests, after at most two passes either some manifest is in no entry, or what is still needed is in no entry |
| `Prefetch.Prefetcher.Handler` | pkg/legacy/bundle/tarball_prefetch.go:102-161 | The handler closure updates `needed`, `captured` and `parsedManifests` as the step function that the lemmas are about |
| `Prefetch.PrefetchIsLookup` | pkg/legacy/bundle/tarball_prefetch.go:61-243 | With distinct manifest digests, whatever the archive order, prefetch succeeds if and only if direct lookups of every manifest and metadata digest do, with exactly the bytes they give |
| `Prefetch.DirectoryFile` | pkg/legacy/bundle/tarball_prefetch.go:202-227 | Where a title occurs once in a manifest, the file is the blob of that layer |
| `PrefetchedFiles.PrefetchSucceeds` | pkg/legacy/bundle/tarball_prefetch.go:104-172 | With distinct digests prefetch succeeds exactly when the archive holds, small enough, each manifest and every blob it titles zarf.yaml, either signature or checksums, zarf.yaml being among them, and package names differ |
| `PrefetchedFiles.PrefetchedFile` | pkg/legacy/bundle/tarball_prefetch.go:191-226 | A written package directory holds no file but the four, each one that the manifest names, with the bytes of the last layer of that title |
| `PrefetchedFiles.ErrorExplained` | pkg/legacy/bundle/tarball_prefetch.go:120-240 | Each error names its cause: an entry too large or unreadable as a manifest, blobs not found, a package without manifest or zarf.yaml, or a name used twice |
| `SharedDigests.OneWholePass` | pkg/legacy/bundle/tarball_prefetch.go:157-185 | With a manifest digest shared by two packages the count guards never fire: prefetch is one pass over the whole archive, which fails exactly on an unacceptable wanted entry, and captures exactly the blobs that stand behind a manifest naming them |
| `SharedDigests.SharedDigestOutcome` | pkg/legacy/bundle/tarball_prefetch.go:61-243 | With a shared digest prefetch succeeds if and only if wanted entries are acceptable and lookups among those blobs find every package, and gives what these lookups give |
| `SharedDigests.SharedDigestIsLookup` | pkg/legacy/bundle/tarball_prefetch.go:61-243 | With a shared digest, where direct lookups succeed, prefetch agrees with them if every metadata blob is a manifest or stands behind one that names it, and only then when manifests use each title once |
| `SharedDigests.SharedDigestLosesMetadata` | pkg/legacy/bundle/tarball_prefetch.go:157-185 | A signature in front of the manifest that two packages share is lost silently, although lookups find it |
| `SharedDigests.PrefetchOutcome` | pkg/legacy/bundle/tarball_prefetch.go:61-243 | For every consistent archive, with distinct digests or shared ones: when prefetch succeeds, and that it then gives what lookups give where it looks |
| `Prefetch.PrefetchPackageMetadata` | pkg/legacy/bundle/tarball_prefetch.go:61-243 | The two passes, the missing-blob guard and the resolution give the outcome that these lemmas are about |
| `Prefetch.OnePassWithinPrefix` | pkg/legacy/bundle/tarball_prefetch.go:157-159 | When a prefix holds every manifest before its metadata, one pass finishes and reads nothing behind the prefix |
| `ArchiveOrder.CreatePriorityNames` | pkg/legacy/bundler/localbundle.go:101-147 | One manifest followed by its titled blobs for every package whose fetch appended exactly one layer, behind the bundle's own files and before its signature |
| `ArchiveOrder.HintedPackage` | pkg/legacy/bundler/localbundle.go:126-145 | A package is hinted exactly when fetching it appended one layer: that manifest, then exactly the blobs of its four metadata titles |
| `ArchiveOrder.PriorityRanks` | pkg/legacy/bundler/localbundle.go:316-319 | The rank of a name is the place of its last occurrence |
| `ArchiveOrder.LayoutAndIndexFirst` | pkg/legacy/bundler/localbundle.go:186-197 | In a created bundle the layout file and the index come first, and no other ranked name is anything but a blob |
| `ArchiveOrder.RanksUnique` | pkg/legacy/bundler/localbundle.go:316-319 | The priority list determines the ranks |
| `ArchiveOrder.ComparatorIsTotalOrder` | pkg/legacy/bundler/localbundle.go:320-332 | The comparator is a strict total order on files of different names |
| `ArchiveOrder.WriteTarball` | pkg/legacy/bundler/localbundle.go:287-343 | The archive holds exactly the given files, in the order of the comparator |
| `ArchiveOrder.ManifestRanksFirst` | pkg/legacy/bundler/localbundle.go:129-147 | A manifest hinted for one package only, that is no metadata and not the signature, outranks every metadata blob of its package, also one that other packages list again later |
| `ArchiveOrder.WrittenArchiveNeedsOnePass` | pkg/legacy/bundler/localbundle.go:186-198 | For an archive written with the priority list, prefetch finishes in its first pass without reading past the listed files |
| `ContentGraph.Store.FindReachable` | internal/oci/store.go:184-216 | The worklist loop terminates with the outcome of the search that the lemmas are about |
| `ContentGraph.ReachableExactly` | internal/oci/store.go:184-216 | When occurrences of a digest lead to the same, the search succeeds if and only if everything reachable is readable and occurrences of a digest agree on its size, and then finds exactly the reachable digests |
| `ContentGraph.SearchOutcome` | internal/oci/store.go:184-216 | On any graph, a failing search has met something unsound, and a successful one has expanded every digest it found under one reachable, readable descriptor whose successors are found too |
| `ContentGraph.FoundExactly` | internal/oci/store.go:184-216 | On any graph a successful search finds reachable digests only, and all of them if and only if no occurrence of a found digest leads outside of what was found |
| `ContentGraph.MediaTypesGiveSuccessors` | internal/oci/store.go:184-216 | Occurrences of a digest lead to the same when they agree on media type and size, or all have leaf types |
| `ContentGraph.ReachableIsLeast` | internal/oci/store.go:184-216 | The result is the least set with the roots' digests that is closed under successors |
| `ContentGraph.DigestReuseHidesSuccessors` | internal/oci/store.go:195-198 | A digest first met under a leaf media type is never expanded as an index, so its successors can be missed |
| `ContentGraph.Store.VerifyGraph` | internal/oci/store.go:166-169 | An error means an unsound graph, success that the search expanded all it found; when occurrences of a digest lead to the same, success is exactly soundness of everything reachable, leaves included |
| `ContentGraph.Store.PruneUnreferencedBlobs` | internal/oci/store.go:124-159 | On success exactly the old blobs among the reachable digests are left; on an error nothing is deleted |
| `ContentGraph.ReachabilityKept` | internal/oci/store.go:124-159 | Pruning changes nothing about what is reachable |
| `ContentGraph.PruningKeepsSoundness` | internal/oci/store.go:124-169 | A graph is as sound after pruning as before, leaves included |
| `ContentGraph.PruningIdempotent` | internal/oci/store.go:124-169 | Pruning twice is pruning once, and a graph verifies after pruning if and only if it did before |
| `Registry.Repository.PushReferenceBytes` | internal/oci/content.go:112-127 | One write where push and tag are one request, otherwise content then tag; a failure never moves the tag |
| `RootIndex.ExistingRootEntries` | internal/oci/root_index.go:50-77 | The entries at the tag that the push keeps: bundle entries of other named architectures, none when the tag is absent or holds another artifact |
| `RootIndex.MergeRootIndex` | internal/oci/root_index.go:23-48 | The new root holds exactly the kept entries and the child, sorted by architecture, whatever the sort does with equal keys |
| `RootIndex.ResolveBundleChild` | internal/oci/bundle_index.go:46-92 | The search loop answers as the reader function: the tagged bundle itself, the first entry of the architecture, or the error with the architectures available |
| `RootIndex.MergeUpdates` | internal/oci/root_index.go:23-48 | A push updates the map from architecture to child at the child's architecture and nowhere else |
| `RootIndex.MergedEntries` | internal/oci/root_index.go:45-77 | Whatever was at the tag, the merged root lists image indexes of artifact type Bundle with a named architecture only, ascending: the child once, and another entry exactly when it was listed, is of that kind and has another architecture, as often as before |
| `RootIndex.RootIsPublished` | internal/oci/root_index.go:23-77 | The published root is an untyped index with the child and exactly those entries of the old root; nothing is carried over from an artifact that was no root |
| `RootIndex.RepresentationUnique` | internal/oci/root_index.go:28-31 | The sorted entries are determined by the map they stand for |
| `RootIndex.RootIsLatest` | internal/oci/root_index.go:19-48 | Over any sequence of successful pushes to a fresh tag the root is strictly sorted, with one entry per pushed architecture: the child pushed last for it |
| `RootIndex.PushOrderIrrelevant` | internal/oci/root_index.go:19-48 | Two push sequences with the same last child for each architecture leave the same root |
| `RootIndex.PushesCommute` | internal/oci/root_index.go:19-48 | Pushes of different architectures commute |
| `RootIndex.RepushChangesNothing` | internal/oci/transfer.go:92-92 | Pushing an identical child again leaves the root as it is |
| `RootIndex.PushExtendsHistory` | internal/oci/root_index.go:50-77 | A successful push over the root that earlier pushes left is one more push of the same history |
| `RootIndex.RootReadBack` | internal/oci/content.go:46-55 | A published root is readable for the next push if and only if it is no larger than the fetch limit |
| `RootIndex.HistoryOutgrowsLimit` | internal/oci/content.go:46-55 | More pushes of distinct architectures than the limit has bytes outgrow it under any encoding that grows with each entry: there is a first push after which the root is not read back, although every root before it is |
| `RootIndex.PushedChildResolves` | internal/oci/bundle_index.go:46-92 | Whatever was at the tag before, the child just pushed is what its architecture resolves to, if and only if root and child index are no larger than the fetch limit |
| `RootIndex.BundleIndexReadsAsItself` | internal/oci/bundle_index.go:64-66 | A bundle index stored at the reference itself is the answer for every architecture; otherwise the answer is an entry of the index |
| `RootIndex.RootReadsFirstEntry` | internal/oci/bundle_index.go:68-92 | In a root index the first bundle entry listed for the architecture decides: its content when it is stored as described and is a bundle index, an error otherwise |
| `RootIndex.TagReadsAsLatest` | internal/oci/bundle_index.go:46-92 | After any pushes each architecture resolves to its last pushed child, and any other to the error that lists exactly the pushed architectures |
| `RootIndex.PublishBundleRootIndex` | internal/oci/content.go:154-166 | On success the tag holds the merged root, with exactly the entries that RootIsPublished lists, and nothing else has changed; on an error the tag has not moved and the error has its cause |
| `Push.CopyGraph` | internal/oci/content.go:98-103 | However the concurrent copy is scheduled and wherever it stops, nothing is stored before its successors; it adds only nodes of the source graph, and without an error the root is there |
| `Push.WholeGraphThere` | internal/oci/content.go:98-103 | A stored root in closed content stands for its whole source graph, byte for byte |
| `Push.ConsistentShowsOnlyComplete` | internal/oci/transfer.go:64-116 | In consistent content every child that a tagged root names is complete |
| `Push.PublishBundleSignature` | internal/oci/signature.go:28-80 | Evidence is added once; the same again is accepted, different evidence is refused and nothing changes |
| `Push.RootWriteKeepsConsistent` | internal/oci/transfer.go:112-114 | The root may be written, tagged or not, once the child and all preserved entries are stored |
| `Push.PublishRoot` | internal/oci/transfer.go:112-114 | The root is published over complete entries, or the tag has not moved |
| `Push.TransferAndPublish` | internal/oci/transfer.go:97-115 | The writes in order: graph, evidence, root |
| `Push.PushBundleToRemote` | internal/oci/transfer.go:64-116 | Cut off after any write: content stays consistent and complete, the tag moves only at the end, a newly visible child already has its evidence; success publishes the merged root, and every error has its cause |
| `Push.PushReadsBack` | internal/oci/transfer.go:60-116 | A pushed bundle reads back byte for byte if and only if root and child index are no larger than the fetch limit |
| `VariableMerge.DeepCopyAny` | internal/bundle/configuration.go:337-348 | Copying panics exactly on a map[string]any that is not Variables, at any depth; otherwise the copy denotes the same value in maps and lists of its own, and shares values of any other type |
| `VariableMerge.DeepCopyVariables` | internal/bundle/configuration.go:306-315 | The same for maps, in any iteration order; nil stays nil |
| `VariableMerge.DeepCopySlice` | internal/bundle/configuration.go:318-327 | The same for lists; nil stays nil |
| `VariableMerge.DeepMerge` | internal/bundle/configuration.go:354-366 | In any iteration order merging panics exactly where values cannot be merged; otherwise the destination becomes the overlay of the two values, still in objects of its own, and the source is untouched |
| `VariableMerge.MergeVariables` | internal/bundle/configuration.go:293-303 | The result is nil exactly when both inputs are; otherwise, unless a panic is due, it is the overlay, in fresh maps and lists that share none with the inputs, which are unchanged |
| `VariableMerge.DenotesOneTree` | internal/bundle/configuration.go:289-293 | A heap value has one meaning, so the overlay is determined by the inputs |
| `VariableMerge.OwnedDenotes` | internal/bundle/configuration.go:289-293 | The result of one merge can be an input of the next |
| `VariableTrees.OverlayMeaning` | internal/bundle/configuration.go:289-293 | Path by path: a scalar or list is in the result if and only if the override has it there, or the base has it there and the override shadows nothing on the way |
| `VariableTrees.MergeableMeaning` | internal/bundle/configuration.go:329-366 | Merging panics if and only if the override holds a map of another type than Variables, or something to store at a path where the base holds nil Variables |
| `VariableTrees.PlainMerges` | internal/bundle/configuration.go:293-303 | Configurations whose maps are all non-nil Variables merge without a panic, to another such configuration |
| `VariableTrees.CoversMeaning` | internal/bundle/configuration.go:354-366 | The base adds nothing if and only if the override covers it key by key |
| `VariableTrees.OverlayTwice` | internal/bundle/configuration.go:293-366 | merge(d, merge(d, c)) = merge(d, c) |
| `VariableTrees.RegroupingMeaning` | internal/bundle/configuration.go:293-366 | Merging three configurations can be regrouped if and only if nothing but a map of the middle one stands between two maps of which the last does not cover the first |
| `VariableTrees.ScalarBetweenMaps` | internal/bundle/configuration.go:354-366 | A scalar between two maps does break associativity |
| `FeatureMode.String` | internal/mode/mode.go:45-56 | The features sorted by name, as one text determined by the set |
| `FeatureMode.PrintedForm` | internal/mode/mode.go:45-57 | The text is name=true and name=false for each feature once, by ascending name, with commas between |
| `FeatureMode.Parse` | internal/mode/mode.go:114-141 | The first malformed, unknown, invalid or duplicate pair is the error, otherwise the features are collected |
| `FeatureMode.CollectMeaning` | internal/mode/mode.go:119-139 | A list of pairs is accepted as a feature set if and only if the pairs are valid, their names distinct, and the set holds exactly their settings |
| `FeatureMode.PairMeaning` | internal/mode/mode.go:119-137 | A pair is accepted exactly when it is a known name alone or with =true, which switch it on, or with =false, which switches it off |
| `FeatureMode.PrintedParses` | internal/mode/mode.go:45-56 | Parsing the printed text of any nonempty set of known features gives it back |
| `FeatureMode.Resolve` | internal/mode/mode.go:60-112 | Defaults, environment and the one command line option are merged in that order, the first thing wrong is the error, and the arguments are the stripped ones with Zarf's features put back |
| `FeatureMode.StripBootstrapArgs` | internal/mode/mode.go:227-247 | The arguments without bootstrap options, untouched from the end of options on |
| `FeatureMode.BootstrapOptions` | internal/mode/mode.go:227-246 | Behind other arguments --features=v gives v and goes, --features takes and removes whatever follows it, and from -- on nothing is touched |
| `FeatureMode.ZarfCommandIndex` | internal/mode/mode.go:173-193 | The loop finds the position that `FeatureMode.ZarfIndexMeaning` characterises |
| `FeatureMode.NestedZarfCommandIndex` | internal/mode/mode.go:195-212 | The loop finds the position that `FeatureMode.NestedIndexMeaning` characterises |
| `FeatureMode.ZarfIndexMeaning` | internal/mode/mode.go:173-193 | A position is found if and only if every argument before it is a flag, the value of the flag before it, or the one `tools`, and it holds zarf, or z where `tools` did not come before |
| `FeatureMode.NestedIndexMeaning` | internal/mode/mode.go:195-212 | Behind `tools` a position is found if and only if only flags and their values lead up to it and it holds zarf |
| `FeatureMode.ValueFlagMeaning` | internal/mode/mode.go:214-221 | Exactly the seven root flags, with any number of dashes and no equals sign, take the next argument as their value |
| `FeatureMode.AddZarfFeatures` | internal/mode/mode.go:155-171 | Every feature but NextMode goes back as one option directly behind the zarf command |
| `FeatureMode.ZarfGetsOtherFeatures` | internal/mode/mode.go:155-171 | Behind a zarf command stands one --features= whose value reads as exactly the settings of the features other than NextMode; without such features or command nothing is added |
| `FeatureMode.CleanMeaning` | internal/mode/mode.go:227-247 | Stripping changes nothing if and only if only plain arguments stand before the end of options, and then no feature option is seen |
| `FeatureMode.StrippedTwice` | internal/mode/mode.go:227-247 | Stripping is idempotent |
| `FeatureMode.ResolvedArgsStrip` | internal/mode/mode.go:106-111 | After a successful resolution stripping the arguments gives what stripping the original gives, if and only if Zarf's features went back before the end of options |
| `FeatureMode.EndOfOptionsAsFlagValue` | internal/mode/mode.go:184-190 | A root flag can take `--` for its value; then resolving succeeds with arguments that do not strip back |
| `FeatureMode.ResolvedFeatures` | internal/mode/mode.go:60-112 | Resolved features are known, include NextMode, and decide the mode |
| `FeatureMode.OptionOverEnvironment` | internal/mode/mode.go:60-112 | Setting by setting the command line option decides over the environment and the environment over the default, which is NextMode off |
| `FeatureMode.ChildResolvesTheSame` | cmd/uds/main.go:33-40 | A child process with only the exported environment resolves to the same mode and features |
| `FeatureMode.ResolvingAgain` | internal/mode/mode.go:60-112 | Resolving the resolved arguments in the exported environment gives the same mode and features, and the same arguments if and only if Zarf's features went back before the end of options |

## Left out

- HCL, cty, YAML, JSON and Go template processing: expressions are an abstract syntax of literals, the named and the bare
  local reference, field access, file(), concatenation and conditionals; type unification of conditional branches and
  iterator scopes are not part of this model.
- The parser of bundle files: it is taken to give nonempty expression ranges that do not overlap. The structure of the
  rewritten text is given directly, not by parsing it again; `MaterializedText.TextMatchesStructure` ties it to the text.
- HCL traversals in the dependency graph and package records in the levels: both are reduced to package names.
- The order in which `Validate` joins its errors.
- The text of errors and logs, progress output, and the package counters of removals.
- What `DeployPackage`, package loading and Cosign verification do inside.
- Digest parsing, file names and disk writes of the prefetch: a title stands for its file. Errors of opening or reading
  an archive entry.
- Irregular files and malformed blob names met while pruning, and failing deletions.
- `Push.PublishBundleSignature`: publishing evidence is one write that never replaces; the delete and rollback path of
  replacing evidence, the signature's own manifest, and evidence that cannot be read are not part of this model.
- `Push.PushBundleToRemote`: claims nothing for concurrent pushers of one tag, which race between reading and writing the
  root. Content is taken to determine its successors, so content stored under two media types is not part of this model.
- `Push.CopyGraph`: the concurrent copy of the ORAS library is any order of writes in which successors come first; content
  found at the destination is trusted, hence the requirement that the destination starts consistent.
- Network errors of registry reads; writes fail by losing the connection.
- `VariableMerge.DeepCopyAny`: what stands in a value of another reference type, which the copy shares with its input, is
  not looked at.
- `Flatten`, which renders the top-level scalars as upper-cased text: number formatting is not part of this model.
- The rewriting of `uds zarf tools` arguments at process start, and Zarf's own parsing of the features put back.
- `reconfigure.go`, `extract.go`, output names, signature policies and struct converters: each decides or copies field by
  field, and no property modelled here rests on them.
