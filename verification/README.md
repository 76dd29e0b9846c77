# Verified models of the build tooling and two CLI controllers

This Dafny project models the parts of the repository where order, interleaving, recursion or
offset arithmetic decide the outcome, and proves what those parts promise. Check it with
`dafny verify dfyconfig.toml`.

| module | models |
|---|---|
| `GateGraph`, `GateScheduler` | validation of a gate aggregate and its bounded concurrent execution, as a transition system in which an adversary picks the next gate to settle |
| `TypeMeaning`, `TypePathLookup`, `KeyPaths` | what declared types have and lack, the three-valued walk of a schema key path through them, and key path texts |
| `TypeWalkEnding`, `TypeRanking`, `TypeWalkWitnesses` | when that walk ends, worlds on which it always does, and worlds that limit what can be promised |
| `TypeNameResolution`, `TypeNameTable` | the search for a declaration through imports and re-exports, and the table of names the walk reads |
| `PackageGraph` | the layered dependency order of workspace packages |
| `RegistryPublication`, `ShellQuoting` | resumable publication to a registry, and the command line it prints for copying |
| `ReferenceFaces` | the worklist that checks Host/Client isolation across project references |
| `ArtifactDigest`, `ClientEnvironment` | the byte framing under the client artifact digest, and the projection of the public build environment |
| `ProcessShutdown`, `PublintPool` | the shutdown controller and the worker pool, over every interleaving |
| `MarkdownProse`, `ReplacementSplice`, `PluginReconcile`, `PairedDerivatives` | text and list rewriting loops, each related to a declarative form |
| `Digraph`, `Sequences`, `Decimal`, `Numbers`, `Wrappers` | shared definitions and their lemmas |

## Reading the model

Objects whose methods change their fields are classes, loops are loops, and pure code is
functions. Every such method is tied to a specification function or relation, and the promises
of the source are proved about that specification. Where several things can happen next (a gate
settles, a worker resumes, an event arrives) the model leaves the choice open and the theorems
hold for every choice.

Some expectations a reader may have of the code do not hold for all inputs. Each comes with its
condition and a witness:

- The package order depends on the input order exactly when two packages of one layer tie in the
  comparison (`PackageGraph.SameForEveryOrderIff`, `PackageGraph.TiedNamesStayAsTheyCame`).
- The type walk reports a definitely missing key exactly when the unfolding enters no declaration
  twice with equally many steps to go; otherwise it answers unknown, because the visited set also
  stops calls that are no recursion (`TypePathLookup.MissingReportedIff`,
  `TypeWalkWitnesses.RepeatedBaseHidesMissing`). A key that is definitely there is found under the
  same condition, and possibly without it, since a branch that finds it can make up for one that
  was stopped.
- The type walk need not end when indexed access lengthens the path past the visited set
  (`TypeRanking.SelfIndexingDoesNotEnd`). Soundness needs no such condition. The walk ends whenever
  finitely many keys are reachable, and where no two different step lists of one length meet at a
  declaration only then (`TypeWalkEnding.EndsIffFinitelyManyKeys`). Without that proviso the order
  of the branches of a union decides, because the guard compares lengths and not steps
  (`TypeWalkWitnesses.BranchOrderDecides`), so no condition blind to that order is exact.
- The replacement loop, taken by itself on an arbitrary list of disjoint ranges, loses an insertion
  listed before a replacement that starts where it stands (`ReplacementSplice.FaithfulIffSafeTies`).
  The document rewriter collects destinations of non-empty paths, which hold text; for ranges that
  hold text no tie can arise and the splice is exact (`ReplacementSplice.TextIsSpliced`).

A skipped gate's reason names the needs that have failed or been skipped when it is skipped; a need
that is still pending then and is skipped later is not named (`GateScheduler.SkipNamesTheFailing`).

Stated assumptions: a gate's or a package's outcome is a function of the gate or package; promises
settle; registry commands are atomic and nobody else writes to the registry. Locale collation, and
the order in which the digest sorts paths, are parameters. A Dafny `char` stands for a string code
unit.

## Model

| member | source | states |
|---|---|---|
| `GateGraph.ValidateGateGraph` | docker/support/scripts/run-gates.ts:719-742 | accepts exactly the non-empty aggregates with unique ids, known predecessors and an acyclic union of `needs` and `after`; otherwise the error describes the first fault in the order the checks run |
| `GateGraph.CycleFinder.Visit` | docker/support/scripts/run-gates.ts:750-767 | the depth-first search ends on every graph; no answer leaves the path as it was and the visited gate complete, an answer is a cycle of dependency edges gone round once |
| `GateGraph.FindDependencyCycle` | docker/support/scripts/run-gates.ts:744-774 | returns nothing exactly on acyclic aggregates; a returned list is a real closed path of dependency edges whose first and last gates are equal and which names no other gate twice |
| `GateGraph.EdgesAreThePredecessors` | docker/support/scripts/run-gates.ts:754-762 | the edges searched are the `needs` and the `after` entries of the gates, both and no others |
| `GateGraph.PredecessorsAreListed` | docker/support/scripts/run-gates.ts:727-738 | known predecessors: every id in any gate's `needs` or `after` is the id of a gate in the list |
| `GateGraph.UnobstructedGate` | docker/support/scripts/run-gates.ts:744-774 | in a validated aggregate every non-empty set of gates has one that waits for none of the others, which is what keeps the scheduler moving |
| `GateScheduler.FindReady` | docker/support/scripts/run-gates.ts:801-801 | the gate found is the first in list order that is pending with all `needs` passed and all `after` settled; nothing is found only when no gate is like that |
| `GateScheduler.FindBlocked` | docker/support/scripts/run-gates.ts:810-812 | the gate found is the first in list order that is pending with a failed or skipped need; nothing is found only when there is none |
| `GateScheduler.ReadinessIsMonotone` | docker/support/scripts/run-gates.ts:846-853 | changing the state of a gate that has not settled never takes readiness away from another gate |
| `GateScheduler.StepKeepsInvariant` | docker/support/scripts/run-gates.ts:794-837 | every enabled event keeps at most `maxActive` gates running, every running gate with all `needs` passed and all `after` settled, and a result for exactly the settled gates |
| `GateScheduler.LawfulRunsAreSafe` | docker/support/scripts/run-gates.ts:794-837 | that invariant holds after every lawful run, and no run has more than two events a gate, so every run ends |
| `GateScheduler.RunsDoOnlyThis` | docker/support/scripts/run-gates.ts:794-837 | every event of every lawful run, told from the results so far: a gate starts while fewer than `maxActive` run, once its `needs` have passed and its `after` gates have results, and none before it in the list could; a gate is skipped only with nothing running and nothing able to start, being the first with a failed or skipped need |
| `GateScheduler.SkipNamesTheFailing` | docker/support/scripts/run-gates.ts:814-825 | the reason of a skipped gate names, in the order of its `needs`, exactly those that have failed or been skipped by then, and at least one |
| `GateScheduler.JoinNamesSeparates` | docker/support/scripts/run-gates.ts:822-822 | the names in that reason are separated by a comma and a blank |
| `GateScheduler.NeverStalls` | docker/support/scripts/run-gates.ts:809-813 | with nothing running and something pending in a validated aggregate, some gate is ready or some gate is blocked: the stall error cannot be raised |
| `GateScheduler.EveryIncompleteRunCanContinue` | docker/support/scripts/run-gates.ts:794-837 | from every state a lawful run reaches, some event is enabled until every gate has settled |
| `GateScheduler.ReadyGatesCommute` | docker/support/scripts/run-gates.ts:794-837 | running any ready gate first leads the sequential scheduler to the same results as its own choice |
| `GateScheduler.RunsFollowReference` | docker/support/scripts/run-gates.ts:784-844 | at every point of every run, what the sequential scheduler would still compute from the results so far is what it computes from the start |
| `GateScheduler.CompleteRunsMeetReference` | docker/support/scripts/run-gates.ts:784-844 | a complete run has one result for every gate and they are the sequential scheduler's |
| `GateScheduler.ScheduleIndependence` | docker/support/scripts/run-gates.ts:784-844 | two complete runs with any concurrency limits and any completion orders have equal results, error texts included |
| `GateScheduler.CompleteRunsAreCoherent` | docker/support/scripts/run-gates.ts:784-857 | in a complete run a gate is skipped with a reason exactly when one of its `needs` failed or was skipped, and has its executor outcome otherwise |
| `GateScheduler.DecidedStatusesAreUnique` | docker/support/scripts/run-gates.ts:846-857 | at most one status map satisfies that description |
| `GateScheduler.AfterEdgesOnlyDelay` | docker/support/scripts/run-gates.ts:846-849 | removing every `after` edge leaves all final statuses as they were |
| `GateScheduler.CollectResults` | docker/support/scripts/run-gates.ts:839-843 | one result per gate in list order, unless some gate has none |
| `GateScheduler.RunGates` | docker/support/scripts/run-gates.ts:784-844 | for every settling order: fails exactly on an invalid graph or limit, before any event; otherwise ends with a lawful complete run and the sequential results in list order; the stall and missing-result errors never occur |
| `TypeMeaning.MeaningIsOneRound` | docker/support/scripts/gen-config-catalog.ts:326-402 | what a type definitely has or lacks by the inductive definition is what one round of the walk says about the rest, for every kind of node and declaration |
| `TypeMeaning.MeaningIsMonotone` | docker/support/scripts/gen-config-catalog.ts:317-403 | what a derivation settles stays settled at every greater depth, for both definite answers |
| `TypeMeaning.VerdictsExclude` | docker/support/scripts/gen-config-catalog.ts:317-403 | no type both has and lacks the same path, whatever the derivations |
| `TypeMeaning.DirectMemberIsTheFirst` | docker/support/scripts/gen-config-catalog.ts:335-343 | the member looked at is the first property signature of the name; there is none exactly when no property signature has the name, whatever else stands among the members |
| `TypeMeaning.DeclaredIsHad` | docker/support/scripts/gen-config-catalog.ts:335-361 | a property declared anywhere among the members of an interface is definitely had; without bases, a name no property signature has is definitely missing |
| `TypeMeaning.InheritedIsHad` | docker/support/scripts/gen-config-catalog.ts:348-358 | what a named base has, an interface with no property of its own of that name has; with that base alone, what it lacks is lacked |
| `TypeMeaning.WrappersMeanTheirArgument` | docker/support/scripts/gen-config-catalog.ts:307-397 | `Partial`, `Required`, `Readonly` and `NonNullable` have what their argument has, `Array` and `ReadonlyArray` what an array of it has |
| `TypeMeaning.OtherNamesMeanTheirDeclaration` | docker/support/scripts/gen-config-catalog.ts:399-402 | any other reference has and lacks what the declaration it resolves to has and lacks |
| `TypePathLookup.AnswersAreSound` | docker/support/scripts/gen-config-catalog.ts:317-403 | on every world and from every visited set, found implies that the type has the path and missing that it lacks it, wherever the walk gives an answer |
| `TypePathLookup.UncutAnswersAreComplete` | docker/support/scripts/gen-config-catalog.ts:317-403 | unless the visited set stopped some call, whatever is definitely had or lacked is answered so |
| `TypePathLookup.CutIffEntersTwice` | docker/support/scripts/gen-config-catalog.ts:322-326 | the visited set stops a call if and only if the unfolding of the call, without any visited set, enters some declaration twice with equally many steps to go |
| `TypePathLookup.LackedVerdict` | docker/support/scripts/gen-config-catalog.ts:317-403 | from every visited set, a path that is definitely lacked is answered missing, or unknown if the visited set stopped some call, and never found |
| `TypePathLookup.MissingReportedIff` | docker/support/scripts/gen-config-catalog.ts:317-403 | a definitely missing path is answered missing if and only if the unfolding enters no declaration twice with equally many steps to go |
| `TypePathLookup.MoreDepth` | docker/support/scripts/gen-config-catalog.ts:317-403 | once the walk answers at a recursion depth it gives the same answer at every greater one |
| `TypePathLookup.Walk.IntoMembers` | docker/support/scripts/gen-config-catalog.ts:335-343 | the first property signature of the name decides, wherever it stands among the members, with the verdict and visited set of its type; none means that no property signature has the name |
| `TypePathLookup.Walk.LookupType` | docker/support/scripts/gen-config-catalog.ts:317-403 | asks only that the walk of this call ends, and leaves its verdict and its visited set, branch by branch as the source |
| `TypePathLookup.Walk.LookupDecl` | docker/support/scripts/gen-config-catalog.ts:318-361 | the same for interfaces (direct members before bases), aliases and enums, guarded by the visited set |
| `TypePathLookup.Walk.LookupHeritage` | docker/support/scripts/gen-config-catalog.ts:348-358 | one verdict a base, in order, each base visited with the set the one before left; a base out of reach gives unknown |
| `TypeWalkEnding.BoundedCallsEnd` | docker/support/scripts/gen-config-catalog.ts:317-403 | from every visited set, the walk ends when the chains of calls that enter no declaration twice with equally many steps stay bounded |
| `TypeWalkEnding.FinitelyManyKeysEnd` | docker/support/scripts/gen-config-catalog.ts:317-403 | in particular when only finitely many (declaration, remaining steps) keys are reachable |
| `TypeWalkEnding.EndsIffFinitelyManyKeys` | docker/support/scripts/gen-config-catalog.ts:317-403 | where no two different step lists of one length meet at a declaration, the walk ends if and only if finitely many keys are reachable |
| `TypeWalkWitnesses.BranchOrderDecides` | docker/support/scripts/gen-config-catalog.ts:322-326 | where they do meet, two unions of the same branches: infinitely many keys are reachable in both, and the walk ends in one order and not in the other |
| `TypeWalkWitnesses.RepeatedBaseHidesMissing` | docker/support/scripts/gen-config-catalog.ts:322-359 | an interface that names an empty base twice: the key is definitely missing, the base is entered twice, and the answer is unknown |
| `TypeRanking.RankedWalksEnd` | docker/support/scripts/gen-config-catalog.ts:317-403 | every walk ends on a world with a ranking in which steps consumed earn credit and string indices cost it |
| `TypeRanking.UnindexedWalksEnd` | docker/support/scripts/gen-config-catalog.ts:317-403 | every walk ends on a world without string-indexed access, however cyclic interfaces, aliases and heritage are |
| `TypeRanking.UnindexedCallsDoNotCollide` | docker/support/scripts/gen-config-catalog.ts:317-403 | on a world without string-indexed access no two different step lists of one length meet at a declaration, so the exact condition for ending applies to all of them |
| `TypeRanking.SelfIndexingDoesNotCollide` | docker/support/scripts/gen-config-catalog.ts:381-387 | nor do they at an alias for an index into itself, whose walk does not end: the exact condition has instances on both sides |
| `TypeRanking.ConsumingEnds` | docker/support/scripts/gen-config-catalog.ts:381-387 | an interface that indexes itself below two of its own properties: every walk ends |
| `TypeRanking.SelfIndexingNeverAnswers` | docker/support/scripts/gen-config-catalog.ts:381-387 | in every world, an alias for an index into itself is answered at no recursion depth |
| `TypeRanking.SelfIndexingDoesNotEnd` | docker/support/scripts/gen-config-catalog.ts:381-387 | so its walk does not end, and infinitely many keys are reachable from it |
| `KeyPaths.ParsePath` | docker/support/scripts/gen-config-catalog.ts:232-245 | the steps render back to the path text, with array hops only after members |
| `KeyPaths.RenderIsInjective` | docker/support/scripts/gen-config-catalog.ts:232-245 | a path text denotes one step list only, so parsing and rendering are inverse |
| `KeyPaths.ArrayElementsAreWrittenSo` | docker/support/scripts/gen-config-catalog.ts:232-245 | `agents[].id` denotes a member, an array hop and a member |
| `KeyPaths.LookupKeyPath` | docker/support/scripts/gen-config-catalog.ts:760-760 | wherever the walk ends: a path reported missing is lacked by some derivation and had by none, a path found the other way round; a definitely missing path is reported if and only if the unfolding enters no declaration twice with equally many steps, and a path definitely had is found then |
| `TypeNameResolution.ExportSearch.FindExportedTypeDecl` | docker/support/scripts/gen-config-catalog.ts:256-278 | ends on cyclic re-exports; a hit ends the first chain, in statement order, past the keys being searched; a miss leaves everything visited finished apart from those |
| `TypeNameResolution.SearchExports` | docker/support/scripts/gen-config-catalog.ts:256-278 | the outcome is the end of the first re-export chain, in statement order, that repeats no key: a declaration of the name or an unreadable file; none exactly when no chain ends in either, although visited keys are skipped |
| `TypeNameResolution.FirstChainsAgree` | docker/support/scripts/gen-config-catalog.ts:262-276 | there is only one such first chain, so the choice is determined by the program |
| `TypeNameResolution.FirstStopIsUnique` | docker/support/scripts/gen-config-catalog.ts:256-278 | there is at most one place where that first chain ends |
| `TypeNameResolution.OutcomeIsUnique` | docker/support/scripts/gen-config-catalog.ts:256-278 | so the program determines the outcome, the file an error names included |
| `TypeNameResolution.StatementsForward` | docker/support/scripts/gen-config-catalog.ts:262-276 | where a statement sends an exported name: the first element of that name sends it to the target file under its `propertyName`, or under the same name without one; a list without it, and any other statement, sends it nowhere; `export *` sends it on unchanged |
| `TypeNameResolution.RenamedExportIsFound` | docker/support/scripts/gen-config-catalog.ts:262-276 | behind a renaming re-export, with only statements before it that do not mention the name, the search finds the declaration of the original name in the target file and nothing else |
| `TypeNameResolution.DeclForTypeName` | docker/support/scripts/gen-config-catalog.ts:283-304 | a local declaration, else the first export of what the import names; unknown exactly when nothing within reach declares the name |
| `TypeNameTable.MeaningIsUnique` | docker/support/scripts/gen-config-catalog.ts:283-304 | a name in a file means at most one declaration |
| `TypeNameTable.WalkReadsTheMeaning` | docker/support/scripts/gen-config-catalog.ts:355-356 | on a world whose table is filled by what names mean, the walk reads for every name the place of the declaration it means, or nothing when it means none |
| `TypeNameTable.ResolveInWorld` | docker/support/scripts/gen-config-catalog.ts:399-400 | wherever no unreadable file is met, the walk sees what the search through imports and re-exports returns |
| `PackageGraph.ComparePackagesIsConsistent` | docker/support/scripts/package-graph.ts:77-83 | the comparison is a consistent order whenever the collation is, and ties only packages whose short names tie |
| `PackageGraph.GroupsDecideFirst` | docker/support/scripts/package-graph.ts:77-83 | a package of an earlier listed group compares below one of a later listed group, and of any listed group below one of an unlisted group; between unlisted groups the collation of the groups decides, and within a group that of the short names |
| `PackageGraph.GroupsStandInOrder` | docker/support/scripts/package-graph.ts:59-83 | of two packages in one layer, the one of the earlier group stands earlier in the result |
| `PackageGraph.LowerLayersStandFirst` | docker/support/scripts/package-graph.ts:59-75 | a package of a lower layer stands before every package of a higher one |
| `PackageGraph.Entries` | docker/support/scripts/package-graph.ts:60-60 | the table of packages has each short name once |
| `PackageGraph.EntriesAreTheLast` | docker/support/scripts/package-graph.ts:60-60 | the package in the table is the last one given under its short name |
| `PackageGraph.EntriesStandAsFirstGiven` | docker/support/scripts/package-graph.ts:60-60 | the names stand in the table in the order in which each was first given |
| `PackageGraph.LayerIsLongestChain` | docker/support/scripts/package-graph.ts:63-73 | the layer of a package is the length of its longest dependency chain, and no chain from it leaves the packages |
| `PackageGraph.LayeredIsDependencyOrder` | docker/support/scripts/package-graph.ts:63-74 | a permutation in layers puts every dependency before its dependents |
| `PackageGraph.StuckMeansNoOrder` | docker/support/scripts/package-graph.ts:67-67 | when nothing is ready among the remaining packages, no dependency order exists at all |
| `PackageGraph.EmitLayer` | docker/support/scripts/package-graph.ts:68-72 | emitting a layer moves exactly its packages from the remaining ones to the output |
| `PackageGraph.TopoSort` | docker/support/scripts/package-graph.ts:59-75 | succeeds exactly when a dependency order exists; the result is a permutation in dependency order, and it is the packages sorted stably by layer and comparison; a failure names, in table order, exactly the packages with unbounded dependency chains |
| `PackageGraph.LayeredIsResult` | docker/support/scripts/package-graph.ts:63-74 | round by round, layered and with tied packages left as they came, is the same as one stable sort by longest chain and comparison |
| `PackageGraph.OrderableIff` | docker/support/scripts/package-graph.ts:59-75 | an order exists exactly when there is neither a cycle nor a dependency outside the packages |
| `PackageGraph.OrderableIffAllLayered` | docker/support/scripts/package-graph.ts:59-75 | an order exists exactly when every package has a layer |
| `PackageGraph.OrderIsCanonical` | docker/support/scripts/package-graph.ts:59-83 | the result does not depend on the input order when the collation tells the names apart |
| `PackageGraph.SameForEveryOrderIff` | docker/support/scripts/package-graph.ts:59-83 | the code returns the same list for all input orders of orderable packages if and only if no two packages of one layer tie |
| `PackageGraph.TiesKeepInputOrder` | docker/support/scripts/package-graph.ts:64-66 | two tied packages stand in the result as they stand in the input |
| `PackageGraph.TieMeansSameLayer` | docker/support/scripts/package-graph.ts:77-83 | two packages tie exactly when they share a layer and neither compares greater |
| `PackageGraph.TiedNamesStayAsTheyCame` | docker/support/scripts/package-graph.ts:77-83 | two packages whose names the collation ties: the code returns each input order unchanged |
| `RegistryPublication.DueCommandKeepsTarget` | docker/support/scripts/publish-npm-baseline.ts:630-652 | a command the manifest still needs moves the registry without moving the registry aimed at |
| `RegistryPublication.DueCommandIsSafe` | docker/support/scripts/publish-npm-baseline.ts:630-652 | such a command never changes an existing integrity and keeps the registry well-formed and publishable |
| `RegistryPublication.DueRunsKeepTarget` | docker/support/scripts/publish-npm-baseline.ts:630-652 | the same for every run of such commands, stopped anywhere |
| `RegistryPublication.SettledIsVerified` | docker/support/scripts/publish-npm-baseline.ts:656-694 | a publishable registry on which nothing is needed any more is one `verify` accepts |
| `RegistryPublication.VerifiedIsTarget` | docker/support/scripts/publish-npm-baseline.ts:656-694 | a verified registry is its own target: nothing was left out and nothing extra was done |
| `RegistryPublication.ResumedRunsReachTheSameRegistry` | docker/support/scripts/publish-npm-baseline.ts:625-654 | stopped after any commands and run again to the end, a publication reaches the registry of an uninterrupted one, and it is verified |
| `RegistryPublication.Publication.EnsureDistTag` | docker/support/scripts/publish-npm-baseline.ts:755-764 | issues at most one command, one the manifest still needs; success leaves the tag on the version, and it fails only when cut off or when the version does not exist |
| `RegistryPublication.Publication.EnsurePublished` | docker/support/scripts/publish-npm-baseline.ts:631-648 | at most one needed command, after which the version has the bytes of the manifest; it fails only when cut off or when the version exists with other bytes |
| `RegistryPublication.Publication.PublishPackage` | docker/support/scripts/publish-npm-baseline.ts:630-651 | one package: at most two needed commands, issued while every package before it is done, after which its integrity and tag are those of the manifest; it refuses a version with other bytes |
| `RegistryPublication.Publication.VerifyRemote` | docker/support/scripts/publish-npm-baseline.ts:662-684 | succeeds exactly when every listed package has its integrity and its tag; otherwise the error says what is wrong with the first package that has not |
| `RegistryPublication.Publication.VerifyReleaseEntryDistTag` | docker/support/scripts/publish-npm-baseline.ts:686-694 | succeeds exactly when `latest` of the entry package names the version |
| `RegistryPublication.Publication.Verify` | docker/support/scripts/publish-npm-baseline.ts:656-660 | changes nothing and accepts exactly the verified registries |
| `RegistryPublication.Publication.Publish` | docker/support/scripts/publish-npm-baseline.ts:625-654 | issues needed commands only, each after every package before the one it serves is completely done; success leaves the registry aimed at, verified; it fails only when cut off or when the registry was not publishable to begin with |
| `RegistryPublication.LatestMovesLast` | docker/support/scripts/publish-npm-baseline.ts:625-654 | published under another tag, with a first publication that leaves `latest` alone or an entry package already known, `latest` of the entry package moves only once every package is done |
| `ShellQuoting.CopyableCommandReadsBack` | docker/support/scripts/publish-npm-baseline.ts:994-1003 | for every command and argument list, splitting the printed line into words by sections 2.2.1 to 2.2.3 of the POSIX Shell Command Language gives back exactly the command and its arguments |
| `ShellQuoting.CopyableCommandsAreDistinct` | docker/support/scripts/publish-npm-baseline.ts:994-1003 | two different command lines are never printed alike |
| `ShellQuoting.HarmlessArgumentsPrintBare` | docker/support/scripts/publish-npm-baseline.ts:998-1003 | an argument prints as it is exactly when it is a non-empty run of ASCII letters, digits and the eight harmless signs; any other without a single quote is put in single quotes |
| `ShellQuoting.ReadEscaped` | docker/support/scripts/publish-npm-baseline.ts:1000-1002 | inside single quotes an escaped value reads back as itself, single quotes included |
| `ReferenceFaces.ProjectFaceIsFirstOnTheWay` | docker/support/scripts/project-reference-faces.ts:88-103 | the face found is the first one along the `extends` trail, and the cycle guard never hides one |
| `ReferenceFaces.ContainingRootIsInnermost` | docker/support/scripts/project-reference-faces.ts:116-121 | the split root found is the innermost one around the target, if there is any |
| `ReferenceFaces.FaultIffInconsistent` | docker/support/scripts/project-reference-faces.ts:40-57 | a reference is reported exactly when it enters a split project elsewhere than at the leaf of its config's own face |
| `ReferenceFaces.FileNamesDecide` | docker/support/scripts/project-reference-faces.ts:88-105 | along a way of existing configs by `extends` without an earlier face: ending in `tsconfig.host.json` or the root `tsconfig.base.json`, a reference into a split directory is face-consistent exactly when it names that directory's `tsconfig.host.json`; ending in `tsconfig.client.json` or the root `tsconfig.base.client.json`, its `tsconfig.client.json`; ending in neither, or going round, never |
| `ReferenceFaces.FileNamesReport` | docker/support/scripts/project-reference-faces.ts:39-59 | and what is reported otherwise: the config, the text of the reference, the innermost split directory and the leaf to use instead |
| `ReferenceFaces.CheckReferences` | docker/support/scripts/project-reference-faces.ts:40-59 | one config: exactly its faults in order, and exactly its fault-free targets are followed |
| `ReferenceFaces.CleanVisitIffClean` | docker/support/scripts/project-reference-faces.ts:35-60 | although bad edges are not followed, the configs visited are all clean if and only if the configs reachable along any edges are |
| `ReferenceFaces.ReachedIffOnAWay` | docker/support/scripts/project-reference-faces.ts:33-58 | what is checked is exactly what a way of references over existing configs reaches from the root `tsconfig.host.json` or `tsconfig.client.json` |
| `ReferenceFaces.Traverse` | docker/support/scripts/project-reference-faces.ts:30-60 | ends on cyclic graphs, handles each config reachable along good edges once and finds exactly their faults; none is found exactly when every edge reachable from the two aggregates is face-consistent |
| `ReferenceFaces.ReportForgetsOrder` | docker/support/scripts/project-reference-faces.ts:62-62 | the sorted report is the same whatever order the configs are handled in |
| `ReferenceFaces.TextOrderIs` | docker/support/scripts/project-reference-faces.ts:62-62 | in the report a text stands before its continuations, and else the smaller first differing code unit decides |
| `ReferenceFaces.RepoPathIsTheRest` | docker/support/scripts/project-reference-faces.ts:123-125 | a path under the root is shown by its components below the root, joined with slashes |
| `ReferenceFaces.RelativeGoesUpAndDown` | docker/support/scripts/project-reference-faces.ts:123-125 | and any other path by one step up for each component of the root after the common ones, then the components down |
| `ReferenceFaces.LabelsFollowFiles` | docker/support/scripts/project-reference-faces.ts:127-129 | the face a diagnostic names is the one of the leaf it asks for |
| `ReferenceFaces.CollectProjectReferenceFaceViolations` | docker/support/scripts/project-reference-faces.ts:30-63 | returns the sorted diagnostics of exactly the configs reachable along good edges, for every order of handling them; none exactly when every edge reachable from the two aggregates is face-consistent |
| `ArtifactDigest.PreimageDecodes` | docker/support/scripts/client-build-environment.ts:254-261 | the byte stream fed to the hash decodes to exactly the (path, content) pairs, in order |
| `ArtifactDigest.PreimagesAreDistinct` | docker/support/scripts/client-build-environment.ts:254-261 | distinct artifact lists never feed the hash the same bytes |
| `ArtifactDigest.OneFileIsFramed` | docker/support/scripts/client-build-environment.ts:254-261 | the path `a` with content `xyz` feeds the bytes of `1:a3:xyz` |
| `ArtifactDigest.FeedDigest` | docker/support/scripts/client-build-environment.ts:247-263 | fails exactly when there are no artifacts; otherwise feeds the preimage of the files in sorted path order, whatever order they were listed in |
| `ArtifactDigest.PreimageIffSameFiles` | docker/support/scripts/client-build-environment.ts:247-263 | two file trees feed the same bytes if and only if the same paths hold the same bytes |
| `ClientEnvironment.ClientBuildProcessEnvironment` | docker/support/scripts/client-build-environment.ts:132-142 | the child has exactly the selected values and every inherited variable that is neither public nor the selector |
| `ClientEnvironment.ChildNameByName` | docker/support/scripts/client-build-environment.ts:132-142 | name by name: public variables are the selected ones, the profile selector is gone, every other variable is exactly what the parent has |
| `ClientEnvironment.ProfilesAre` | docker/support/scripts/client-build-environment.ts:111-126 | only `official` is a profile, it needs the commit hash, and it gives exactly the commit hash, the profile name and the title |
| `ClientEnvironment.ResolutionSurvivesSpawning` | docker/support/scripts/client-build-environment.ts:111-142 | a build started in the child resolves the same environment the parent resolved |
| `ProcessShutdown.Controller.CallInterrupt` | apps/cli/src/process-shutdown.ts:69-75 | refines the table: the first call starts disposal, a later one forces the exit with its own code unless one was forced |
| `ProcessShutdown.Controller.OnTimer` | apps/cli/src/process-shutdown.ts:54-54 | an armed timer can only fire while no outcome is recorded, and forces the first call's code |
| `ProcessShutdown.Controller.OnDisposeResolves` | apps/cli/src/process-shutdown.ts:55-61 | refines the table: completion, or a forced exit when the first call was an interrupt, unless something was decided before |
| `ProcessShutdown.Controller.EventLoop` | apps/cli/src/process-shutdown.ts:28-76 | every interleaving drives the closure's flags and timer to the state the table predicts; once started, a timer that is not armed means an outcome is recorded |
| `ProcessShutdown.EveryInterleavingIsSound` | apps/cli/src/process-shutdown.ts:28-76 | after every interleaving the effects are one of seven shapes, so disposal, completion and forced exit happen at most once and completion never follows a forced exit |
| `ProcessShutdown.ObservableIffAllowed` | apps/cli/src/process-shutdown.ts:28-76 | those seven shapes, with the codes allowed in them, are exactly what can be observed |
| `ProcessShutdown.FirstCallStarts` | apps/cli/src/process-shutdown.ts:52-75 | the controller is started by the first call and keeps its code and its kind |
| `ProcessShutdown.DecidedIff` | apps/cli/src/process-shutdown.ts:28-76 | an outcome is recorded exactly when something other than a further shutdown call or the start of disposal has followed the first call |
| `ProcessShutdown.FirstOutcomeIs` | apps/cli/src/process-shutdown.ts:28-76 | the first outcome recorded is the one the first decisive event stands for: the first call's completion when disposal resolves after a shutdown, a forced exit with the first call's code when it resolves after an interrupt, rejects or times out, and with the escalating interrupt's code otherwise |
| `ProcessShutdown.CompletedIff` | apps/cli/src/process-shutdown.ts:55-60 | natural completion is recorded exactly when the first call was a shutdown and the first decisive event after it is that disposal resolved |
| `ProcessShutdown.RejectionForcesExit` | apps/cli/src/process-shutdown.ts:60-60 | a disposal that rejects before anything is decided adds a forced exit with the first call's code |
| `ProcessShutdown.ExitCodeIsAsked` | apps/cli/src/process-shutdown.ts:38-43 | a forced exit carries the first call's code or that of an escalating interrupt |
| `ProcessShutdown.OnlyInterruptsFollowCompletion` | apps/cli/src/process-shutdown.ts:38-50 | after completion nothing happens but one forced exit by an interrupt, with its code |
| `ProcessShutdown.TimerBoundsTheWait` | apps/cli/src/process-shutdown.ts:54-54 | while no outcome is recorded the timer can fire, and then forces the first call's code |
| `PublintPool.Pool.Resume` | docker/support/scripts/publint-all.ts:207-214 | a resumed worker stores the result of the index it claimed and claims the next one; no index changes owner and none is claimed twice |
| `PublintPool.Pool.InFlightBound` | docker/support/scripts/publint-all.ts:207-214 | never more indices in flight than `concurrency` |
| `PublintPool.Pool.Drain` | docker/support/scripts/publint-all.ts:207-214 | in whatever order workers are resumed, the pool ends and, with at least one worker, has a result for every package |
| `PublintPool.RunAll` | docker/support/scripts/publint-all.ts:204-222 | the results are those of linting the packages one by one, in order; a result is missing exactly when there is no worker and some package |
| `PublintPool.SettingIsAcceptedIff` | docker/support/scripts/publint-all.ts:62-75 | a setting is accepted exactly when it is the shortest decimal numeral of a positive safe integer, and then bounds the number of workers together with the packages |
| `PublintPool.WorkersAre` | docker/support/scripts/publint-all.ts:62-76 | no worker without packages; without a setting, or with an empty one, as many as can run at once but no more than packages; with a numeral that many, likewise limited |
| `PublintPool.LintPackages` | docker/support/scripts/publint-all.ts:236-240 | fails exactly on a refused setting; otherwise runs the workers chosen and returns every result in order; the missing-result error cannot occur |
| `MarkdownProse.LinesAreLocated` | docker/support/scripts/markdown.ts:218-233 | line i, column c is the source character at the running line offset plus c |
| `MarkdownProse.HtmlCommentRanges` | docker/support/scripts/markdown.ts:218-235 | every line with column ranges has exactly those the comments leave on it, in comment order |
| `MarkdownProse.EntryIffTouched` | docker/support/scripts/markdown.ts:222-231 | a line has ranges exactly when a comment covers one of its characters, or its line feed when it is empty |
| `MarkdownProse.ColumnsAgreeWithOffsets` | docker/support/scripts/markdown.ts:223-231 | a column is in a column range exactly when its offset is in a comment |
| `MarkdownProse.TrimIsEmptyIff` | docker/support/scripts/markdown.ts:247-247 | text survives trimming exactly when it has a character that is not blank |
| `MarkdownProse.BlanksAre` | docker/support/scripts/markdown.ts:247-247 | blank are exactly the white space and line terminator code points of ECMA-262, sections 12.2 and 12.3 |
| `MarkdownProse.HasRenderedTextOutsideComments` | docker/support/scripts/markdown.ts:238-248 | for ranges in any order, overlapping or nested: true exactly when there are none or a non-blank character lies outside all of them |
| `MarkdownProse.VisibleIffShows` | docker/support/scripts/markdown.ts:203-248 | a line shows a visible column exactly when the source shows a non-blank offset of that line outside every comment |
| `MarkdownProse.MarkdownProseLines` | docker/support/scripts/markdown.ts:255-271 | keeps, in order and verbatim, exactly the lines outside fences that no comment touches or that have a non-blank character outside every comment |
| `ReplacementSplice.ApplyReplacements` | docker/support/scripts/project-doc-site.ts:197-201 | the loop computes the back-to-front replacement of the sorted list |
| `ReplacementSplice.BackToFrontWeaves` | docker/support/scripts/project-doc-site.ts:197-201 | applied back to front, ranges that do not overlap give the left-to-right concatenation of gaps and values |
| `ReplacementSplice.NonEmptyRangesDoNotTie` | docker/support/scripts/project-doc-site.ts:165-187 | disjoint ranges that hold text, as the destinations of non-empty paths do, start at different places |
| `ReplacementSplice.TextIsSpliced` | docker/support/scripts/project-doc-site.ts:160-201 | for disjoint ranges that hold text, in any order, the result is the one simultaneous splice |
| `ReplacementSplice.TextOutsideIsKept` | docker/support/scripts/project-doc-site.ts:160-201 | every source character outside such ranges is in the result, moved by what the ranges before it added or removed |
| `ReplacementSplice.ValuesStandInPlace` | docker/support/scripts/project-doc-site.ts:160-201 | each value stands where its range began, moved by what the ranges before it added or removed |
| `ReplacementSplice.FaithfulIffSafeTies` | docker/support/scripts/project-doc-site.ts:197-201 | the loop on arbitrary lists: for disjoint ranges in any order, the code produces a simultaneous splice for all sources and values if and only if, of two ranges that start together, the later one replaces nothing |
| `ReplacementSplice.InsertionIsOverwritten` | docker/support/scripts/project-doc-site.ts:197-201 | the loop on an arbitrary list: an insertion listed before a replacement at the same place is lost |
| `ReplacementSplice.RewrittenIsTheSplice` | docker/support/scripts/project-doc-site.ts:197-201 | with distinct starts there is one simultaneous splice and it is the code's result, whatever the order of the replacements |
| `ReplacementSplice.RewrittenKeepsTheRest` | docker/support/scripts/project-doc-site.ts:197-201 | every source character outside the ranges is in the result, moved by what the ranges before it added or removed |
| `Sequences.StableSortIsUnique` | docker/support/scripts/package-graph.ts:64-66 | a sorted permutation of distinct elements that keeps the order of tied ones is what the stable sort returns |
| `Sequences.SortIsStable` | docker/support/scripts/project-doc-site.ts:198-198 | what stood before and does not compare greater stays before |
| `PluginReconcile.ReconcilePlugins` | apps/cli/src/plugin.ts:59-91 | writes the old list without dependency-managed non-bundles followed by the new bundles in dependency order, and writes exactly when that list differs from the old one; warns once for each new dependency that is no bundle |
| `PluginReconcile.RemoveStale` | apps/cli/src/plugin.ts:78-87 | cutting first occurrences out of the list while looping over its copy removes every occurrence of the stale names and nothing else, duplicates included |
| `PluginReconcile.ChangedIffDifferent` | apps/cli/src/plugin.ts:65-88 | the loops change the list exactly when the result differs: appends and removals never cancel out |
| `PluginReconcile.MembersOfResult` | apps/cli/src/plugin.ts:64-87 | a name is listed afterwards exactly when it is an installed bundle, or was listed and is no dependency before or after |
| `PluginReconcile.WarnedAbout` | apps/cli/src/plugin.ts:66-75 | warned about are exactly the dependencies that were none before and are no bundle |
| `PluginReconcile.UnmanagedUntouched` | apps/cli/src/plugin.ts:79-83 | names that are dependencies neither before nor after keep every occurrence, in order |
| `PluginReconcile.SecondRunIsANoOp` | apps/cli/src/plugin.ts:59-91 | a second run computes the list the first one wrote, so it writes nothing |
| `PairedDerivatives.DerivativeDocs` | docker/support/scripts/paired-markdown-derivatives.ts:43-56 | exactly the documents whose fingerprint sequence is that of their unsuffixed sibling |
| `PairedDerivatives.SiblingHasTheStem` | docker/support/scripts/paired-markdown-derivatives.ts:16-18 | a document has a sibling exactly when it ends in `.zh.md`, and the sibling is the same stem with `.md` |
| `PairedDerivatives.DerivedIff` | docker/support/scripts/paired-markdown-derivatives.ts:43-56 | a `.zh.md` document is a derivative exactly when it has a block and shows the fingerprints of the `.md` document of its stem, in order |
| `PairedDerivatives.PartitionPairedMarkdownDerivatives` | docker/support/scripts/paired-markdown-derivatives.ts:30-63 | both outputs are order-preserving filters of the input by whether the block's document is a derivative |
| `PairedDerivatives.PartitionIsASplit` | docker/support/scripts/paired-markdown-derivatives.ts:58-62 | every block goes to exactly one side |
| `PairedDerivatives.EveryChainHasARoot` | docker/support/scripts/paired-markdown-derivatives.ts:16-18 | every chain of siblings ends in a document that is no derivative and has the same fingerprint sequence |
| `PairedDerivatives.PrimaryCoversEveryDoc` | docker/support/scripts/paired-markdown-derivatives.ts:30-63 | the fingerprint sequence of every document is that of a document all of whose blocks are primary |
| `PairedDerivatives.PrimaryShowsEveryFingerprint` | docker/support/scripts/paired-markdown-derivatives.ts:30-63 | the primary blocks show exactly the fingerprints all blocks show |

## Left out

- GateScheduler.RunGates: an executor promise that rejects, the observer callback, console output, durations, exit codes and captured output are not modelled; a result carries its gate, status and error text.
- GateGraph.ValidateGateGraph: an absent `needs` or `after` list is modelled as the empty list.
- Gate lists, modes and command lines (`gatesForMode` and the functions it calls): finite data.
- TypePathLookup.Walk.LookupType: type operators pass the path through, as the code does, so `keyof` gets the meaning of its operand; generic arguments are not substituted. The resolution of names is a table in the world, so an unreadable file, which makes the source throw, is no part of the walk; `TypeNameTable` ties the table to the search.
- TypeWalkEnding.EndsIffFinitelyManyKeys: where different step lists of one length meet at a declaration, only one direction is stated (`TypeWalkEnding.FinitelyManyKeysEnd`, and more generally `TypeWalkEnding.BoundedCallsEnd`); `TypeWalkWitnesses.BranchOrderDecides` shows that the other one fails there.
- KeyPaths.LookupKeyPath: the parsing of schemas and the pasting of declarations are not modelled.
- TypePathLookup.UncutAnswersAreComplete: for a path that is definitely there only the sufficient condition is stated; where the visited set stopped some call, whether it is still found depends on the other branches.
- TypeNameResolution.SearchExports: a re-export without a relative `.ts` target is one of the statements that are passed over; files are given with resolved paths.
- PackageGraph.TopoSort: a failure carries the unplaced names in table order, not the text that joins them; reading manifests is not modelled.
- RegistryPublication.Publication.Publish: `npm ping`, `npm whoami` and the confirmation prompt come before any command and are left out, as are the format of the reported integrity and the parsing of tag listings. A version a known package does not have is reported as not found. Both behaviours of a registry towards `latest` on a first publication are covered by a parameter.
- Packing, staging, the release manifest on disk and the smoke test of `publish-npm-baseline.ts`: file system and processes.
- ShellQuoting.CopyableCommandReadsBack: only words and quotes are read; assignments, reserved words, tilde and brace handling come after word splitting. The printed words contain no unquoted character that starts an expansion.
- ReferenceFaces.CollectProjectReferenceFaceViolations: the rendering of a string as JSON is a parameter; configs, references and split directories are given with resolved paths.
- ArtifactDigest.FeedDigest: the hash, the UTF-8 encoding of paths, globbing, and the replacement of backslashes are not modelled.
- ClientEnvironment.ClientBuildProcessEnvironment: the order of variables, the commit lookup, the bundler substitutions and the build record are not modelled.
- ProcessShutdown.Controller.EventLoop: callbacks that throw are not modelled. A callback that calls the controller again is the same as an event right after it, because every callback is the last action of its function.
- PublintPool.RunAll: what linting one package does is the parameter `lint`, which includes its failures.
- MarkdownProse.MarkdownProseLines: Markdown parsing and the search for comment delimiters inside HTML nodes are not modelled; comment ranges and fenced line numbers are given.
- ReplacementSplice.TextIsSpliced: which links are rewritten, and to what, is not modelled; that a destination range is not empty and that destinations do not overlap comes from the Markdown parser.
- PluginReconcile.ReconcilePlugins: reading and writing manifests, resolving bundles and running the package manager are not modelled; whether a package exports a patch is a parameter.
- Renderers, catalogs, notices, curated tables and static manifest checks: finite data or single branches.
- `profile-boot.ts`: the composition code it calls is not part of this model.
