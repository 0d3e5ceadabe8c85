# Application-part bootstrap of ASP.NET Core MVC, in Dafny

This project models how MVC discovers and registers its application parts at start-up. It also models how the Razor views feature collects compiled views from those parts. There are four pieces:

- **Discovery model** (`DiscoveryModel`). `PartModel` is a class with one node per assembly. Each node holds the assembly's identity, name and attributes, an ordered list of additional parts and a `parent` back-pointer. `PartResolver` builds the tree in these steps:
  - It adds the assemblies named by the assembly's `AdditionalApplicationPart` attributes first, in attribute order.
  - It then adds a companion views assembly, if the probe finds one. The probe tries `<name>.PrecompiledViews.dll` before `<name>.Views.dll`. A file whose load throws `FileLoadException` is skipped; other exceptions from loading the file are not modelled.
  - A `visited` set, created afresh for each top-level resolution, makes any second visit to an assembly fail with `Recursion`.
  - `ResolveEntryPoint` then appends the dependency context's assemblies to the entry node, skipping the entry assembly itself.
  - What a resolution must build is stated as an `Outline`: a tree of assembly ids with no models, whose root's children are the declared parts loaded by name, then the companion. An outline is a plain value, so "some outline exists" does not depend on which models happen to be allocated. `ResolvePartModel` succeeds exactly when an outline from the root names no assembly twice.
  - Which error a failing resolution reports is fixed by `Outcome`, a reference function that follows the resolver's own depth-first order:
    - a visited assembly is `Recursion` at once;
    - each declared part is loaded, and its whole subtree resolved, before the next name is loaded;
    - the companion comes last;
    - the first error met is the one reported.
  - On a graph that holds both a cycle and a missing assembly, that order decides the error. `CycleBeforeMissingPart` and `MissingPartBeforeCycle` show a case of each.
  - Apart from the order, every error has a cause the resolution can reach. A `Recursion` means that some partial outline from the root, with each node's children taken in the order resolution takes them, names an assembly twice. A load failure names the first declared part that does not load, of an assembly reachable from the root in the same way.
  - When any resolved outline exists from the root, every name it reaches loads, so the only possible error is `Recursion`.
- **Discovery provider** (`DiscoveryProvider`). This is the order in which parts are configured. It is a pre-order walk. Siblings are taken by descending score: the score is 1 plus the scores of the node's additional parts. Ties go by ordinal name, and any remaining ties keep insertion order. Repeated assemblies are then dropped, and the first occurrence is kept. The same module holds `ConfigureApplicationParts`, which runs each node's default configure operation against the part manager in that order.
- **Configure operations** (`ConfigureAttribute`, `ConfigureOperations`, `MvcSandbox`, `PartManager`).
  - An operation is chosen by the first `ConfigureApplicationPartManager` attribute whose name equals the slot under ordinal comparison. The default slot is `"Default"`.
  - If no attribute matches, the default operation is used. It registers the node's own part.
  - A matching type that is not an operation fails.
  - The MvcSandbox sample declares the no-op operation for the default slot. It declares `LightsOn` for the `"LightsOn"` slot; `LightsOn` registers the node as a plain assembly part plus each direct additional part.
- **Compiled views** (`CompiledViews`).
  - `Merge` pairs an assembly's compiled items with its view attributes, keyed by path, ignoring case. The first item and the first attribute under each path win.
  - `PopulateFeature` walks the compiled-views parts in order and appends one descriptor per relative path, ignoring case. The earliest part wins.

Assemblies, attribute lists, `Assembly.Load`, the companion-file probe and the compiled-item loader are supplied as values: `Assemblies.Runtime` and the `compiledItems` map. Reflection over operation types is a closed datatype, `OperationType`, with `DefaultOperation`, `NullOperation`, `LightsOnOperation` and `NotAnOperation(typeName)`. An exception in the source is a `Failure` of `Outcomes.Result` here, or a `Some` of an `Option<Error>`. Strings compared with `OrdinalIgnoreCase` are compared through `Text.Fold`.

The model follows the code as written in two places where it reads differently from its apparent design:
- The resolver takes a `lookup` dictionary of resolved assemblies, which suggests that a shared dependency (a diamond) should collapse into one node. But `lookup` is only read and never written (src/Microsoft.AspNetCore.Mvc.Core/ApplicationParts/AssemblyPartDiscoveryModel.cs:110-113), and `visited` is checked before it (line 105). So within one resolution, an assembly reached along two paths throws `Recursion` exactly as a cycle does. `DiscoveryModel.ResolvePartModel` states this: when a resolved outline from the root names an assembly twice, the resolution fails, and with `Recursion`.
- The comment in `GetPartsInOrder` says that peers are ordered by name (src/Microsoft.AspNetCore.Mvc.Core/Internal/AssemblyPartDiscoveryProvider.cs:41). The code orders them by descending score first, and by name only among equal scores.

## Model

| member | source | states |
|---|---|---|
| DiscoveryModel.PartModel.constructor | src/Microsoft.AspNetCore.Mvc.Core/ApplicationParts/AssemblyPartDiscoveryModel.cs:24-33 | a new node has the given assembly, name and attributes, no parent and no additional parts |
| DiscoveryModel.PartModel.AddAdditionalPartModel | src/Microsoft.AspNetCore.Mvc.Core/ApplicationParts/AssemblyPartDiscoveryModel.cs:45-49 | the child is appended after the earlier children, which are unchanged, and the child's parent becomes the receiver (a second parent overwrites the first) |
| DiscoveryModel.PartModel.ToApplicationPart | src/Microsoft.AspNetCore.Mvc.Core/ApplicationParts/AssemblyPartDiscoveryModel.cs:51-62 | the part is for the node's assembly, and it is a compiled-views part exactly when the name ends, ignoring case, with ".PrecompiledViews" or ".Views" |
| DiscoveryModel.EqualsIsAssemblyIdentity | src/Microsoft.AspNetCore.Mvc.Core/ApplicationParts/AssemblyPartDiscoveryModel.cs:173-186 | two nodes are equal exactly when their assemblies are; equality is reflexive, symmetric and transitive, and nothing equals null |
| DiscoveryModel.FirstLoadableIsKnown | src/Microsoft.AspNetCore.Mvc.Core/ApplicationParts/AssemblyPartDiscoveryModel.cs:152-168 | a probe that finds a companion names an assembly the runtime knows |
| DiscoveryModel.CompanionAssemblyCases | src/Microsoft.AspNetCore.Mvc.Core/ApplicationParts/AssemblyPartDiscoveryModel.cs:145-171 | no companion for a dynamic or location-less assembly; otherwise a loadable ".PrecompiledViews" file wins, and a missing or unloadable one falls through to ".Views" |
| DiscoveryModel.GetPrecompiledViewsAssembly | src/Microsoft.AspNetCore.Mvc.Core/ApplicationParts/AssemblyPartDiscoveryModel.cs:145-171 | the early-return loop over the suffixes returns the first candidate file that exists and loads, and that result loaded from one of the two candidate files |
| DiscoveryModel.CompanionChildren | src/Microsoft.AspNetCore.Mvc.Core/ApplicationParts/AssemblyPartDiscoveryModel.cs:131-139 | a resolution adds at most one companion, and only when there are no declared parts or a configure attribute is present |
| DiscoveryModel.ResolvedNode | src/Microsoft.AspNetCore.Mvc.Core/ApplicationParts/AssemblyPartDiscoveryModel.cs:115-141 | a node whose children are its declared parts, loaded by name in attribute order, followed by the companion, and whose subtrees are resolved, is resolved |
| DiscoveryModel.ResolvedDetermined | src/Microsoft.AspNetCore.Mvc.Core/ApplicationParts/AssemblyPartDiscoveryModel.cs:103-142 | two resolved trees from the same assembly list the same assemblies in the same pre-order: resolution is determined by the runtime |
| DiscoveryModel.OutlineOfResolved | src/Microsoft.AspNetCore.Mvc.Core/ApplicationParts/AssemblyPartDiscoveryModel.cs:115-141 | the outline of a resolved tree is resolved and has the tree's pre-order |
| DiscoveryModel.OutlineDetermined | src/Microsoft.AspNetCore.Mvc.Core/ApplicationParts/AssemblyPartDiscoveryModel.cs:103-142 | two resolved outlines from the same assembly have the same pre-order |
| DiscoveryModel.OutlinesDetermined | src/Microsoft.AspNetCore.Mvc.Core/ApplicationParts/AssemblyPartDiscoveryModel.cs:121-138 | resolved children lists with the same root assemblies have the same pre-order |
| DiscoveryModel.RootNotAvoided | src/Microsoft.AspNetCore.Mvc.Core/ApplicationParts/AssemblyPartDiscoveryModel.cs:105-108 | the root of an outline that avoids the visited set is not visited, so the visited check does not fire |
| DiscoveryModel.SubtreeOrder | src/Microsoft.AspNetCore.Mvc.Core/ApplicationParts/AssemblyPartDiscoveryModel.cs:121-138 | in an outline naming each assembly once, a child's subtree names no assembly of the root or the earlier children |
| DiscoveryModel.WitnessChild | src/Microsoft.AspNetCore.Mvc.Core/ApplicationParts/AssemblyPartDiscoveryModel.cs:121-138 | once a node's first children match an outline's, the outline's next child is an outline its own resolution can build with everything so far visited |
| DiscoveryModel.DeclaredWitness | src/Microsoft.AspNetCore.Mvc.Core/ApplicationParts/AssemblyPartDiscoveryModel.cs:121-127 | given an outline for the node, the next declared name loads, and the outline's child for it is one that resolution can build |
| DiscoveryModel.CompanionWitness | src/Microsoft.AspNetCore.Mvc.Core/ApplicationParts/AssemblyPartDiscoveryModel.cs:131-139 | given an outline for the node, its children after the declared parts are exactly the probe's companion, and the companion's subtree is one that resolution can build |
| DiscoveryModel.ExactlyVisited | src/Microsoft.AspNetCore.Mvc.Core/ApplicationParts/AssemblyPartDiscoveryModel.cs:99-108 | the visited set is exactly the start set plus the assemblies of the tree built so far |
| DiscoveryModel.VisitedSnoc | src/Microsoft.AspNetCore.Mvc.Core/ApplicationParts/AssemblyPartDiscoveryModel.cs:121-126 | visiting one more subtree keeps every assembly visited once, and the visited set exact |
| DiscoveryModel.UnloadableIsDeclared | src/Microsoft.AspNetCore.Mvc.Core/ApplicationParts/AssemblyPartDiscoveryModel.cs:121-123 | the name of a load failure a resolution reaches is one Assembly.Load cannot find, declared as an additional part by an assembly of the runtime |
| DiscoveryModel.UnloadableFromChild | src/Microsoft.AspNetCore.Mvc.Core/ApplicationParts/AssemblyPartDiscoveryModel.cs:121-124 | a load failure reached from a child is reached from its parent |
| DiscoveryModel.NextChild | src/Microsoft.AspNetCore.Mvc.Core/ApplicationParts/AssemblyPartDiscoveryModel.cs:121-138 | the next child a resolution gets to is a declared part whose name, like the earlier ones, loads, or the companion after all of them |
| DiscoveryModel.ChildInOutline | src/Microsoft.AspNetCore.Mvc.Core/ApplicationParts/AssemblyPartDiscoveryModel.cs:121-138 | every child a resolution gets to is a child of every resolved outline of the node |
| DiscoveryModel.OutlineLoadsBelow | src/Microsoft.AspNetCore.Mvc.Core/ApplicationParts/AssemblyPartDiscoveryModel.cs:121-123 | below the root of a resolved outline, every declared name a resolution reaches loads |
| DiscoveryModel.OutlineMeansRecursion | src/Microsoft.AspNetCore.Mvc.Core/ApplicationParts/AssemblyPartDiscoveryModel.cs:103-142 | with a resolved outline from the assembly, a resolution error can only be Recursion |
| DiscoveryModel.DeclaredStep | src/Microsoft.AspNetCore.Mvc.Core/ApplicationParts/AssemblyPartDiscoveryModel.cs:121-124 | in the declared-parts loop, a name that does not load after the earlier ones did is the first unloadable one, and a name that loads extends the children got so far |
| DiscoveryModel.CompanionStep | src/Microsoft.AspNetCore.Mvc.Core/ApplicationParts/AssemblyPartDiscoveryModel.cs:131-138 | after every declared name has loaded, the probe's companion extends the children got so far |
| DiscoveryModel.ResolvedIsExplored | src/Microsoft.AspNetCore.Mvc.Core/ApplicationParts/AssemblyPartDiscoveryModel.cs:121-138 | a resolved outline is one that resolution explores through |
| DiscoveryModel.ExploredUnder | src/Microsoft.AspNetCore.Mvc.Core/ApplicationParts/AssemblyPartDiscoveryModel.cs:121-138 | a node with resolved children and a further explored child is explored |
| DiscoveryModel.OrderUnder | src/Microsoft.AspNetCore.Mvc.Core/ApplicationParts/AssemblyPartDiscoveryModel.cs:121-138 | the pre-order of such a node is the node, its resolved children's pre-order, then the further child's |
| DiscoveryModel.RepeatUnderChild | src/Microsoft.AspNetCore.Mvc.Core/ApplicationParts/AssemblyPartDiscoveryModel.cs:105-107 | a repeat in a child's partial outline, or an assembly of the node and its earlier subtrees in it, lifts to a repeat, or an assembly visited before the node, in a partial outline of the node |
| DiscoveryModel.RecursionUnderChild | src/Microsoft.AspNetCore.Mvc.Core/ApplicationParts/AssemblyPartDiscoveryModel.cs:105-107 | a Recursion under the node's next child, with the node and its earlier subtrees visited, has a repeat in some partial outline of the node |
| DiscoveryModel.VisitedAgain | src/Microsoft.AspNetCore.Mvc.Core/ApplicationParts/AssemblyPartDiscoveryModel.cs:105-107 | an assembly already visited is reached a second time at once |
| DiscoveryModel.UnloadableFirstPart | src/Microsoft.AspNetCore.Mvc.Core/ApplicationParts/AssemblyPartDiscoveryModel.cs:121-123 | when an assembly's first declared part does not load, its resolution reaches nothing twice, so the error must be that load failure and not Recursion |
| DiscoveryModel.EntryPointErrorCause | src/Microsoft.AspNetCore.Mvc.Core/ApplicationParts/AssemblyPartDiscoveryModel.cs:66-88 | when the entry and every other dependency have resolved outlines, ResolveEntryPoint's only possible error is Recursion |
| DiscoveryModel.Outcome | src/Microsoft.AspNetCore.Mvc.Core/ApplicationParts/AssemblyPartDiscoveryModel.cs:103-142 | the reference order of one resolution: a visited assembly is Recursion at once; a success only adds the assembly and what it reaches to the visited set; every error is a Recursion or a load failure |
| DiscoveryModel.PartsOutcome | src/Microsoft.AspNetCore.Mvc.Core/ApplicationParts/AssemblyPartDiscoveryModel.cs:117-138 | the rest of a node's resolution, name by name, each subtree finished before the next name loads, then the companion; a success only grows the visited set, and every error is a Recursion or a load failure |
| DiscoveryModel.FirstResolutionError | src/Microsoft.AspNetCore.Mvc.Core/ApplicationParts/AssemblyPartDiscoveryModel.cs:66-88 | the first error among fresh resolutions taken in order: none exactly when every one succeeds, else the error of one of them |
| DiscoveryModel.CycleBeforeMissingPart | src/Microsoft.AspNetCore.Mvc.Core/ApplicationParts/AssemblyPartDiscoveryModel.cs:105-107 | the root's part A declares the root and then a missing X: the way back to the root is met first, so the resolution fails with Recursion and X is never loaded |
| DiscoveryModel.MissingPartBeforeCycle | src/Microsoft.AspNetCore.Mvc.Core/ApplicationParts/AssemblyPartDiscoveryModel.cs:121-124 | the root declares A, then B; A declares a missing X, and B declares the root: A's subtree fails loading X before B is loaded, so the error is X's load failure and not Recursion |
| DiscoveryModel.Link | src/Microsoft.AspNetCore.Mvc.Core/ApplicationParts/AssemblyPartDiscoveryModel.cs:45-49 | adding a linked subtree that is disjoint from the node's tree keeps every node's children and parent pointers consistent with the snapshot |
| DiscoveryModel.PartResolver.constructor | src/Microsoft.AspNetCore.Mvc.Core/ApplicationParts/AssemblyPartDiscoveryModel.cs:100 | a resolution starts with an empty visited set |
| DiscoveryModel.PartResolver.Resolve | src/Microsoft.AspNetCore.Mvc.Core/ApplicationParts/AssemblyPartDiscoveryModel.cs:103-142 | an assembly already visited fails with Recursion; the result is exactly what the depth-first Outcome gives: its error, or success with the visited set Outcome ends with; it succeeds whenever an outline from the assembly names no assembly twice and none already visited; a Recursion has a repeat, or an assembly already visited, in some partial outline from the assembly; a load failure is the first unloadable declared part of an assembly reachable from it; with any resolved outline from the assembly, the only error is Recursion; a success is a fresh, parentless, linked and resolved tree whose assemblies are distinct and are exactly those added to the visited set |
| DiscoveryModel.PartResolver.ResolveUnvisited | src/Microsoft.AspNetCore.Mvc.Core/ApplicationParts/AssemblyPartDiscoveryModel.cs:114-141 | past the visited check, the result is exactly the depth-first outcome of the node's declared parts and companion, taken with the assembly marked visited; given an outline for the assembly, it succeeds; a Recursion has a repeat reachable from the assembly, and a load failure is the first unloadable declared part of an assembly reachable from it; a success is a resolved, linked tree that visits exactly its own assemblies |
| DiscoveryModel.PartResolver.AddDeclaredParts | src/Microsoft.AspNetCore.Mvc.Core/ApplicationParts/AssemblyPartDiscoveryModel.cs:117-127 | the loop's failure is the first error of the depth-first outcome, in which each name is loaded only after the previous part's whole subtree is resolved; without a failure, the rest of the outcome is the companion's; on success, the declared parts are loaded by name, resolved and appended in attribute order, with no assembly repeated; given an outline for the node, it does not fail; every error has a cause reachable from the node |
| DiscoveryModel.PartResolver.AddCompanionPart | src/Microsoft.AspNetCore.Mvc.Core/ApplicationParts/AssemblyPartDiscoveryModel.cs:129-139 | the result is the depth-first outcome of the companion step: the companion's own resolution when the probe runs and finds one, else success; exactly the probe's companion is appended after the declared parts; given an outline for the node, it does not fail; every error has a cause reachable from the node |
| DiscoveryModel.PartResolver.Attach | src/Microsoft.AspNetCore.Mvc.Core/ApplicationParts/AssemblyPartDiscoveryModel.cs:124-126 | the result is exactly the child's depth-first Outcome from the current visited set; the next child the node's resolution gets to is resolved and added, extending the node's resolved, duplicate-free tree by one subtree; given an outline for the child that avoids the visited set, it does not fail; the child's errors have causes reachable from the node |
| DiscoveryModel.ResolvePartModel | src/Microsoft.AspNetCore.Mvc.Core/ApplicationParts/AssemblyPartDiscoveryModel.cs:96-143 | the result is exactly the root's depth-first Outcome from an empty visited set: its error, or success with the tree naming exactly the assemblies Outcome visits; it succeeds exactly when some resolved outline from the root names each assembly once; whenever a resolved outline from the root reaches an assembly twice (a diamond), it fails with Recursion; every error has a cause reachable from the root; a success is a resolved, linked tree naming each assembly once |
| DiscoveryModel.ResolveAssemblyModel | src/Microsoft.AspNetCore.Mvc.Core/ApplicationParts/AssemblyPartDiscoveryModel.cs:90-94 | a fresh resolution of one assembly: exactly its depth-first Outcome, succeeding exactly when an outline from it names each assembly once, with the same error causes and the same guarantees |
| DiscoveryModel.Without | src/Microsoft.AspNetCore.Mvc.Core/ApplicationParts/AssemblyPartDiscoveryModel.cs:74-81 | the dependency list without the entry assembly keeps exactly the other assemblies |
| DiscoveryModel.WithoutSnoc | src/Microsoft.AspNetCore.Mvc.Core/ApplicationParts/AssemblyPartDiscoveryModel.cs:74-81 | one more dependency extends the filtered list by itself unless it is the entry assembly |
| DiscoveryModel.AddDependency | src/Microsoft.AspNetCore.Mvc.Core/ApplicationParts/AssemblyPartDiscoveryModel.cs:83-84 | a dependency is resolved with its own visited set and appended to the entry node; it fails exactly when the dependency's depth-first Outcome fails, and then with that error, which is the case exactly when the dependency has no duplicate-free outline |
| DiscoveryModel.AddDependencies | src/Microsoft.AspNetCore.Mvc.Core/ApplicationParts/AssemblyPartDiscoveryModel.cs:74-85 | the loop appends every dependency except the entry assembly, in dependency order, each resolved; its failure is exactly the first error among those dependencies' outcomes, and it fails exactly when one of them has no duplicate-free outline |
| DiscoveryModel.ResolveEntryPoint | src/Microsoft.AspNetCore.Mvc.Core/ApplicationParts/AssemblyPartDiscoveryModel.cs:66-88 | its error is exactly the first error among the outcomes of the entry and then each other dependency, in order, and it succeeds exactly when there is none; equivalently, it succeeds exactly when all of them have duplicate-free outlines; the error is Recursion whenever all of them have resolved outlines; on success the entry node keeps its own resolved children, followed by one resolved child per dependency other than the entry, in dependency order |
| Assemblies.FiltersKeepTheirKind | src/Microsoft.AspNetCore.Mvc.Core/ApplicationParts/AssemblyPartDiscoveryModel.cs:117-119 | filtering the attributes by kind keeps exactly the attributes of that kind |
| Assemblies.NamesKeepOrder | src/Microsoft.AspNetCore.Mvc.Core/ApplicationParts/AssemblyPartDiscoveryModel.cs:117-119 | the declared part names keep attribute order: names from earlier attributes come first, so the declared parts are resolved in attribute order |
| Assemblies.DeclarationsKeepOrder | src/Microsoft.AspNetCore.Mvc.Core/ApplicationParts/ConfigureApplicationPartManager.cs:18-19 | the configure declarations keep attribute order, so the first matching declaration is the first one declared |
| Assemblies.ViewsKeepOrder | src/Microsoft.AspNetCore.Mvc.Razor/Internal/CompiledViewsFeatureProvider.cs:19 | the view attributes keep declaration order, so the first attribute under a path is the first one declared |
| DiscoveryProvider.Score | src/Microsoft.AspNetCore.Mvc.Core/Internal/AssemblyPartDiscoveryProvider.cs:73-76 | a node's score is at least 1 |
| DiscoveryProvider.BeforeIsStrictTotal | src/Microsoft.AspNetCore.Mvc.Core/Internal/AssemblyPartDiscoveryProvider.cs:48-50 | higher score, then ordinal name, is irreflexive, asymmetric and transitive, and relates any two siblings that differ in score or name |
| DiscoveryProvider.NotBeforeTransitive | src/Microsoft.AspNetCore.Mvc.Core/Internal/AssemblyPartDiscoveryProvider.cs:48-50 | "not before" is transitive, as a stable sort needs |
| DiscoveryProvider.InsertOrdered | src/Microsoft.AspNetCore.Mvc.Core/Internal/AssemblyPartDiscoveryProvider.cs:48-50 | inserting a sibling into an ordered list keeps it ordered |
| DiscoveryProvider.SortPartsOrdered | src/Microsoft.AspNetCore.Mvc.Core/Internal/AssemblyPartDiscoveryProvider.cs:48-50 | sorted siblings go by descending score, then ordinal ascending name |
| DiscoveryProvider.SortPartsPermutes | src/Microsoft.AspNetCore.Mvc.Core/Internal/AssemblyPartDiscoveryProvider.cs:48-50 | sorting is a permutation of the siblings |
| DiscoveryProvider.SortPartsStable | src/Microsoft.AspNetCore.Mvc.Core/Internal/AssemblyPartDiscoveryProvider.cs:48-50 | siblings with equal score and name keep their insertion order |
| DiscoveryProvider.SortPartsScore | src/Microsoft.AspNetCore.Mvc.Core/Internal/AssemblyPartDiscoveryProvider.cs:75 | the summed score of the siblings does not depend on their order |
| DiscoveryProvider.Enumerate | src/Microsoft.AspNetCore.Mvc.Core/Internal/AssemblyPartDiscoveryProvider.cs:45-59 | the walk starts with the node and has as many entries as the node's score |
| DiscoveryProvider.EnumeratePermutesPreOrder | src/Microsoft.AspNetCore.Mvc.Core/Internal/AssemblyPartDiscoveryProvider.cs:45-59 | the walk lists the same assemblies, with the same multiplicities, as the tree in insertion order |
| DiscoveryProvider.EnumerateAllPermutesForestOrder | src/Microsoft.AspNetCore.Mvc.Core/Internal/AssemblyPartDiscoveryProvider.cs:52-58 | the same for a list of siblings |
| DiscoveryProvider.ForestSubtreeContiguous | src/Microsoft.AspNetCore.Mvc.Core/Internal/AssemblyPartDiscoveryProvider.cs:52-58 | in a walk over siblings, the i-th sibling's walk is one contiguous block after its predecessors' blocks |
| DiscoveryProvider.SubtreeContiguous | src/Microsoft.AspNetCore.Mvc.Core/Internal/AssemblyPartDiscoveryProvider.cs:45-58 | before deduplication, each sibling's whole subtree is emitted in one block after the node and after the blocks of the siblings sorted before it |
| DiscoveryProvider.Distinct | src/Microsoft.AspNetCore.Mvc.Core/Internal/AssemblyPartDiscoveryProvider.cs:43 | the result has no two nodes with the same assembly and covers exactly the input's assemblies |
| DiscoveryProvider.DistinctFromSnoc | src/Microsoft.AspNetCore.Mvc.Core/Internal/AssemblyPartDiscoveryProvider.cs:43 | one more node is kept exactly when its assembly has not been seen before |
| DiscoveryProvider.DistinctKeepsFirstOccurrences | src/Microsoft.AspNetCore.Mvc.Core/Internal/AssemblyPartDiscoveryProvider.cs:43 | Distinct keeps exactly the first node of each assembly, in walk order |
| DiscoveryProvider.PartsInOrder | src/Microsoft.AspNetCore.Mvc.Core/Internal/AssemblyPartDiscoveryProvider.cs:43-59 | the order starts with the entry node and lists each assembly at most once |
| DiscoveryProvider.PartsInOrderCovers | src/Microsoft.AspNetCore.Mvc.Core/Internal/AssemblyPartDiscoveryProvider.cs:43-59 | every assembly reachable from the entry node is in the order, and no other |
| DiscoveryProvider.GetPartsInOrder | src/Microsoft.AspNetCore.Mvc.Core/Internal/AssemblyPartDiscoveryProvider.cs:27-60 | reading the live tree gives the order of its snapshot, and no node is changed (no modifies clause) |
| DiscoveryProvider.EntryPartAlone | test/Microsoft.AspNetCore.Mvc.Core.Test/ApplicationParts/AssemblyPartDiscoveryProviderTest.cs:18-29 | a childless entry yields exactly itself |
| DiscoveryProvider.AdditionalPartsOrderedByName | test/Microsoft.AspNetCore.Mvc.Core.Test/ApplicationParts/AssemblyPartDiscoveryProviderTest.cs:31-46 | leaves of equal score go by name: ClassLibrary1 before ClassLibrary2 whatever the insertion order |
| DiscoveryProvider.AdditionalPartsFollowTheirPart | test/Microsoft.AspNetCore.Mvc.Core.Test/ApplicationParts/AssemblyPartDiscoveryProviderTest.cs:48-69 | the heavier part comes first with its own parts after it, and the repeats are dropped |
| DiscoveryProvider.DeeplyNestedParts | test/Microsoft.AspNetCore.Mvc.Core.Test/ApplicationParts/AssemblyPartDiscoveryProviderTest.cs:71-89 | a chain is emitted in depth order |
| DiscoveryProvider.AssemblyDiscoveredTwiceIgnored | test/Microsoft.AspNetCore.Mvc.Core.Test/ApplicationParts/AssemblyPartDiscoveryProviderTest.cs:91-108 | a part listed under two parents is emitted once, at its first position |
| DiscoveryProvider.AllAdditionalPartsDiscovered | test/Microsoft.AspNetCore.Mvc.Core.Test/ApplicationParts/AssemblyPartDiscoveryProviderTest.cs:110-132 | every part of a four-part tree is emitted, parts of equal score by name |
| DiscoveryProvider.Contribution | src/Microsoft.AspNetCore.Mvc.Core/Internal/AssemblyPartDiscoveryProvider.cs:21-22 | an operation registers nothing exactly when it is the no-op operation |
| DiscoveryProvider.Configure | src/Microsoft.AspNetCore.Mvc.Core/Internal/AssemblyPartDiscoveryProvider.cs:22 | running an operation appends its contribution to the part manager |
| DiscoveryProvider.FirstFailure | src/Microsoft.AspNetCore.Mvc.Core/Internal/AssemblyPartDiscoveryProvider.cs:19-23 | a run fails exactly when some node's default slot names a type that is not an operation, and then with that slot |
| DiscoveryProvider.RegistrationsSnoc | src/Microsoft.AspNetCore.Mvc.Core/Internal/AssemblyPartDiscoveryProvider.cs:19-23 | one more node with a valid operation appends that operation's contribution |
| DiscoveryProvider.RegistrationsStop | src/Microsoft.AspNetCore.Mvc.Core/Internal/AssemblyPartDiscoveryProvider.cs:19-23 | a node whose operation is invalid registers nothing |
| DiscoveryProvider.FailureEndsRun | src/Microsoft.AspNetCore.Mvc.Core/Internal/AssemblyPartDiscoveryProvider.cs:19-23 | once a prefix fails, later nodes change neither the error nor the registrations |
| DiscoveryProvider.StockRegistrations | src/Microsoft.AspNetCore.Mvc.Core/Internal/AssemblyPartDiscoveryProvider.cs:19-23 | with only default operations, exactly one part per node is registered, in node order, each classified by its name |
| DiscoveryProvider.StockConfigurationCoversTree | src/Microsoft.AspNetCore.Mvc.Core/Internal/AssemblyPartDiscoveryProvider.cs:14-24 | with only default operations, every assembly of the tree is registered exactly once, and no other |
| DiscoveryProvider.SandboxEntryRegistersNothing | samples/MvcSandbox/AssemblyInfo.cs:6-7 | the sample assembly's default slot is the no-op, so it registers nothing for itself |
| DiscoveryProvider.StopsAt | src/Microsoft.AspNetCore.Mvc.Core/Internal/AssemblyPartDiscoveryProvider.cs:19-23 | the first invalid operation is the run's error, and the registrations are those of the nodes before it |
| DiscoveryProvider.ContinuesAt | src/Microsoft.AspNetCore.Mvc.Core/Internal/AssemblyPartDiscoveryProvider.cs:19-23 | a valid operation extends the registrations by its contribution, and the run has not failed |
| DiscoveryProvider.ConfigureNext | src/Microsoft.AspNetCore.Mvc.Core/Internal/AssemblyPartDiscoveryProvider.cs:21-22 | one iteration appends the node's contribution to the part manager |
| DiscoveryProvider.RunOperations | src/Microsoft.AspNetCore.Mvc.Core/Internal/AssemblyPartDiscoveryProvider.cs:19-23 | the loop applies one selected operation per node, in order, stopping at the first invalid one; the part manager gains exactly the registrations |
| DiscoveryProvider.ConfigureApplicationParts | src/Microsoft.AspNetCore.Mvc.Core/Internal/AssemblyPartDiscoveryProvider.cs:14-24 | an unknown entry name fails and changes nothing; for a known entry, a resolution error is exactly the first error among the outcomes of the entry and then each other dependency, and it changes nothing; resolution gets past exactly when there is no such error, which is when the entry and every other dependency have duplicate-free outlines; the walked tree is the entry's own resolved tree followed by the resolved dependencies, and the part manager gains the registrations of its order, up to the first invalid operation |
| ConfigureOperations.FirstDeclaration | src/Microsoft.AspNetCore.Mvc.Core/ApplicationParts/ConfigureApplicationPartManager.cs:18-19 | the result is the first declaration whose name equals the slot, and none exactly when no name equals it |
| ConfigureOperations.SelectOperation | src/Microsoft.AspNetCore.Mvc.Core/ApplicationParts/ConfigureApplicationPartManager.cs:16-36 | a success is always an operation; a failure is an invalid configure type for the slot |
| ConfigureOperations.GetConfigureOperation | src/Microsoft.AspNetCore.Mvc.Core/ApplicationParts/ConfigureApplicationPartManager.cs:16-36 | a node's operation for a slot, always an operation when it succeeds |
| ConfigureOperations.GetDefaultConfigureOperation | src/Microsoft.AspNetCore.Mvc.Core/ApplicationParts/ConfigureApplicationPartManager.cs:13-14 | the one-argument overload selects with the slot "Default" |
| ConfigureOperations.NoDeclarationGivesDefault | src/Microsoft.AspNetCore.Mvc.Core/ApplicationParts/ConfigureApplicationPartManager.cs:32-35 | with no declaration for the slot, the default operation is chosen |
| ConfigureOperations.FirstDeclarationDecides | src/Microsoft.AspNetCore.Mvc.Core/ApplicationParts/ConfigureApplicationPartManager.cs:18-31 | the first declaration for the slot decides: its type when that is an operation, an invalid configure type error otherwise |
| ConfigureOperations.OtherAttributesIgnored | src/Microsoft.AspNetCore.Mvc.Core/ApplicationParts/ConfigureApplicationPartManager.cs:18-19 | an attribute of another kind or for another slot, wherever it sits, does not change the selection |
| ConfigureOperations.ConfigureDeclarationsSkip | src/Microsoft.AspNetCore.Mvc.Core/ApplicationParts/ConfigureApplicationPartManager.cs:18-19 | such an attribute does not change the first matching declaration |
| ConfigureOperations.ConfigureDefault | src/Microsoft.AspNetCore.Mvc.Core/ApplicationParts/ConfigureApplicationPartManager.cs:38-45 | the default operation appends exactly the node's own part and keeps the earlier parts |
| PartManager.ApplicationPartManager.Add | src/Microsoft.AspNetCore.Mvc.Core/ApplicationParts/ConfigureApplicationPartManager.cs:43 | a part is appended after the earlier ones |
| ConfigureAttribute.NewNamedConfigureAttribute | src/Microsoft.AspNetCore.Mvc.Core/ApplicationParts/ConfigureApplicationPartManagerAttribute.cs:18-22 | construction succeeds exactly when type and name are both given, and then keeps them; a null type is reported before a null name |
| ConfigureAttribute.NewConfigureAttribute | src/Microsoft.AspNetCore.Mvc.Core/ApplicationParts/ConfigureApplicationPartManagerAttribute.cs:11-16 | the one-argument constructor gives the name "Default", and fails on a null type |
| MvcSandbox.SandboxAttributesAreConstructed | samples/MvcSandbox/AssemblyInfo.cs:6-7 | the sample's two declarations are what the attribute constructors build |
| MvcSandbox.SandboxSlots | samples/MvcSandbox/AssemblyInfo.cs:6-7 | for the sample assembly the default slot is the no-op operation, slot "LightsOn" is LightsOn, and every other slot is the default operation |
| MvcSandbox.ChildParts | samples/MvcSandbox/AssemblyInfo.cs:18-21 | one part per additional part |
| MvcSandbox.ChildPartsClassify | samples/MvcSandbox/AssemblyInfo.cs:18-21 | each child's part is for the child's assembly and is a compiled-views part exactly when its name marks a views assembly |
| MvcSandbox.ChildPartsSnoc | samples/MvcSandbox/AssemblyInfo.cs:18-21 | one more child appends its own classified part, in insertion order |
| MvcSandbox.LightsOnParts | samples/MvcSandbox/AssemblyInfo.cs:15-21 | LightsOn registers 1 + the number of additional parts: a plain assembly part for the node, then the direct children's parts and no grandchildren |
| MvcSandbox.ConfigureLightsOn | samples/MvcSandbox/AssemblyInfo.cs:13-22 | the part manager gains exactly those parts, after its earlier ones |
| MvcSandbox.LightsOnIgnoresOwnSuffix | samples/MvcSandbox/AssemblyInfo.cs:17 | a node named like a views assembly still registers first as a plain assembly part |
| CompiledViews.FirstFiled | src/Microsoft.AspNetCore.Mvc.Razor/Internal/CompiledViewsFeatureProvider.cs:46-48 | the first element under a key, and none exactly when no element has the key |
| CompiledViews.FirstFiledIsFirst | src/Microsoft.AspNetCore.Mvc.Razor/Internal/CompiledViewsFeatureProvider.cs:46-48 | the element at the first position with the key is the one filed |
| CompiledViews.MergedKeys | src/Microsoft.AspNetCore.Mvc.Razor/Internal/CompiledViewsFeatureProvider.cs:42-67 | a folded path is a key exactly when some item or attribute is filed under it |
| CompiledViews.FirstFiledGrows | src/Microsoft.AspNetCore.Mvc.Razor/Internal/CompiledViewsFeatureProvider.cs:46-53 | a later element never displaces the first under its key |
| CompiledViews.ItemFiled | src/Microsoft.AspNetCore.Mvc.Razor/Internal/CompiledViewsFeatureProvider.cs:43-55 | after the items loop every entry has an item, and one more item is added only under a new key |
| CompiledViews.AttributeFiled | src/Microsoft.AspNetCore.Mvc.Razor/Internal/CompiledViewsFeatureProvider.cs:57-67 | one more attribute adds an entry under a new key, fills an entry without an attribute, or changes nothing |
| CompiledViews.FileItem | src/Microsoft.AspNetCore.Mvc.Razor/Internal/CompiledViewsFeatureProvider.cs:45-54 | one iteration of the items loop files the item as the merge of one more item prescribes |
| CompiledViews.FileAttribute | src/Microsoft.AspNetCore.Mvc.Razor/Internal/CompiledViewsFeatureProvider.cs:59-66 | one iteration of the attributes loop files the attribute as the merge of one more attribute prescribes |
| CompiledViews.Merge | src/Microsoft.AspNetCore.Mvc.Razor/Internal/CompiledViewsFeatureProvider.cs:36-70 | the two loops build exactly the merged view map |
| CompiledViews.MergedViewsDetermined | src/Microsoft.AspNetCore.Mvc.Razor/Internal/CompiledViewsFeatureProvider.cs:36-70 | any map with those keys, pairing each key's first item with its first attribute, is the merge |
| CompiledViews.MergeCoversPaths | src/Microsoft.AspNetCore.Mvc.Razor/Internal/CompiledViewsFeatureProvider.cs:42-67 | every item identifier and every attribute path is a key, and every key comes from one of them |
| CompiledViews.MergedEntriesAreFiled | src/Microsoft.AspNetCore.Mvc.Razor/Internal/CompiledViewsFeatureProvider.cs:46-66 | every entry has an item or an attribute, each filed under the entry's own key |
| CompiledViews.MergeKeepsFirsts | src/Microsoft.AspNetCore.Mvc.Razor/Internal/CompiledViewsFeatureProvider.cs:59-66 | a path with both kinds ends as one entry pairing the first item with the first attribute |
| CompiledViews.DescriptorFor | src/Microsoft.AspNetCore.Mvc.Razor/Internal/CompiledViewsFeatureProvider.cs:25 | a descriptor carries the entry's item and attribute, with the item's identifier as path, else the attribute's |
| CompiledViews.DescriptorFiledUnderKey | src/Microsoft.AspNetCore.Mvc.Razor/Internal/CompiledViewsFeatureProvider.cs:25-28 | a merged entry's descriptor has the entry's key as folded relative path |
| CompiledViews.ExtendKeeps | src/Microsoft.AspNetCore.Mvc.Razor/Internal/CompiledViewsFeatureProvider.cs:26-31 | a later part never replaces a chosen descriptor, adds the paths not yet chosen, and adds nothing else |
| CompiledViews.WinnersStep | src/Microsoft.AspNetCore.Mvc.Razor/Internal/CompiledViewsFeatureProvider.cs:16-33 | one more part extends the winners by its merge only when it is a compiled-views part |
| CompiledViews.WinnersKeys | src/Microsoft.AspNetCore.Mvc.Razor/Internal/CompiledViewsFeatureProvider.cs:16-33 | a path gets a descriptor exactly when some compiled-views part's merge has it |
| CompiledViews.WinnersEarliest | src/Microsoft.AspNetCore.Mvc.Razor/Internal/CompiledViewsFeatureProvider.cs:16-33 | a path's descriptor comes from the earliest compiled-views part that has the path |
| CompiledViews.RegisterOne | src/Microsoft.AspNetCore.Mvc.Razor/Internal/CompiledViewsFeatureProvider.cs:28-31 | adding a winning descriptor with an unknown path keeps one descriptor per path |
| CompiledViews.RegisteredExtends | src/Microsoft.AspNetCore.Mvc.Razor/Internal/CompiledViewsFeatureProvider.cs:23-32 | the descriptors added so far stay winners when a further part extends the winners |
| CompiledViews.AppendDescriptor | src/Microsoft.AspNetCore.Mvc.Razor/Internal/CompiledViewsFeatureProvider.cs:28-30 | a descriptor whose path is new keeps the appended paths duplicate-free |
| CompiledViews.RegisteringDone | src/Microsoft.AspNetCore.Mvc.Razor/Internal/CompiledViewsFeatureProvider.cs:23-32 | once every entry of a part's merge is handled, the added descriptors are the extended winners and the known set holds their paths |
| CompiledViews.AddDescriptor | src/Microsoft.AspNetCore.Mvc.Razor/Internal/CompiledViewsFeatureProvider.cs:25-31 | the entry's key becomes known, and its descriptor is appended exactly when the key was not yet known, with nothing else appended; the added descriptors stay the winners, one per path |
| CompiledViews.RegisteringStep | src/Microsoft.AspNetCore.Mvc.Razor/Internal/CompiledViewsFeatureProvider.cs:25-31 | visiting a key of the merge keeps the loop's state: a known path leaves the descriptors as they are, a new path appends its winner |
| CompiledViews.AddDescriptors | src/Microsoft.AspNetCore.Mvc.Razor/Internal/CompiledViewsFeatureProvider.cs:23-32 | the loop over one part's merge keeps the earlier descriptors as a prefix and appends one descriptor per path not yet known, each the winner |
| CompiledViews.PopulateFeature | src/Microsoft.AspNetCore.Mvc.Razor/Internal/CompiledViewsFeatureProvider.cs:13-34 | earlier descriptors stay in place; the appended ones are one per folded relative path, each from the earliest compiled-views part having the path, and every such path gets one |
| Text.FoldIdempotent | src/Microsoft.AspNetCore.Mvc.Razor/Internal/CompiledViewsFeatureProvider.cs:42 | folding a folded key changes nothing |
| Text.EqualsIgnoreCaseIsSameFold | src/Microsoft.AspNetCore.Mvc.Razor/Internal/CompiledViewsFeatureProvider.cs:42 | two strings are equal ignoring case exactly when their folds are equal, so folded keys stand for OrdinalIgnoreCase keys |
| Text.OrdinalLessTransitive | src/Microsoft.AspNetCore.Mvc.Core/Internal/AssemblyPartDiscoveryProvider.cs:50 | the ordinal order of names is transitive |
| Text.OrdinalLessTotal | src/Microsoft.AspNetCore.Mvc.Core/Internal/AssemblyPartDiscoveryProvider.cs:50 | two names are equal exactly when neither is ordinally less, and never both are less |

## Left out

- Loading assemblies, reading attributes, `File.Exists`, `Path.Combine`, `Assembly.LoadFile`, `IsDynamic` and `Location` are runtime I/O. They are replaced by the `Runtime` value, which holds a catalogue of assemblies, a name-to-assembly map and a file-probe table giving Missing, LoadFails or Loaded for each candidate path.
- `DependencyContextPartDiscoveryProviider.ResolveAssemblies` is not part of this model; its result is the parameter `resolvedAssemblies` (or `dependencyContext`).
- `RazorCompiledItemLoader.LoadItems` is not part of this model; the compiled items of each assembly are the parameter `compiledItems`.
- `CompiledViewDescriptor` is not part of this model; its relative path is taken as the item's identifier when there is an item, else the attribute's path, without normalisation.
- `ViewsFeature` and `ApplicationPartManager` are not part of this model beyond a list that is only appended to.
- Reflection (`OfType`, `IsAssignableFrom`, `Activator.CreateInstance`) is replaced by typed attribute variants and the closed `OperationType` datatype. `NullConfigureApplicationPartManager` is the `NullOperation` variant, which registers nothing.
- The `lookup` dictionary of `ResolvePartModel`: it is never written, so the branch that returns a cached model cannot be taken; the model has no lookup.
- `OrdinalIgnoreCase` is modelled with ASCII upper-casing only; full Unicode case folding is not modelled.
- A dictionary or set compared with `OrdinalIgnoreCase` is a map or set keyed by the folded string; the original casing of a key is not kept.
- The order of `dictionary.Values` returned by `Merge` is unspecified in .NET. `Merge` returns a map, and `AddDescriptors` takes its entries in an arbitrary order (`:|`). `PopulateFeature` is therefore stated as the set of winners per path, not as a list order.
- `DiscoveryProvider.Score`: `GetScore`'s `int` sum and the comparer's `xScore - yScore` subtraction could overflow for trees of more than 2^31 nodes; scores are unbounded naturals here.
- Lazy `yield` and LINQ evaluation is modelled eagerly, which is equivalent here because nothing changes the tree during the walk.
- `GetHashCode` and `ToString` are not modelled; equality is assembly identity.
- The exception messages are not modelled; the error values carry the assembly name, the parameter name or the offending type and slot.
- `Assemblies.Runtime.Load` and `CompiledViews.ViewsOf` are stand-ins for `Assembly.Load` and for the per-assembly loading of compiled items and attributes. They only look the answer up in the `Runtime` value and the `compiledItems` map, so they state no property of their own.
- Exceptions other than `FileLoadException` from `Assembly.LoadFile` in the companion probe (src/Microsoft.AspNetCore.Mvc.Core/ApplicationParts/AssemblyPartDiscoveryModel.cs:159-166), such as `BadImageFormatException`, escape the probe in the source. The `FileProbe` values cannot express them, so the model has no such path.
- `Text.OrdinalLess` compares `char` values, which in Dafny are Unicode scalar values. .NET's ordinal comparison works on UTF-16 code units, and the two orders differ for names that mix supplementary-plane characters with characters from U+E000 to U+FFFF.
- `DiscoveryProvider.GetPartsInOrder` requires a snapshot that describes the live graph, and snapshots are finite trees. On a cyclic graph of nodes, which the resolver itself never builds, `GetScore` and `EnumerateModel` (src/Microsoft.AspNetCore.Mvc.Core/Internal/AssemblyPartDiscoveryProvider.cs:45-59 and 73-76) recurse without end; the model does not capture that behaviour.
- `DiscoveryModel.PartModel.AddAdditionalPartModel` and the resolver are modelled on trees: a node shared by two parents is seen in a snapshot once under each. Only the duplicate-free trees that resolution can produce are linked with consistent parent pointers.
- The branch `entry.item == null` of the items loop in `Merge` (line 51) can never be taken, since every entry filed by that loop has an item; `CompiledViews.ItemFiled` states this.
