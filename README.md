# depstat core in Dafny

depstat is a command-line tool that analyses the module dependencies of a Go
project. It reads the output of `go mod graph`, one `from@version to@version`
requirement per line. From that it builds a dependency overview: the main
modules, the module graph after minimal version selection has picked one
effective version per module, and the direct and transitive dependency lists.
The commands then query that overview:

- `stats` reports counts and the longest dependency chain;
- `cycles` reports every elementary cycle, optionally up to a maximum length, and a summary of them;
- `why` reports every path from a main module to one dependency, under a path budget;
- `graph` reports the topology view (nodes with degrees and breadth-first depth, sorted edges, top-N rankings) and all chains from a root;
- `diff` compares two overviews: added and removed dependencies and edges, test-only filtering, version changes, vendor-only removals, and the transitive reduction of the changed edges;
- the SVG renderer of `why` labels, escapes and colours the nodes;
- `archived` maps module paths to GitHub repositories.

The model has one Dafny module per Go file of the core: `Utils`, `Stats`,
`Cycles`, `CycleSummary`, `Why`, `Topology`, `Diff`, `WhySvg` and
`Archived`. They rest on shared modules:

- `Strings`: Go's byte-wise string order as `Less`, plus `Split`, `Join`, `Fields`, `Lines` and `Itoa`;
- `Seqs`: `NoDup`, `Dedup`, `Filter`, subsequences, and a sort `SortBy` proved sorted and a permutation;
- `Graphs`: adjacency maps, paths, acyclicity;
- `Johnson`: the cycle search as a function on values;
- `CappedJohnson`: the search as the source writes it, used for the finding below.

Code the source writes as loops over mutable state is modelled as methods with
loop invariants. Most are proved to compute a specification function exactly:
the scanner, the reachability pass of `generateGraph` and its collapse, the
detour search of `diff`, the Johnson search and the counters. Three are
specified by the properties of their results instead: the memoised chain
search, the Tarjan search for a component, and the breadth-first depth pass
of `graph`. The cycle finder is a class whose
`blocked` and `blockedMap` buffers are arrays. Pure helpers are functions.

## Model

| member | source | states |
|---|---|---|
| Utils.Contains | cmd/utils.go:113-120 | true exactly when the string is an element of the list |
| Utils.IsSliceSame | cmd/utils.go:123-133 | true exactly when the two lists are equal: same length, same element at each position |
| Utils.SliceContains | cmd/utils.go:135-142 | true exactly when the chain is one of the listed chains |
| Utils.ParseModule | cmd/utils.go:149-155 | the name never contains `@`; with an `@` present, name + "@" + version rebuilds the input; without one, the whole input is the name and the version is empty |
| Utils.ParseModuleRoundTrip | cmd/utils.go:149-155 | parsing `name@version` for an `@`-free name gives back exactly that name and version |
| Utils.GetAllDeps | cmd/utils.go:98-111 | the union is the direct list followed by the transitive list, each name kept at its first occurrence |
| Utils.AllDepsProperties | cmd/utils.go:98-111 | the union has no duplicates, holds exactly the names of either list, begins with the deduplicated direct list, and its length is the number of distinct names |
| Utils.LineRecord | cmd/utils.go:166-175 | a line yields at most one requirement, and never one whose requiring module is `go` or starts with `toolchain` |
| Utils.Records | cmd/utils.go:166-175 | no requirement read comes from a skipped module, and there are no more requirements than lines |
| Utils.RecordsSnoc | cmd/utils.go:166-175 | one more line adds exactly that line's requirement, or nothing for a skipped line |
| Utils.VersionedGraph | cmd/utils.go:189-194 | every list of the versioned graph is non-empty |
| Utils.VersionedGraphKeys | cmd/utils.go:189-194 | the versioned graph's keys are exactly the requiring modules read |
| Utils.VersionedGraphEdges | cmd/utils.go:193-194 | `t` is listed under `l` exactly when some line reads `l t` |
| Utils.RootCandidatesSpec | cmd/utils.go:176-182 | the roots are the first requiring module and every requiring module whose name is a main module, the first one first |
| Utils.ScanGraph | cmd/utils.go:166-195 | after the scanner loop: the roots deduplicated in first-seen order, the main modules (the given list, or the name of the first requiring module), the requiring modules in first-seen order, and the versioned graph in line order |
| Utils.GreatestVersionsUnique | cmd/utils.go:197-206 | there is only one table of greatest root versions |
| Utils.RaiseVersionStep | cmd/utils.go:199-205 | raising one entry to the greater version keeps the table of greatest versions over one more requirement |
| Utils.GreatestIsGreatest | cmd/utils.go:197-206 | the table built by raising one requirement at a time maps each required module to the greatest non-empty version required of it, in Go string order, and has no other entry |
| Utils.InitialEffectiveVersions | cmd/utils.go:197-206 | the loop over the roots and their requirements builds exactly that table of greatest versions |
| Utils.Enqueue | cmd/utils.go:237-240 | the queue grows by the targets of the requirements, in order |
| Utils.Visit | cmd/utils.go:221-240 | one turn of the pass takes the step the pass function takes, and keeps the invariant: versions only grow, each module is expanded once at its effective version, every queued module is justified |
| Utils.Pass | cmd/utils.go:220-241 | the pass as a function of queue, reached names and versions terminates and never forgets a reached name |
| Utils.EnqueueAll | cmd/utils.go:237-240 | the inner loop enqueues one entry per requirement of the module at its effective version |
| Utils.PassClosed | cmd/utils.go:220-241 | from any state of the invariant, the pass ends with every root reached, every reached module given an effective version, and every requirement of a reached module at that version reached |
| Utils.Reached | cmd/utils.go:213-241 | the pass from the roots' queue entries ends closed in that sense |
| Utils.Reach | cmd/utils.go:213-241 | the loop ends with exactly the reached names and versions of the pass from the roots, which are closed under the requirements at the effective versions |
| Utils.ReachDone | cmd/utils.go:213-241 | with the queue empty, the invariant gives closure under the requirements at the effective versions |
| Utils.KeptMembers | cmd/utils.go:243-254 | the requirements walked by the collapse are exactly those of a reached module at its effective version |
| Utils.AppendNew | cmd/utils.go:256-258 | the list gains the name once and loses nothing |
| Utils.FoldGraphLists | cmd/utils.go:254-258 | every list of the name graph is non-empty and has no duplicates |
| Utils.FoldGraph | cmd/utils.go:254-258 | the name graph has key `n` exactly when some kept requirement comes from `n`, and lists `t` under `n` exactly when one goes from `n` to `t` |
| Utils.FoldDirect | cmd/utils.go:262-268 | the direct list has no duplicates and holds exactly the targets of kept requirements from a main module that are not main modules |
| Utils.FoldTrans | cmd/utils.go:269-273 | the transitive list has no duplicates and holds exactly the targets of kept requirements from modules that are not main |
| Utils.CollapseEdge | cmd/utils.go:254-274 | one turn of the inner loop adds its requirement to graph and lists as the fold does |
| Utils.CollapseLhs | cmd/utils.go:253-275 | the inner loop adds every kept requirement of one requiring module |
| Utils.Collapse | cmd/utils.go:243-276 | the collapse loop yields the fold over the kept requirements, in first-seen order of the requiring modules |
| Utils.CollapseGraph | cmd/utils.go:243-258 | the name graph lists `t` under `n` exactly when `n` is reached and its effective version requires some version of `t`; its lists are non-empty and have no duplicates |
| Utils.CollapseLists | cmd/utils.go:260-274 | direct: the targets of main modules that are not main; transitive: the targets of modules that are not main; neither has duplicates |
| Utils.LhssKeys | cmd/utils.go:189-192 | the remembered requiring modules are exactly the versioned graph's keys |
| Utils.Effective | cmd/utils.go:197-241 | the pass from the roots, started from their greatest required versions, ends closed |
| Utils.Overview | cmd/utils.go:157-281 | the overview has the main modules; its graph lists what each reached module requires at its effective version; its direct and transitive lists classify those targets by whether a main module requires them |
| Utils.OneLineOverview | cmd/utils.go:157-281 | the one-line graph `A B` gives main module A, graph A→[B], direct list [B] and no transitive dependency |
| Utils.GenerateGraph | cmd/utils.go:157-281 | the method returns exactly the overview of the requirements read from the text |
| Stats.GetLongestChain | cmd/stats.go:100-133 | a memo hit returns the stored chain and leaves the memo alone; a leaf yields and stores `[cur]`; a module on the current chain yields nothing; otherwise it yields `cur` followed by the first longest child chain, and stores it; the memo only grows, and every stored chain is a simple path from its module; in an acyclic graph, every stored chain is a longest path |
| Stats.LongestChild | cmd/stats.go:121-129 | the loop over the children finds the first longest chain among them |
| Stats.VisitChild | cmd/stats.go:124-128 | one child replaces the best chain only when its chain is strictly longer |
| Stats.LongestChain | cmd/stats.go:49-53 | the chain starts at the root, follows edges and repeats no module; in an acyclic graph no path from the root is longer |
| Stats.NotOnChain | cmd/stats.go:116-119 | in an acyclic graph a neighbour of the chain's end is not on the chain, so the on-chain guard only matters for cycles |
| Stats.LeafOptimal | cmd/stats.go:108-114 | `[cur]` is a longest path from a module without edges |
| Stats.ConsOptimal | cmd/stats.go:121-131 | in an acyclic graph, the module followed by its first longest child chain is a longest path from it |
| Why.PathsSound | cmd/why.go:155-182 | every path reported from a module is a walk from it to the target that meets the target only at its end and avoids the visited modules |
| Why.PathsComplete | cmd/why.go:155-182 | every such walk is reported |
| Why.Cap | cmd/why.go:155-180 | the budget keeps earlier paths; with no budget it adds all; a full budget adds nothing; below the budget, the result never exceeds it |
| Why.CapAppend | cmd/why.go:176-180 | spending the budget on two batches in turn is the same as spending it on both together |
| Why.CapSaturated | cmd/why.go:156-158 | once the budget is reached, further batches leave the paths unchanged |
| Why.FindAllPaths | cmd/why.go:155-182 | the visited set is restored; the output gains the current path followed by each path from the module to the target, up to the budget |
| Why.Explore | cmd/why.go:160-181 | one call adds this module's paths to the output, up to the budget |
| Why.FindChild | cmd/why.go:171-181 | the loop over the neighbours adds their paths in order, up to the budget |
| Why.StopEarly | cmd/why.go:156-158 | once the budget is reached, further neighbours add nothing |
| Why.BudgetOfOneKeepsOnePath | cmd/why_test.go:11-22 | with two paths to the target and a budget of one, exactly one path is kept |
| Why.Occurrences | cmd/why.go:107-111 | a module is listed once for each time the target appears in its list: the result has that many entries, all equal to the module |
| Why.Dependents | cmd/why.go:105-112 | a module is listed exactly when it requires the target directly |
| Why.ScanList | cmd/why.go:107-111 | the inner loop lists the module for each occurrence of the target |
| Why.DirectDependents | cmd/why.go:105-112 | the loop lists the target's direct dependents |
| Why.AllPathsSound | cmd/why.go:115-123 | every collected path starts at a main module and is a walk to the target |
| Why.AllPathsComplete | cmd/why.go:115-123 | with no budget, every such walk from a main module is collected |
| Why.CollectPaths | cmd/why.go:116-123 | the loop over the main modules collects the paths under the shared budget, and sets the truncation flag exactly when the budget is reached |
| Why.Labelled | cmd/why.go:124-130 | a path is direct exactly when it has two modules and starts at a main module |
| Why.Label | cmd/why.go:124-130 | the loop labels each path as the rule above says |
| Why.WhyPathLessIsStrict | cmd/why.go:133-138 | shorter paths first, then by the joined text: a strict order |
| Why.RunWhy | cmd/why.go:76-139 | the target is found exactly when it is in one of the dependency lists; if not, nothing else is reported; if so, the sorted direct dependents, the labelled paths in the order above, their count, and truncation exactly when the budget was reached |
| Why.WhyFacts | cmd/why.go:105-139 | the direct dependents are sorted and are exactly the modules listing the target; the paths are sorted, within the budget, each a simple walk from a main module to the target, and direct exactly when they have two modules |
| Why.WhyComplete | cmd/why.go:115-123 | with no budget, every walk from a main module to the target is reported |
| Topology.InitDepth | cmd/graph.go:327-334 | each main module gets depth 0 and is queued once |
| Topology.Visit | cmd/graph.go:336-347 | one turn keeps the breadth-first invariant and never loses a depth |
| Topology.EnqueueNeighbours | cmd/graph.go:340-346 | the unseen neighbours of the front get the front's depth plus one and are queued in order |
| Topology.BfsDone | cmd/graph.go:336-347 | at the end, every depth is witnessed by a walk of that length from a main module, and no edge skips a level |
| Topology.ShortestDepthByModule | cmd/graph.go:325-349 | main modules have depth 0; every depth is witnessed by a walk from a main module; an edge adds at most one level |
| Topology.DepthIsShortest | cmd/graph.go:325-349 | every module a walk from a main module reaches has a depth, no greater than the walk's length |
| Topology.ListEdges | cmd/graph.go:293-297 | one edge per neighbour |
| Topology.CountList | cmd/graph.go:293-297 | the inner loop records an edge and one in-degree per neighbour |
| Topology.CountDegrees | cmd/graph.go:289-298 | the edge list is every key's neighbours in key order; the in-degree counts the edges into a module; the out-degree is the length of its list |
| Topology.OutCountEdgeList | cmd/graph.go:289-298 | a module's edges in the list are its adjacency length |
| Topology.MakeRows | cmd/graph.go:307-320 | one row per module, with its degrees, its depth (-1 when unreachable) and whether it is a main module |
| Topology.EdgeLessIsStrict | cmd/graph.go:299-304 | source first, then target: a strict order |
| Topology.NodeLessIsStrict | cmd/graph.go:321 | ordering rows by name is a strict order |
| Topology.BuildGraphTopology | cmd/graph.go:279-323 | the topology has the sorted edge list and the sorted rows of the graph's modules and main modules |
| Topology.TopologyFacts | cmd/graph.go:279-323 | edges are sorted and are exactly the graph's edges; rows are strictly increasing by name and cover the graph's modules and the main modules; the in-degrees and the out-degrees each sum to the number of edges |
| Topology.SumsTotal | cmd/graph.go:289-298 | in-degree and out-degree each sum to the number of edges |
| Topology.NodeDepth | cmd/graph.go:306-318 | a row is a main module exactly when its name is one; its depth is -1 exactly when no main module reaches it; otherwise it is the shortest walk length |
| Topology.RankByIsStrict | cmd/graph.go:365-376 | higher metric first, then name: a strict order |
| Topology.TopNByMetric | cmd/graph.go:362-381 | the result is the first `n` rows of the ranking, or all of them when there are fewer |
| Topology.TopNFacts | cmd/graph.go:362-381 | the top rows are sorted by the ranking, and no row left out ranks above one kept |
| Topology.BuildRankings | cmd/graph.go:351-360 | the in-degree list is filled only for modes "in" and "both", the out-degree list only for "out" and "both", each with the top `n` of its ranking |
| Topology.TopNLeader | cmd/graph.go:362-381 | the node that ranks before every other heads any non-empty ranking |
| Topology.RankingsExample | cmd/graph_topology_test.go:73-97 | of A (in 5, out 1), B (in 3, out 4), C (in 10, out 2), the top two by in-degree start with C, by out-degree with B, and a count of zero gives empty lists |
| Topology.ChainContains | cmd/graph.go:266-273 | true exactly when the module is on the chain |
| Topology.GetAllChains | cmd/graph.go:166-182 | the chains gathered are the chains already found followed by every chain from the root, in the source's order |
| Topology.ExtendAll | cmd/graph.go:169-178 | the loop over the neighbours gathers their chains in order |
| Topology.NextChains | cmd/graph.go:171-177 | a neighbour on the chain ends it; otherwise the chain goes on through it |
| Topology.ChainsSound | cmd/graph.go:166-182 | every chain starts at the root, is a simple path, and ends at a leaf or at a module whose neighbour is already on it |
| Topology.ChainsComplete | cmd/graph.go:166-182 | every such simple path is gathered |
| Topology.AllChainsExact | cmd/graph.go:166-182 | a sequence is gathered exactly when it is such a simple path from the root |
| Diff.DiffSlices | cmd/diff.go:391-405 | the result is never longer than the second list |
| Diff.DiffSlicesFacts | cmd/diff.go:391-405 | the result is sorted; it holds each element of the second list that is absent from the first, as often as it occurs there; membership is exactly "in the second, not in the first" |
| Diff.CompareLists | cmd/diff.go:240-241 | added: exactly the names in head and not base; removed: exactly the names in base and not head |
| Diff.CompareSwap | cmd/diff.go:240-243 | swapping base and head swaps added and removed, and no name is both |
| Diff.AdjTexts | cmd/diff.go:382-386 | one edge text per neighbour, in order |
| Diff.AppendTexts | cmd/diff.go:382-386 | the inner loop appends the module's edge texts |
| Diff.GetEdges | cmd/diff.go:380-389 | the edges are the graph's edge texts, sorted |
| Diff.EdgeTextsMembers | cmd/diff.go:380-389 | one text per edge, and each text is the text of an edge |
| Diff.GetEdgesFacts | cmd/diff.go:380-389 | the result is sorted, has one entry per edge, and holds exactly the texts of the graph's edges |
| Diff.SplitEdgeText | cmd/diff.go:317-331 | an edge text splits back into its two modules |
| Diff.FilterDepsByTestStatus | cmd/diff.go:304-313 | the result keeps the list's order and holds exactly the names whose test-only status is the one asked for |
| Diff.FilterDepsPartition | cmd/diff.go:304-313 | the test-only and the other names together are the list again |
| Diff.FilterEdgesByTestStatus | cmd/diff.go:317-331 | the result keeps the order and holds exactly the edges the test-only rule keeps |
| Diff.EdgeKeptEndpoints | cmd/diff.go:317-331 | an edge is test-only exactly when one of its endpoints is; a text that does not split into two parts is never kept |
| Diff.StatsDelta | cmd/diff.go:234-239 | adding the delta to the base gives head, and subtracting it from head gives base |
| Diff.CountsDelta | cmd/diff.go:269-273 | adding the delta to the base counts gives head |
| Diff.ComputeStats | cmd/diff.go:365-378 | direct and transitive counts are the list lengths; the total is the number of distinct names; the maximum depth is 0 without main modules, otherwise the length of a simple path from the first main module |
| Diff.ComputeFilteredCounts | cmd/diff.go:333-341 | the counts are those of the filtered lists, and the total is the number of distinct filtered names |
| Diff.FilteredTotals | cmd/diff.go:333-341 | the test-only and the other totals add up to the unfiltered total |
| Diff.PathLessIsStrict | cmd/diff.go:1052-1054 | ordering changes by module path is a strict order |
| Diff.ComputeVersionChanges | cmd/diff.go:1036-1056 | the changes are those of the modules of both overviews whose versions differ, sorted by path |
| Diff.ChangeListMembers | cmd/diff.go:1042-1051 | a change is listed exactly when its module is in both lists with different versions, carrying both versions |
| Diff.VersionChangesMembers | cmd/diff.go:1036-1056 | the same, for the sorted result over the two overviews |
| Diff.VersionChangesOrder | cmd/diff.go:1052-1054 | the result is strictly increasing by path, so each module appears once |
| Diff.ComputeVendorOnlyRemovals | cmd/diff.go:1141-1154 | the result is never longer than the vendor removals |
| Diff.VendorOnlyFacts | cmd/diff.go:1141-1154 | the result is sorted and holds each vendor removal whose path the graph did not remove, as often as it occurs |
| Diff.ReachableViaDiffPath | cmd/diff.go:984-1032 | true exactly when some walk from the source that does not start with the direct edge reaches the destination and crosses a diff edge; the states enqueued are distinct and each is reached by such a walk, and when the search fails they include the end state of every such walk |
| Diff.NoDiffEdgeNoReach | cmd/diff.go:984-1032 | with no diff edge in the graph, no destination counts as reachable |
| Diff.Within | cmd/diff.go:961-965 | a neighbour is kept exactly when it is a diff-relevant module |
| Diff.ProjectEdges | cmd/diff.go:958-966 | the subgraph has an edge exactly when the full graph has it between two diff-relevant modules |
| Diff.ProjectNode | cmd/diff.go:960-965 | a module gets an entry only when some neighbour is kept |
| Diff.ProjectGraph | cmd/diff.go:958-966 | the loop builds the projection of the full graph on the diff-relevant modules |
| Diff.WithoutEdge | cmd/diff.go:984-1032 | the graph without one step has every edge of the graph except that step |
| Diff.OtherIsWithout | cmd/diff.go:948-951 | a detour crossing a diff edge in the graph without the step is exactly another route that avoids the step and crosses a diff edge |
| Diff.CrossesOther | cmd/diff.go:948-951 | such a route crosses a diff edge other than the one reduced |
| Diff.ReachableViaOtherPath | cmd/diff.go:984-1032 | corrected search: true exactly when another route from the source that never takes the direct step reaches the destination and crosses a diff edge |
| Diff.OwnEdgeReused | cmd/diff.go:984-1032 | as written, the search counts a→x→a→b as a detour for a→b in {a:[x,b], x:[a]} with diff {a -> b} |
| Diff.OwnEdgeKept | cmd/diff.go:948-951 | in that graph no other route implies a→b, so the corrected reduction keeps it |
| Diff.ReuseReductions | cmd/diff.go:968-977 | on that graph the reduction as written drops a→b and the corrected reduction keeps it |
| Diff.TransitiveReduceEdges | cmd/diff.go:952-979 | the kept edges are the diff edges that split in two and that no other route through the subgraph implies (corrected search, see Findings) |
| Diff.ReducedFacts | cmd/diff.go:948-979 | the kept edges keep their order, and an edge is kept exactly when it splits in two and its destination cannot be reached from its source by another route that avoids the edge itself and crosses a diff edge |
| Cycles.IndexedByNumbering | cmd/cycles.go:139-157 | numbering the sorted nodes gives an index adjacency that matches the graph entry by entry |
| Cycles.ContainsInt | cmd/cycles.go:334-341 | true exactly when the value is in the list |
| Cycles.CollectKeys | cmd/cycles.go:121-124 | the node set is exactly the graph's keys |
| Cycles.AddAll | cmd/cycles.go:126-128 | the set gains exactly the listed modules |
| Cycles.CollectNodes | cmd/cycles.go:121-129 | the node set is every key and every listed module |
| Cycles.ListNodes | cmd/cycles.go:132-136 | every node appears once |
| Cycles.IndexNodes | cmd/cycles.go:139-142 | each node maps to its position in the list |
| Cycles.SetOfIndices | cmd/cycles.go:172-175 | the set holds exactly the component's indices |
| Cycles.CyclesFinder.constructor | cmd/cycles.go:144-157 | the finder starts with nothing blocked, an empty blocked map for each node, an empty stack and no cycles |
| Cycles.CyclesFinder.HasSelfLoop | cmd/cycles.go:265-273 | true exactly when the node has an edge to itself |
| Cycles.CyclesFinder.NameCycle | cmd/cycles.go:290-296 | the cycle names the stack's modules and then the start |
| Cycles.CyclesFinder.Unblock | cmd/cycles.go:323-331 | the arrays end as the value-level unblock says: the node is unblocked, its blocked list emptied and each node on it unblocked in turn |
| Cycles.CyclesFinder.RecordBlockers | cmd/cycles.go:309-315 | the node is recorded as blocked on each of its neighbours in the component |
| Cycles.CyclesFinder.Circuit | cmd/cycles.go:276-320 | the search from a node changes the state as the value-level search says, which reports only elementary cycles; this is the corrected search, see Findings |
| Cycles.CyclesFinder.ScanNeighbour | cmd/cycles.go:281-305 | one neighbour advances the scan as the value-level scan says, and the stack is restored |
| Cycles.CyclesFinder.FindSccContaining | cmd/cycles.go:184-262 | a non-empty result holds the start, indices from the start on, no index twice, and more than one node unless the start has a self-loop |
| Cycles.CyclesFinder.SearchFrom | cmd/cycles.go:164-177 | the circuits from a start, in the corrected search that never enters a neighbour still on the stack, add only elementary cycles and leave the stack empty; see Findings |
| Cycles.CyclesFinder.Reset | cmd/cycles.go:166-169 | the component's nodes are unblocked and their blocked lists emptied; every other node is left alone |
| Cycles.SccSearch.constructor | cmd/cycles.go:185-192 | the search starts with no indices |
| Cycles.SccSearch.StrongConnect | cmd/cycles.go:195-241 | the node gets an index; a component returned holds the start; otherwise the stack only grows |
| Cycles.SccSearch.Push | cmd/cycles.go:196-200 | the node gets an index and goes on the stack |
| Cycles.SccSearch.Finish | cmd/cycles.go:224-240 | a component returned holds the start; otherwise the stack is not popped below the node |
| Cycles.SccSearch.VisitNeighbour | cmd/cycles.go:202-221 | indices only grow; a component found holds the start |
| Cycles.SccSearch.PopComponent | cmd/cycles.go:225-234 | the stack is popped down to below the node, and the popped nodes are distinct and include it |
| Cycles.FindAllCyclesWithMaxLength | cmd/cycles.go:119-181 | every cycle reported closes on its first module, follows edges, repeats no module, starts at its smallest module, and has at most `maxLength` edges when a cap is set; it runs the corrected search, see Findings |
| Johnson.Initial | cmd/cycles.go:144-157 | nothing blocked, one empty blocked list per node, empty stack, no cycles |
| Johnson.Unblock | cmd/cycles.go:323-331 | the node is unblocked and its list emptied; no node becomes blocked; unblocked nodes other than it keep their lists; stack and cycles unchanged |
| Johnson.UnblockEach | cmd/cycles.go:325-330 | unblocking each listed node keeps the same guarantees |
| Johnson.Blockers | cmd/cycles.go:309-315 | a node is on a neighbour's list exactly when it was already there or the neighbour is in the component |
| Johnson.Names | cmd/cycles.go:290-295 | the path's modules by index |
| Johnson.Circuit | cmd/cycles.go:276-320 | the search restores the stack and only adds cycles |
| Johnson.Scan | cmd/cycles.go:281-305 | the scan, which also skips a neighbour still on the stack (corrected search, see Findings), restores the stack and only adds cycles |
| Johnson.Report | cmd/cycles.go:289-299 | a cycle reported from a simple walk back to the start is elementary and starts at the start's module |
| Johnson.CircuitSound | cmd/cycles.go:276-320 | every cycle the corrected search adds, never entering a neighbour still on the stack, is elementary and starts at the start's module; see Findings |
| Johnson.ScanSound | cmd/cycles.go:281-305 | the same for the corrected scan over the neighbours |
| Johnson.ScanReport | cmd/cycles.go:288-299 | the edge back to the start reports an elementary cycle |
| Johnson.ScanEnter | cmd/cycles.go:300-303 | entering an unblocked neighbour that is not on the stack keeps the stack a simple walk; cmd/cycles.go:300 does not test the stack, see Findings |
| Johnson.NamesNoDup | cmd/cycles.go:290-295 | distinct indices name distinct modules |
| Johnson.NamesPath | cmd/cycles.go:290-295 | a walk over indices names a path in the graph |
| Johnson.SortedLeast | cmd/cycles.go:132-142 | the start, taken from a list sorted by name, is the smallest module of the cycle |
| Johnson.AcyclicNoCycle | cmd/cycles.go:119-181 | an acyclic graph has no elementary cycle |
| CappedJohnson.CircuitAsWritten | cmd/cycles.go:276-320 | the search exactly as written restores the stack and only adds cycles |
| CappedJohnson.ScanAsWritten | cmd/cycles.go:281-305 | the scan exactly as written restores the stack and only adds cycles |
| CappedJohnson.ExampleSetting | cmd/cycles.go:132-142 | the five-module example is numbered and sorted as the finder sets it up |
| CappedJohnson.AsWrittenRepeatsModule | cmd/cycles.go:300-303 | on the five-module example with cap 4, the search as written reports a→c→c→e→a, which is not elementary |
| CappedJohnson.CorrectedIsElementary | cmd/cycles.go:300-303 | on the same example the corrected search reports only elementary cycles |
| CycleSummary.Visits | cmd/cycles.go:356-362 | a cycle visits its modules once, without the closing repeat |
| CycleSummary.CountLength | cmd/cycles.go:353-354 | the count never exceeds the number of cycles |
| CycleSummary.ByLengthCounts | cmd/cycles.go:353-354 | the table has an entry for a length exactly when some cycle has it, holding the number of such cycles |
| CycleSummary.ByLengthKeys | cmd/cycles.go:353-354 | every key is the length of some cycle |
| CycleSummary.PartsAppear | cmd/cycles.go:356-362 | a module participates exactly when some cycle visits it |
| CycleSummary.CountsSnoc | cmd/cycles.go:356-362 | one more cycle adds one to the count of each module it visits |
| CycleSummary.Pair | cmd/cycles.go:364-374 | the two modules of a two-node cycle in name order |
| CycleSummary.TwoNode | cmd/cycles.go:364-374 | each entry has two modules |
| CycleSummary.TwoNodeSound | cmd/cycles.go:364-374 | the pairs have no duplicates, are in name order, and each comes from a two-node cycle |
| CycleSummary.TwoNodeComplete | cmd/cycles.go:364-374 | every two-node cycle's pair is listed |
| CycleSummary.PairLessIsStrict | cmd/cycles.go:377-382 | ordering pairs by first then second module is a strict order |
| CycleSummary.RankLessIsStrict | cmd/cycles.go:390-396 | higher count first, then name: a strict order |
| CycleSummary.Listing | cmd/cycles.go:384-389 | one participant per module, with its count |
| CycleSummary.ListingMember | cmd/cycles.go:384-389 | a participant is listed exactly when its module is and it carries that module's count |
| CycleSummary.ModulesDistinct | cmd/cycles.go:384-389 | no module is listed twice |
| CycleSummary.CountModules | cmd/cycles.go:357-361 | each visited module gains one |
| CycleSummary.Tally | cmd/cycles.go:352-375 | one cycle updates the length table, the pairs and the participant counts as the summary prescribes |
| CycleSummary.TallyAll | cmd/cycles.go:352-375 | the loop over the cycles yields the length table, the pairs and the participant counts of all of them |
| CycleSummary.ListParticipants | cmd/cycles.go:384-389 | the loop lists each module with its count |
| CycleSummary.Summarize | cmd/cycles.go:343-407 | the summary counts every cycle and lists at most topN participants, never more than there are modules |
| CycleSummary.SummarizeCycles | cmd/cycles.go:343-407 | the summary is the total, the length table, the sorted pairs and the top participants |
| CycleSummary.TwoNodeOutput | cmd/cycles.go:364-382 | the reported pairs are sorted, distinct, in name order, and each comes from a two-node cycle |
| CycleSummary.RankingShape | cmd/cycles.go:390-399 | the top participants are the first `topN` of the ranking, sorted |
| CycleSummary.RankingEntries | cmd/cycles.go:384-399 | the top participants are distinct participating modules, each with the number of cycles it appears in |
| CycleSummary.RankingCutoff | cmd/cycles.go:390-399 | a participant left out ranks below every one kept |
| CycleSummary.RankingLeader | cmd/cycles.go:390-399 | with topN at least one, no participant ranks above the first one listed |
| CycleSummary.RankingIndependent | cmd/cycles.go:384-399 | the summary does not depend on the order in which the map of counts is walked |
| CycleSummary.MixedParts | cmd/cycles_summary_test.go:36-56 | in the mixed example, A, B and C appear in two cycles and D in one |
| CycleSummary.MixedTally | cmd/cycles_summary_test.go:36-56 | the mixed example has two cycles of length 2, one of length 3, and two pairs |
| CycleSummary.MixedLeader | cmd/cycles_summary_test.go:52-55 | A leads the mixed example with two cycles |
| CycleSummary.SummarizeMixed | cmd/cycles_summary_test.go:36-56 | the summary of the mixed example as the test expects it |
| CycleSummary.SummarizeReversed | cmd/cycles_summary_test.go:58-78 | a cycle and its reverse yield one pair |
| CycleSummary.SummarizeDisjoint | cmd/cycles_summary_test.go:80-91 | a cap of two keeps two participants |
| WhySvg.DomainBeforeSlash | cmd/why_svg.go:296-299 | the domain is the part before the first slash and contains no slash |
| WhySvg.ClassifyNodeColor | cmd/why_svg.go:269-287 | the target colour is given exactly to the target, and the main colour exactly to a main module that is not the target |
| WhySvg.ClassifyPriority | cmd/why_svg.go:269-287 | target colour exactly for the target; main colour exactly for a main module that is not the target; same-organisation colour exactly for other modules sharing the first main module's domain; the default otherwise |
| WhySvg.AbbreviateModule | cmd/why_svg.go:289-310 | a label is never longer than 38 characters |
| WhySvg.AbbreviateShort | cmd/why_svg.go:290-293 | a short path is kept as it is |
| WhySvg.AbbreviateSameOrg | cmd/why_svg.go:295-306 | a long path of the main module's organisation loses its domain when what remains fits |
| WhySvg.AbbreviateMiddle | cmd/why_svg.go:308-309 | otherwise a long path keeps its first and last 17 characters around "..." |
| WhySvg.XmlEscape | cmd/why_svg.go:339-345 | the result has no `<`, `>` or `"`, and text without special characters is unchanged |
| WhySvg.EscapeLeavesNone | cmd/why_svg.go:339-345 | after the four replacements no `<`, `>` or `"` is left |
| WhySvg.XmlEscapeEach | cmd/why_svg.go:339-345 | the four replacements in turn escape each character on its own |
| WhySvg.EscapeOne | cmd/why_svg.go:339-345 | a single character is escaped as its entity, or kept |
| WhySvg.UnescapeEscape | cmd/why_svg.go:339-345 | unescaping the escaped text gives back the original, so no information is lost |
| WhySvg.UnescapeEach | cmd/why_svg.go:339-345 | the same, character by character |
| WhySvg.UnescapeChar | cmd/why_svg.go:339-345 | unescaping undoes one escaped character |
| Archived.IsAllDigits | cmd/archived.go:313-320 | true exactly when every character is a decimal digit |
| Archived.VersionTest | cmd/archived.go:306-309 | the repository check is exactly "v followed by at least one digit and only digits" |
| Archived.ExtractGitHubRepo | cmd/archived.go:298-311 | a path with fewer than three segments gives no repository; a repository is given only when the third segment is not a version suffix |
| Archived.ExtractCases | cmd/archived.go:298-311 | fewer than three segments, or a version-suffix third segment, give "", otherwise owner/repo, which splits back into the two |
| Archived.ExtractJoin | cmd/archived.go:298-311 | for slash-free segments, the repository is owner/repo unless the third segment is a version suffix |
| Archived.GolangMirror | cmd/archived.go:81-90 | there is no mirror exactly when the path has fewer than three segments; a mirror always starts with `golang/` |
| Archived.GolangMirrorJoin | cmd/archived.go:81-90 | a golang.org/x/ module maps to golang/ followed by its third segment |
| Archived.GolangMirrorShort | cmd/archived.go:81-90 | a path with fewer than three segments has no mirror |
| Archived.ResolveOffline | cmd/archived.go:356-368 | golang.org/x/ modules resolve to their mirror, skipped prefixes resolve to nothing, and only other paths need a lookup |
| Archived.GolangXResolves | cmd/archived.go:356-362 | a golang.org/x/ module always has three segments and resolves to golang/ followed by its third segment |
| Archived.SplitConcat | cmd/archived.go:298-299 | splitting at slashes takes a slash-free first segment off the front |

## Left out

- Reading files, running `go mod graph`, the network, the terminal and the JSON, DOT, SVG and Mermaid output are left out. The model starts from the lines and a graph value.
- resolveVanityURLs and the HTTP part of resolveOneVanityURL are left out: they fetch pages over the network. Only the offline decision is modelled, as Archived.ResolveOffline.
- assignLayers, svgBezierPath and the SVG layout are left out. They are floating-point drawing code; the layering loop has no termination measure in the source.
- listAllModules, computeVendorDiff, filterVersionChangesByTestStatus, buildSplitSection, the git helpers and the older commands are left out. They sit outside the modelled core.
- Go map iteration order is random. Where it shows through, it is a parameter: the order of the requiring modules in Topology.CountDegrees and Diff.GetEdges, and the participant order in CycleSummary.SummarizeCycles, where CycleSummary.RankingIndependent proves the result does not depend on it.
- sort.Slice and sort.Strings are not stable, so the source leaves the order of equal keys unspecified. The model uses one stable sort. Ties only arise among equal items.
- Module paths are taken as ASCII, so byte length is character length, in isAllDigits, abbreviateModule and extractGitHubRepo.
- Utils.GenerateGraph requires every line to have a first field, and a second field unless its module is `go` or starts with `toolchain`. The source indexes both fields without checking, so a shorter line panics there.
- Utils.GenerateGraph: minimal version selection compares versions by Go string order, as the source does, and not by semantic version.
- CycleSummary.SummarizeCycles requires topN >= 0; the source slices with it and panics otherwise. Topology.TopNByMetric and Topology.BuildRankings take `n` as a natural number for the same reason.
- CycleSummary.TwoNodeComplete requires that no module name contains `|`. The source's dedup key joins names with `|`, so such names could collide.
- Diff.SplitEdgeText, Diff.EdgeKeptEndpoints: edge texts split back into their endpoints only when module paths contain no space, as Go module paths never do.
- Diff.ComputeVersionChanges takes the version maps of the two overviews as explicit arguments. The source reads a version field that the overview struct of the modelled files does not declare.
- Diff.TransitiveReduceEdges runs the corrected detour search, where cmd/diff.go:972 runs the source's. It therefore keeps an edge that the source drops when the only detour takes that edge again, as in the cmd/diff.go:984-1032 row of Findings. The source's reduction is Diff.ReducedAsWritten, and Diff.ReuseReductions shows the two differ.
- Diff.TransitiveReduceEdges takes the diff-relevant modules as a set. The source's map only ever holds `true`.
- Cycles.CyclesFinder.FindSccContaining proves that a non-empty result holds the start, has distinct indices from the start on, and has more than one node unless there is a self-loop. It does not prove that the result is exactly the strongly connected component.
- Cycles.FindAllCyclesWithMaxLength proves that every reported cycle is elementary and within the cap. It does not prove that every such cycle is reported.
- Cycles.CyclesFinder: blockedMap holds one list per node, in insertion order and without duplicates, where the source holds a map used as a set. Only membership is ever read.
- Utils.GenerateGraph reads every line of the text. The source's line scanner stops without an error on a line longer than 64 KiB, and its error is never checked (cmd/utils.go:162-166), so the source then builds the overview from the lines before it.
- Johnson.Circuit, Johnson.Scan, Johnson.CircuitSound, Johnson.ScanSound, Johnson.ScanEnter, Cycles.CyclesFinder.Circuit, Cycles.CyclesFinder.ScanNeighbour, Cycles.CyclesFinder.SearchFrom, Cycles.FindAllCyclesWithMaxLength: the guard that skips a neighbour still on the stack is applied whether or not a length cap is set; the source has no such guard (cmd/cycles.go:300). Without a cap, Johnson's blocking keeps every node on the stack blocked, so the guard should never fire there, but that is not proved: the model's search and the source's are not proved equal even without a cap.
- Topology: the depth and degree values expected by cmd/graph_topology_test.go are not stated as lemmas. Depths and degrees come from methods with no value-level counterpart evaluated on a concrete graph; the ranking expectations are, as Topology.RankingsExample.
- Stats: the expected chain lengths in the source's utils tests are not stated as lemmas. The chain search is a method, and no specification function evaluates it on a concrete graph.
- Cycles: the three-cycle example of TestFindAllCyclesWithMaxLength, cmd/cycles_summary_test.go:5-34, is not traced. It runs through the Tarjan method, which has no value-level counterpart here. The Johnson search on its component could be evaluated step by step, as CappedJohnson does for its example, but that is not done.

## Findings

| source | as written | input that shows it | evidently intended | confidence | as-written member | corrected member |
|---|---|---|---|---|---|---|
| cmd/cycles.go:300-303 | With a length cap set, a module blocked only because of the cap sits in a blocked map. It can then be unblocked by a cascade while it is still on the stack, and the recursion enters it again. | graph a:[e,c], b:[a], c:[e,b,c], d:[a,c], e:[a,d] with maxLength 4: the search from a reports a→c→c→e→a | only elementary cycles are reported, so a neighbour still on the stack is never entered | not executed | CappedJohnson.AsWrittenRepeatsModule | CappedJohnson.CorrectedIsElementary |
| cmd/diff.go:984-1032 | The detour search only refuses the direct step as the first move. A later move may take that step, and the step may be the diff edge the walk crosses, so an edge can be implied by a walk through itself and is dropped. | graph a:[x,b], x:[a] with diff edges {a -> b}: the walk a→x→a→b counts as a detour, so a→b is removed although it is the only route from a to b | an edge is dropped only when another route, never taking the edge itself, implies it | not executed | Diff.OwnEdgeReused | Diff.OwnEdgeKept |
