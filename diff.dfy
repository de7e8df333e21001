/**
 The comparison engine of `cmd/diff.go`: set differences between two
 snapshots of the dependency lists and of their `"from -> to"` edge
 strings, the test-only filters, the statistics and their deltas,
 version-change detection, and the transitive reduction of diff edges
 through the diff-relevant subgraph.
 */
module Diff {
  import opened Strings
  import opened Seqs
  import opened Graphs
  import Utils
  import Stats

  // ---------------------------------------------------------------------
  // diffSlices

  /** `diffSlices(a, b)`: the entries of `b` that are not in `a`, duplicates kept, sorted. */
  function DiffSlices(a: seq<string>, b: seq<string>): (r: seq<string>)
    ensures |r| <= |b|
  {
    SortBy(Filter(b, x => x !in a), Less)
  }

  lemma DiffSlicesFacts(a: seq<string>, b: seq<string>)
    ensures Sorted(DiffSlices(a, b), Less)
    ensures forall x :: multiset(DiffSlices(a, b))[x] == if x in a then 0 else multiset(b)[x]
    ensures forall x :: x in DiffSlices(a, b) <==> x in b && x !in a
  {
    var kept := Filter(b, x => x !in a);
    LessIsStrict();
    SortBySorted(kept, Less);
    forall x ensures multiset(DiffSlices(a, b))[x] == if x in a then 0 else multiset(b)[x] {
      FilterCount(b, x => x !in a, x);
    }
  }

  /** The module lists the two snapshots differ by. */
  datatype ListDiff = ListDiff(added: seq<string>, removed: seq<string>)

  /** Added is `diffSlices(base, head)` and Removed is `diffSlices(head, base)`. */
  function CompareLists(base: seq<string>, head: seq<string>): (r: ListDiff)
    ensures forall x :: x in r.added <==> x in head && x !in base
    ensures forall x :: x in r.removed <==> x in base && x !in head
  {
    DiffSlicesFacts(base, head);
    DiffSlicesFacts(head, base);
    ListDiff(DiffSlices(base, head), DiffSlices(head, base))
  }

  /** Swapping the snapshots swaps what was added and what was removed; nothing is both. */
  lemma CompareSwap(base: seq<string>, head: seq<string>)
    ensures CompareLists(head, base) == ListDiff(CompareLists(base, head).removed, CompareLists(base, head).added)
    ensures forall x :: !(x in CompareLists(base, head).added && x in CompareLists(base, head).removed)
  {
  }

  // ---------------------------------------------------------------------
  // getEdges

  /** The string `getEdges` prints for one edge. */
  function EdgeText(from: string, to: string): string
  {
    from + " -> " + to
  }

  function AdjTexts(from: string, tos: seq<string>): (r: seq<string>)
    ensures |r| == |tos|
    ensures forall i :: 0 <= i < |tos| ==> r[i] == EdgeText(from, tos[i])
  {
    seq(|tos|, i requires 0 <= i < |tos| => EdgeText(from, tos[i]))
  }

  /** One string per adjacency entry, in the order `keys` visits the graph. */
  function EdgeTexts(g: Graph, keys: seq<string>): seq<string>
  {
    if keys == [] then []
    else EdgeTexts(g, keys[..|keys| - 1]) + AdjTexts(keys[|keys| - 1], Adj(g, keys[|keys| - 1]))
  }

  /** The number of adjacency entries of the keys in `keys`. */
  function AdjTotal(g: Graph, keys: seq<string>): nat
  {
    if keys == [] then 0 else AdjTotal(g, keys[..|keys| - 1]) + |Adj(g, keys[|keys| - 1])|
  }

  /** `getEdges`: every adjacency entry as a `"from -> to"` string, sorted. */
  method GetEdges(g: Graph, keys: seq<string>) returns (edges: seq<string>)
    requires NoDup(keys) && forall k :: k in keys <==> k in g
    ensures edges == SortBy(EdgeTexts(g, keys), Less)
  {
    var all: seq<string> := [];
    for i := 0 to |keys|
      invariant all == EdgeTexts(g, keys[..i])
    {
      assert keys[..i + 1][..i] == keys[..i];
      all := AppendTexts(all, keys[i], g[keys[i]]);
    }
    assert keys[..|keys|] == keys;
    edges := SortBy(all, Less);
  }

  /** The inner loop of `getEdges`: the strings for one module's entries. */
  method AppendTexts(all: seq<string>, from: string, tos: seq<string>) returns (all': seq<string>)
    ensures all' == all + AdjTexts(from, tos)
  {
    all' := all;
    for j := 0 to |tos|
      invariant all' == all + AdjTexts(from, tos[..j])
    {
      assert AdjTexts(from, tos[..j + 1]) == AdjTexts(from, tos[..j]) + [EdgeText(from, tos[j])];
      all' := all' + [EdgeText(from, tos[j])];
    }
    assert tos[..|tos|] == tos;
  }

  lemma {:induction false} EdgeTextsMembers(g: Graph, keys: seq<string>)
    ensures |EdgeTexts(g, keys)| == AdjTotal(g, keys)
    ensures forall a, b :: a in keys && Edge(g, a, b) ==> EdgeText(a, b) in EdgeTexts(g, keys)
    ensures forall e :: e in EdgeTexts(g, keys) ==> exists a, b :: a in keys && Edge(g, a, b) && e == EdgeText(a, b)
    decreases |keys|
  {
    if keys != [] {
      var init, k := keys[..|keys| - 1], keys[|keys| - 1];
      EdgeTextsMembers(g, init);
      var ts := AdjTexts(k, Adj(g, k));
      forall a, b | a in keys && Edge(g, a, b) ensures EdgeText(a, b) in EdgeTexts(g, keys) {
        if a == k {
          var j :| 0 <= j < |Adj(g, k)| && Adj(g, k)[j] == b;
          assert ts[j] == EdgeText(a, b);
        } else {
          assert a in init;
        }
      }
      forall e | e in EdgeTexts(g, keys) ensures exists a, b :: a in keys && Edge(g, a, b) && e == EdgeText(a, b) {
        if e !in EdgeTexts(g, init) {
          var j :| 0 <= j < |ts| && ts[j] == e;
          assert Edge(g, k, Adj(g, k)[j]);
        }
      }
    }
  }

  /** `getEdges` is sorted, has one string per adjacency entry, and names exactly the graph's edges. */
  lemma GetEdgesFacts(g: Graph, keys: seq<string>)
    requires forall k :: k in keys <==> k in g
    ensures var r := SortBy(EdgeTexts(g, keys), Less);
      && Sorted(r, Less)
      && |r| == AdjTotal(g, keys)
      && (forall a, b :: Edge(g, a, b) ==> EdgeText(a, b) in r)
      && (forall e :: e in r ==> exists a, b :: Edge(g, a, b) && e == EdgeText(a, b))
  {
    var all := EdgeTexts(g, keys);
    LessIsStrict();
    SortBySorted(all, Less);
    SortByMembers(all, Less);
    EdgeTextsMembers(g, keys);
  }

  // ---------------------------------------------------------------------
  // Splitting an edge string

  /** Module paths printed by `go mod graph` hold no spaces. */
  predicate NoSpace(s: string)
  {
    ' ' !in s
  }

  /** `strings.Split(edge, " -> ")` gives the two endpoints back. */
  lemma SplitEdgeText(a: string, b: string)
    requires NoSpace(a) && NoSpace(b)
    ensures Split(EdgeText(a, b), " -> ") == [a, b]
  {
    var s := EdgeText(a, b);
    var sep := " -> ";
    assert s[|a|..|a| + 4] == sep;
    assert OccursAt(s, sep, |a|);
    forall j | 0 <= j < |a| ensures !OccursAt(s, sep, j) {
      assert s[j] == a[j] && s[j..j + 4][0] == s[j];
    }
    var i := Index(s, sep);
    assert i == |a|;
    assert s[..i] == a && s[i + |sep|..] == b;
    forall j | 0 <= j && j + 4 <= |b| ensures !OccursAt(b, sep, j) {
      assert b[j..j + 4][0] == b[j];
    }
    assert Split(b, sep) == [b];
  }

  // ---------------------------------------------------------------------
  // Test-only filters

  /** `testOnlySet[dep]`, false for a missing key. */
  function TestOnly(testOnlySet: map<string, bool>, dep: string): bool
  {
    dep in testOnlySet && testOnlySet[dep]
  }

  /** `filterDepsByTestStatus`: the entries whose test-only flag is `want`, in order. */
  function FilterDepsByTestStatus(deps: seq<string>, testOnlySet: map<string, bool>, want: bool): (r: seq<string>)
    ensures Subsequence(r, deps)
    ensures forall d :: d in r <==> d in deps && TestOnly(testOnlySet, d) == want
  {
    FilterSubsequence(deps, d => TestOnly(testOnlySet, d) == want);
    Filter(deps, d => TestOnly(testOnlySet, d) == want)
  }

  /** The two filters split a list between them, copies included. */
  lemma FilterDepsPartition(deps: seq<string>, testOnlySet: map<string, bool>)
    ensures multiset(FilterDepsByTestStatus(deps, testOnlySet, true)) + multiset(FilterDepsByTestStatus(deps, testOnlySet, false)) == multiset(deps)
    ensures |FilterDepsByTestStatus(deps, testOnlySet, true)| + |FilterDepsByTestStatus(deps, testOnlySet, false)| == |deps|
  {
    FilterPartition(deps, d => TestOnly(testOnlySet, d) == true, d => TestOnly(testOnlySet, d) == false);
  }

  /** An edge string is kept when it splits into two parts and either endpoint's test-only flag is `want`. */
  predicate EdgeKept(edge: string, testOnlySet: map<string, bool>, want: bool)
  {
    var parts := Split(edge, " -> ");
    |parts| == 2 && (TestOnly(testOnlySet, parts[0]) || TestOnly(testOnlySet, parts[1])) == want
  }

  /** `filterEdgesByTestStatus`: the well-formed edges whose test-only status is `want`, in order. */
  function FilterEdgesByTestStatus(edges: seq<string>, testOnlySet: map<string, bool>, want: bool): (r: seq<string>)
    ensures Subsequence(r, edges)
    ensures forall e :: e in r <==> e in edges && EdgeKept(e, testOnlySet, want)
  {
    FilterSubsequence(edges, e => EdgeKept(e, testOnlySet, want));
    Filter(edges, e => EdgeKept(e, testOnlySet, want))
  }

  /** For a printed edge, the filter looks at its two endpoints; a string that does not split in two is in neither list. */
  lemma EdgeKeptEndpoints(a: string, b: string, edge: string, testOnlySet: map<string, bool>, want: bool)
    requires NoSpace(a) && NoSpace(b)
    ensures EdgeKept(EdgeText(a, b), testOnlySet, want) <==> (TestOnly(testOnlySet, a) || TestOnly(testOnlySet, b)) == want
    ensures |Split(edge, " -> ")| != 2 ==> edge !in FilterEdgesByTestStatus([edge], testOnlySet, true) + FilterEdgesByTestStatus([edge], testOnlySet, false)
  {
    SplitEdgeText(a, b);
  }

  // ---------------------------------------------------------------------
  // Statistics and deltas

  datatype DiffStats = DiffStats(directDeps: int, transDeps: int, totalDeps: int, maxDepth: int)

  datatype DiffCounts = DiffCounts(directDeps: int, transDeps: int, totalDeps: int)

  function AddStats(a: DiffStats, d: DiffStats): DiffStats
  {
    DiffStats(a.directDeps + d.directDeps, a.transDeps + d.transDeps, a.totalDeps + d.totalDeps, a.maxDepth + d.maxDepth)
  }

  function AddCounts(a: DiffCounts, d: DiffCounts): DiffCounts
  {
    DiffCounts(a.directDeps + d.directDeps, a.transDeps + d.transDeps, a.totalDeps + d.totalDeps)
  }

  /** The `Delta` of a diff: after minus before, field by field. */
  function StatsDelta(before: DiffStats, after: DiffStats): (d: DiffStats)
    ensures AddStats(before, d) == after
    ensures AddStats(after, StatsDeltaNeg(d)) == before
  {
    DiffStats(after.directDeps - before.directDeps, after.transDeps - before.transDeps,
              after.totalDeps - before.totalDeps, after.maxDepth - before.maxDepth)
  }

  function StatsDeltaNeg(d: DiffStats): DiffStats
  {
    DiffStats(-d.directDeps, -d.transDeps, -d.totalDeps, -d.maxDepth)
  }

  /** The `FilteredDelta` of a diff: after minus before, field by field. */
  function CountsDelta(before: DiffCounts, after: DiffCounts): (d: DiffCounts)
    ensures AddCounts(before, d) == after
  {
    DiffCounts(after.directDeps - before.directDeps, after.transDeps - before.transDeps,
               after.totalDeps - before.totalDeps)
  }

  /** `computeStats`: the list lengths, the deduplicated total and the longest chain from the first main module. */
  method ComputeStats(dep: Utils.DependencyOverview) returns (s: DiffStats)
    ensures s.directDeps == |dep.directDepList| && s.transDeps == |dep.transDepList|
    ensures s.totalDeps == |set d | d in dep.directDepList + dep.transDepList|
    ensures dep.mainModules == [] ==> s.maxDepth == 0
    ensures dep.mainModules != [] ==>
      s.maxDepth >= 1 &&
      exists chain :: IsPath(dep.graph, chain) && NoDup(chain) && chain[0] == dep.mainModules[0] && |chain| == s.maxDepth
    ensures dep.mainModules != [] && Acyclic(dep.graph) ==>
      forall p :: IsPath(dep.graph, p) && p[0] == dep.mainModules[0] ==> |p| <= s.maxDepth
  {
    var maxDepth := 0;
    if |dep.mainModules| > 0 {
      var longest := Stats.LongestChain(dep.mainModules[0], dep.graph);
      maxDepth := |longest|;
    }
    var all := Utils.GetAllDeps(dep.directDepList, dep.transDepList);
    Utils.AllDepsProperties(dep.directDepList, dep.transDepList);
    s := DiffStats(|dep.directDepList|, |dep.transDepList|, |all|, maxDepth);
  }

  /** `computeFilteredCounts`: the lengths of the filtered lists and of their deduplicated union. */
  method ComputeFilteredCounts(dep: Utils.DependencyOverview, testOnlySet: map<string, bool>, want: bool)
    returns (c: DiffCounts)
    ensures c.directDeps == |FilterDepsByTestStatus(dep.directDepList, testOnlySet, want)|
    ensures c.transDeps == |FilterDepsByTestStatus(dep.transDepList, testOnlySet, want)|
    ensures c.totalDeps == |set d | d in dep.directDepList + dep.transDepList && TestOnly(testOnlySet, d) == want|
  {
    var direct := FilterDepsByTestStatus(dep.directDepList, testOnlySet, want);
    var trans := FilterDepsByTestStatus(dep.transDepList, testOnlySet, want);
    var all := Utils.GetAllDeps(direct, trans);
    Utils.AllDepsProperties(direct, trans);
    assert (set d | d in direct + trans) == (set d | d in dep.directDepList + dep.transDepList && TestOnly(testOnlySet, d) == want);
    c := DiffCounts(|direct|, |trans|, |all|);
  }

  /** The test-only and the other totals add up to the unfiltered total. */
  lemma FilteredTotals(deps: seq<string>, testOnlySet: map<string, bool>)
    ensures |set d | d in deps && TestOnly(testOnlySet, d) == true| + |set d | d in deps && TestOnly(testOnlySet, d) == false|
         == |set d | d in deps|
  {
    var t := set d | d in deps && TestOnly(testOnlySet, d) == true;
    var f := set d | d in deps && TestOnly(testOnlySet, d) == false;
    assert (set d | d in deps) == t + f;
    assert t * f == {};
  }

  // ---------------------------------------------------------------------
  // computeVersionChanges

  datatype VersionChange = VersionChange(path: string, before: string, after: string)

  /** `Versions[dep]`, empty for a missing key. */
  function Version(versions: map<string, string>, dep: string): string
  {
    if dep in versions then versions[dep] else ""
  }

  /** Both versions are known and they differ. */
  predicate Changed(baseVersions: map<string, string>, headVersions: map<string, string>, dep: string)
  {
    Version(baseVersions, dep) != "" && Version(headVersions, dep) != "" && Version(baseVersions, dep) != Version(headVersions, dep)
  }

  /** The changes found while scanning `deps`, before sorting. */
  function ChangeList(deps: seq<string>, headDeps: seq<string>,
                      baseVersions: map<string, string>, headVersions: map<string, string>): seq<VersionChange>
  {
    if deps == [] then []
    else
      var dep := deps[|deps| - 1];
      ChangeList(deps[..|deps| - 1], headDeps, baseVersions, headVersions) +
        if dep in headDeps && Changed(baseVersions, headVersions, dep)
        then [VersionChange(dep, Version(baseVersions, dep), Version(headVersions, dep))]
        else []
  }

  lemma ChangeListSnoc(deps: seq<string>, i: int, headDeps: seq<string>,
                       baseVersions: map<string, string>, headVersions: map<string, string>)
    requires 0 <= i < |deps|
    ensures var dep := deps[i];
      ChangeList(deps[..i + 1], headDeps, baseVersions, headVersions) ==
        ChangeList(deps[..i], headDeps, baseVersions, headVersions) +
        if dep in headDeps && Changed(baseVersions, headVersions, dep)
        then [VersionChange(dep, Version(baseVersions, dep), Version(headVersions, dep))]
        else []
  {
    assert deps[..i + 1][..i] == deps[..i];
  }

  predicate PathLess(a: VersionChange, b: VersionChange)
  {
    Less(a.path, b.path)
  }

  lemma PathLessIsStrict()
    ensures StrictOrder(PathLess)
  {
    forall a ensures !PathLess(a, a) {
      LessIrreflexive(a.path);
    }
    forall a, b, c | PathLess(a, b) && PathLess(b, c) ensures PathLess(a, c) {
      LessTransitive(a.path, b.path, c.path);
    }
  }

  /**
   `computeVersionChanges` over explicit version maps: the modules of
   both snapshots whose versions are known and differ, by path.
   */
  method ComputeVersionChanges(base: Utils.DependencyOverview, head: Utils.DependencyOverview,
                               baseVersions: map<string, string>, headVersions: map<string, string>)
    returns (changes: seq<VersionChange>)
    ensures changes == SortBy(ChangeList(Dedup(base.directDepList + base.transDepList),
                                         Dedup(head.directDepList + head.transDepList),
                                         baseVersions, headVersions), PathLess)
  {
    var headDeps := Utils.GetAllDeps(head.directDepList, head.transDepList);
    var baseDeps := Utils.GetAllDeps(base.directDepList, base.transDepList);
    var found: seq<VersionChange> := [];
    for i := 0 to |baseDeps|
      invariant found == ChangeList(baseDeps[..i], headDeps, baseVersions, headVersions)
    {
      var dep := baseDeps[i];
      ChangeListSnoc(baseDeps, i, headDeps, baseVersions, headVersions);
      if Utils.Contains(headDeps, dep) {
        var baseVer := Version(baseVersions, dep);
        var headVer := Version(headVersions, dep);
        if baseVer != "" && headVer != "" && baseVer != headVer {
          found := found + [VersionChange(dep, baseVer, headVer)];
        }
      }
    }
    assert baseDeps[..|baseDeps|] == baseDeps;
    changes := SortBy(found, PathLess);
  }

  lemma {:induction false} ChangeListMembers(deps: seq<string>, headDeps: seq<string>,
                                             baseVersions: map<string, string>, headVersions: map<string, string>)
    requires NoDup(deps)
    ensures var cs := ChangeList(deps, headDeps, baseVersions, headVersions);
      && (forall c :: c in cs <==>
            && c.path in deps && c.path in headDeps && Changed(baseVersions, headVersions, c.path)
            && c.before == Version(baseVersions, c.path) && c.after == Version(headVersions, c.path))
      && NoDup(cs)
    decreases |deps|
  {
    if deps != [] {
      var init, dep := deps[..|deps| - 1], deps[|deps| - 1];
      assert NoDup(init);
      ChangeListMembers(init, headDeps, baseVersions, headVersions);
      assert deps == init + [dep];
    }
  }

  /** The reported changes are exactly the modules present in both snapshots whose versions are known and differ. */
  lemma VersionChangesMembers(baseDeps: seq<string>, headDeps: seq<string>,
                              baseVersions: map<string, string>, headVersions: map<string, string>)
    ensures var r := SortBy(ChangeList(Dedup(baseDeps), Dedup(headDeps), baseVersions, headVersions), PathLess);
      forall c :: c in r <==>
        && c.path in baseDeps && c.path in headDeps && Changed(baseVersions, headVersions, c.path)
        && c.before == Version(baseVersions, c.path) && c.after == Version(headVersions, c.path)
  {
    var cs := ChangeList(Dedup(baseDeps), Dedup(headDeps), baseVersions, headVersions);
    ChangeListMembers(Dedup(baseDeps), Dedup(headDeps), baseVersions, headVersions);
    SortByMembers(cs, PathLess);
  }

  /** Each module is reported once, in increasing path order. */
  lemma VersionChangesOrder(baseDeps: seq<string>, headDeps: seq<string>,
                            baseVersions: map<string, string>, headVersions: map<string, string>)
    ensures var r := SortBy(ChangeList(Dedup(baseDeps), Dedup(headDeps), baseVersions, headVersions), PathLess);
      forall i, j :: 0 <= i < j < |r| ==> Less(r[i].path, r[j].path)
  {
    var cs := ChangeList(Dedup(baseDeps), Dedup(headDeps), baseVersions, headVersions);
    var r := SortBy(cs, PathLess);
    ChangeListMembers(Dedup(baseDeps), Dedup(headDeps), baseVersions, headVersions);
    PathLessIsStrict();
    SortBySorted(cs, PathLess);
    SortByMembers(cs, PathLess);
    SortByNoDup(cs, PathLess);
    forall i, j | 0 <= i < j < |r| ensures Less(r[i].path, r[j].path) {
      assert r[i] in cs && r[j] in cs && r[i] != r[j];
      assert r[i].before == Version(baseVersions, r[i].path) && r[i].after == Version(headVersions, r[i].path);
      assert r[j].before == Version(baseVersions, r[j].path) && r[j].after == Version(headVersions, r[j].path);
      assert r[i].path != r[j].path;
      assert !PathLess(r[j], r[i]);
      LessTrichotomy(r[i].path, r[j].path);
    }
  }

  // ---------------------------------------------------------------------
  // computeVendorOnlyRemovals

  datatype VendorModule = VendorModule(path: string, version: string)

  predicate VendorLess(a: VendorModule, b: VendorModule)
  {
    Less(a.path, b.path)
  }

  /** `computeVendorOnlyRemovals`: the vendor removals whose path is not a graph removal, by path. */
  function ComputeVendorOnlyRemovals(vendorRemoved: seq<VendorModule>, graphRemoved: seq<string>): (r: seq<VendorModule>)
    ensures |r| <= |vendorRemoved|
  {
    SortBy(Filter(vendorRemoved, (m: VendorModule) => m.path !in graphRemoved), VendorLess)
  }

  lemma VendorOnlyFacts(vendorRemoved: seq<VendorModule>, graphRemoved: seq<string>)
    ensures Sorted(ComputeVendorOnlyRemovals(vendorRemoved, graphRemoved), VendorLess)
    ensures forall m :: multiset(ComputeVendorOnlyRemovals(vendorRemoved, graphRemoved))[m]
                        == if m.path in graphRemoved then 0 else multiset(vendorRemoved)[m]
  {
    var kept := Filter(vendorRemoved, (m: VendorModule) => m.path !in graphRemoved);
    forall a ensures !VendorLess(a, a) {
      LessIrreflexive(a.path);
    }
    forall a, b, c | VendorLess(a, b) && VendorLess(b, c) ensures VendorLess(a, c) {
      LessTransitive(a.path, b.path, c.path);
    }
    SortBySorted(kept, VendorLess);
    forall m ensures multiset(ComputeVendorOnlyRemovals(vendorRemoved, graphRemoved))[m]
                     == if m.path in graphRemoved then 0 else multiset(vendorRemoved)[m] {
      FilterCount(vendorRemoved, (m: VendorModule) => m.path !in graphRemoved, m);
    }
  }

  // ---------------------------------------------------------------------
  // reachableViaDiffPath

  /** A search state: a module, and whether a diff edge was crossed on the way to it. */
  datatype State = State(node: string, hasDiff: bool)

  /** Some step of the walk `p` is a diff edge. */
  predicate Crosses(p: seq<string>, diff: set<string>)
    decreases |p|
  {
    |p| >= 2 && (Crosses(p[..|p| - 1], diff) || EdgeText(p[|p| - 2], p[|p| - 1]) in diff)
  }

  /** A walk from `src` whose first step is not the edge to `dst`. */
  ghost predicate Detour(g: Graph, src: string, dst: string, p: seq<string>)
  {
    |p| >= 2 && IsPath(g, p) && p[0] == src && p[1] != dst
  }

  /**
   What `reachableViaDiffPath` decides: a detour from `src` to `dst` that
   crosses a diff edge. Only the first step is kept off `dst`, so the
   crossed edge may be src -> dst itself, taken after a return to `src`.
   */
  ghost predicate DiffReachable(src: string, dst: string, g: Graph, diff: set<string>)
  {
    exists p :: Detour(g, src, dst, p) && p[|p| - 1] == dst && Crosses(p, diff)
  }

  /** `w` leads to `s.node`, and crosses a diff edge when `s.hasDiff` says so. */
  ghost predicate Witness(g: Graph, src: string, dst: string, diff: set<string>, s: State, w: seq<string>)
  {
    Detour(g, src, dst, w) && w[|w| - 1] == s.node && (s.hasDiff ==> Crosses(w, diff))
  }

  /** The state a step from `s` to `m` leads to. */
  function Next(s: State, m: string, diff: set<string>): State
  {
    State(m, s.hasDiff || EdgeText(s.node, m) in diff)
  }

  /**
   The search so far: `done` were dequeued and `queue` waits; together
   they are every state enqueued, each once. `reached` is that set; the two
   reached maps of the search hold its modules by flag, and `wit` holds a
   walk that justifies each of its states.
   */
  ghost predicate Tracked(g: Graph, src: string, dst: string, diff: set<string>,
                          rw: set<string>, rn: set<string>, reached: set<State>,
                          done: seq<State>, queue: seq<State>, wit: map<State, seq<string>>)
  {
    && NoDup(done + queue)
    && (forall s :: s in reached <==> s in done + queue)
    && (forall n :: n in rw <==> State(n, true) in reached)
    && (forall n :: n in rn <==> State(n, false) in reached)
    && (forall s :: s in reached ==> s in wit && Witness(g, src, dst, diff, s, wit[s]))
  }

  /** Every first step other than the one to `dst` was offered. */
  ghost predicate Seeded(g: Graph, src: string, dst: string, diff: set<string>, reached: set<State>)
  {
    forall m :: m in Adj(g, src) && m != dst ==> State(m, EdgeText(src, m) in diff) in reached
  }

  /** Every step out of a dequeued state was offered. */
  ghost predicate Closed(g: Graph, diff: set<string>, done: seq<State>, reached: set<State>)
  {
    forall s, m :: s in done && m in Adj(g, s.node) ==> Next(s, m, diff) in reached
  }

  /** What the search can still reach; it shrinks with every state enqueued. */
  function Measure(g: Graph, rw: set<string>, rn: set<string>): nat
  {
    |Nodes(g) - rw| + |Nodes(g) - rn|
  }

  /** Mark `s` reached and enqueue it, unless it was reached already. */
  method Offer(s: State, ghost w: seq<string>, ghost g: Graph, ghost src: string, ghost dst: string,
               ghost diff: set<string>, rw: set<string>, rn: set<string>, ghost reached: set<State>,
               ghost done: seq<State>, queue: seq<State>, ghost wit: map<State, seq<string>>)
    returns (rw': set<string>, rn': set<string>, ghost reached': set<State>, queue': seq<State>,
             ghost wit': map<State, seq<string>>)
    requires Tracked(g, src, dst, diff, rw, rn, reached, done, queue, wit)
    requires Witness(g, src, dst, diff, s, w) && s.node in Nodes(g)
    ensures Tracked(g, src, dst, diff, rw', rn', reached', done, queue', wit')
    ensures s in reached' && reached <= reached'
    ensures |queue'| >= |queue|
    ensures Measure(g, rw', rn') + |queue'| - |queue| <= Measure(g, rw, rn)
  {
    rw', rn', reached', queue', wit' := rw, rn, reached, queue, wit;
    if s.hasDiff {
      if s.node !in rw {
        Utils.Shrinks(Nodes(g), rw, s.node);
        rw' := rw + {s.node};
        queue' := queue + [s];
        reached' := reached + {s};
        wit' := wit[s := w];
        Enqueued(g, src, dst, diff, rw, rn, rw', rn', reached, done, queue, wit, s, w);
      }
    } else if s.node !in rn {
      Utils.Shrinks(Nodes(g), rn, s.node);
      rn' := rn + {s.node};
      queue' := queue + [s];
      reached' := reached + {s};
      wit' := wit[s := w];
      Enqueued(g, src, dst, diff, rw, rn, rw', rn', reached, done, queue, wit, s, w);
    }
  }

  /** Enqueueing a state that was not reached keeps the bookkeeping. */
  lemma Enqueued(g: Graph, src: string, dst: string, diff: set<string>,
                 rw: set<string>, rn: set<string>, rw': set<string>, rn': set<string>, reached: set<State>,
                 done: seq<State>, queue: seq<State>, wit: map<State, seq<string>>, s: State, w: seq<string>)
    requires Tracked(g, src, dst, diff, rw, rn, reached, done, queue, wit)
    requires Witness(g, src, dst, diff, s, w) && s !in reached
    requires if s.hasDiff then rw' == rw + {s.node} && rn' == rn else rw' == rw && rn' == rn + {s.node}
    ensures Tracked(g, src, dst, diff, rw', rn', reached + {s}, done, queue + [s], wit[s := w])
  {
    NoDupSnoc(done + queue, s);
    assert done + (queue + [s]) == (done + queue) + [s];
  }

  /** The inner loop of the search: offer every step out of `cur`. */
  method Expand(cur: State, g: Graph, ghost src: string, ghost dst: string, diff: set<string>,
                rw: set<string>, rn: set<string>, ghost reached: set<State>, ghost done: seq<State>,
                queue: seq<State>, ghost wit: map<State, seq<string>>)
    returns (rw': set<string>, rn': set<string>, ghost reached': set<State>, queue': seq<State>,
             ghost wit': map<State, seq<string>>)
    requires Tracked(g, src, dst, diff, rw, rn, reached, done, queue, wit) && cur in reached
    ensures Tracked(g, src, dst, diff, rw', rn', reached', done, queue', wit')
    ensures reached <= reached'
    ensures Steps(cur, Adj(g, cur.node), diff) <= reached'
    ensures |queue'| >= |queue|
    ensures Measure(g, rw', rn') + |queue'| - |queue| <= Measure(g, rw, rn)
  {
    var ns := Adj(g, cur.node);
    rw', rn', reached', queue', wit' := rw, rn, reached, queue, wit;
    for i := 0 to |ns|
      invariant Tracked(g, src, dst, diff, rw', rn', reached', done, queue', wit')
      invariant reached <= reached'
      invariant Steps(cur, ns[..i], diff) <= reached'
      invariant |queue'| >= |queue|
      invariant Measure(g, rw', rn') + |queue'| - |queue| <= Measure(g, rw, rn)
    {
      StepsSnoc(cur, ns, i, diff);
      rw', rn', reached', queue', wit' := ExpandOne(cur, ns[i], g, src, dst, diff, rw', rn', reached', done, queue', wit');
    }
    assert ns[..|ns|] == ns;
  }

  /** The states the steps from `cur` to the modules of `ms` lead to. */
  function Steps(cur: State, ms: seq<string>, diff: set<string>): (r: set<State>)
    ensures forall m :: m in ms ==> Next(cur, m, diff) in r
  {
    if ms == [] then {} else Steps(cur, ms[..|ms| - 1], diff) + {Next(cur, ms[|ms| - 1], diff)}
  }

  lemma StepsSnoc(cur: State, ms: seq<string>, i: int, diff: set<string>)
    requires 0 <= i < |ms|
    ensures Steps(cur, ms[..i + 1], diff) == Steps(cur, ms[..i], diff) + {Next(cur, ms[i], diff)}
  {
    assert ms[..i + 1][..i] == ms[..i];
  }

  /** One pass of the inner loop: the step from `cur` to `n`. */
  method ExpandOne(cur: State, n: string, g: Graph, ghost src: string, ghost dst: string, diff: set<string>,
                   rw: set<string>, rn: set<string>, ghost reached: set<State>, ghost done: seq<State>,
                   queue: seq<State>, ghost wit: map<State, seq<string>>)
    returns (rw': set<string>, rn': set<string>, ghost reached': set<State>, queue': seq<State>,
             ghost wit': map<State, seq<string>>)
    requires Tracked(g, src, dst, diff, rw, rn, reached, done, queue, wit) && cur in reached && n in Adj(g, cur.node)
    ensures Tracked(g, src, dst, diff, rw', rn', reached', done, queue', wit')
    ensures reached <= reached' && Next(cur, n, diff) in reached'
    ensures |queue'| >= |queue|
    ensures Measure(g, rw', rn') + |queue'| - |queue| <= Measure(g, rw, rn)
  {
    var hasDiff := cur.hasDiff || EdgeText(cur.node, n) in diff;
    StepWitness(g, src, dst, diff, cur, wit[cur], n);
    rw', rn', reached', queue', wit' := Offer(State(n, hasDiff), wit[cur] + [n], g, src, dst, diff, rw, rn, reached, done, queue, wit);
  }

  /** One step extends a state's walk to a walk for the state it leads to. */
  lemma StepWitness(g: Graph, src: string, dst: string, diff: set<string>, cur: State, v: seq<string>, n: string)
    requires Witness(g, src, dst, diff, cur, v) && n in Adj(g, cur.node)
    ensures Witness(g, src, dst, diff, Next(cur, n, diff), v + [n]) && n in Nodes(g)
  {
    assert Edge(g, cur.node, n);
    PathSnoc(g, v, n);
    assert (v + [n])[..|v|] == v;
  }

  /** The first loop of the search: offer every first step except the one to `dst`. */
  method Seed(src: string, dst: string, g: Graph, diff: set<string>)
    returns (rw: set<string>, rn: set<string>, ghost reached: set<State>, queue: seq<State>,
             ghost wit: map<State, seq<string>>)
    ensures Tracked(g, src, dst, diff, rw, rn, reached, [], queue, wit)
    ensures Seeded(g, src, dst, diff, reached)
  {
    rw, rn, queue := {}, {}, [];
    reached, wit := {}, map[];
    var first := Adj(g, src);
    for i := 0 to |first|
      invariant Tracked(g, src, dst, diff, rw, rn, reached, [], queue, wit)
      invariant forall j :: 0 <= j < i && first[j] != dst ==> State(first[j], EdgeText(src, first[j]) in diff) in reached
    {
      rw, rn, reached, queue, wit := SeedOne(src, dst, g, diff, first[i], rw, rn, reached, queue, wit);
    }
  }

  /** One pass of the first loop: the step from `src` to `n`. */
  method SeedOne(src: string, dst: string, g: Graph, diff: set<string>, n: string,
                 rw: set<string>, rn: set<string>, ghost reached: set<State>, queue: seq<State>,
                 ghost wit: map<State, seq<string>>)
    returns (rw': set<string>, rn': set<string>, ghost reached': set<State>, queue': seq<State>,
             ghost wit': map<State, seq<string>>)
    requires Tracked(g, src, dst, diff, rw, rn, reached, [], queue, wit) && n in Adj(g, src)
    ensures Tracked(g, src, dst, diff, rw', rn', reached', [], queue', wit')
    ensures reached <= reached'
    ensures n != dst ==> State(n, EdgeText(src, n) in diff) in reached'
  {
    rw', rn', reached', queue', wit' := rw, rn, reached, queue, wit;
    if n != dst {
      var hasDiff := EdgeText(src, n) in diff;
      FirstWitness(g, src, dst, diff, n);
      rw', rn', reached', queue', wit' := Offer(State(n, hasDiff), [src, n], g, src, dst, diff, rw, rn, reached, [], queue, wit);
    }
  }

  /** A first step other than the one to `dst` is a walk for the state it leads to. */
  lemma FirstWitness(g: Graph, src: string, dst: string, diff: set<string>, n: string)
    requires n in Adj(g, src) && n != dst
    ensures Witness(g, src, dst, diff, State(n, EdgeText(src, n) in diff), [src, n]) && n in Nodes(g)
  {
    assert Edge(g, src, n);
    assert [src, n][..1] == [src];
  }

  /**
   `reachableViaDiffPath`: a breadth-first search over (module, crossed a
   diff edge) states. It holds exactly when some detour from `src` to `dst`
   crosses a diff edge. `enqueued` lists the states it enqueued, each once;
   each is reached by a detour, and when the search fails they include the
   state at the end of every detour.
   */
  method ReachableViaDiffPath(src: string, dst: string, g: Graph, diff: set<string>)
    returns (r: bool, ghost enqueued: seq<State>)
    ensures r <==> DiffReachable(src, dst, g, diff)
    ensures NoDup(enqueued)
    ensures forall s :: s in enqueued ==> exists w :: Witness(g, src, dst, diff, s, w)
    ensures !r ==> DetoursEnqueued(g, src, dst, diff, enqueued)
  {
    var rw, rn, reached, queue, wit := Seed(src, dst, g, diff);
    ghost var done: seq<State> := [];
    while |queue| > 0
      invariant Searching(g, src, dst, diff, rw, rn, reached, done, queue, wit)
      decreases Measure(g, rw, rn), |queue|
    {
      var cur := queue[0];
      if cur.node == dst && cur.hasDiff {
        ghost var w := wit[cur];
        assert Witness(g, src, dst, diff, cur, w);
        assert Detour(g, src, dst, w) && w[|w| - 1] == dst && Crosses(w, diff);
        assert DiffReachable(src, dst, g, diff);
        WitnessedAll(g, src, dst, diff, rw, rn, reached, done, queue, wit);
        return true, done + queue;
      }
      ghost var measure, size := Measure(g, rw, rn), |queue|;
      rw, rn, reached, done, queue, wit := Dequeue(g, src, dst, diff, rw, rn, reached, done, queue, wit);
      assert Measure(g, rw, rn) < measure || (Measure(g, rw, rn) == measure && |queue| < size);
    }
    NoDiffDetour(g, src, dst, diff, done, reached);
    WitnessedAll(g, src, dst, diff, rw, rn, reached, done, queue, wit);
    assert done + queue == done;
    DetoursReached(g, src, dst, diff, done, reached);
    return false, done;
  }

  /** Every state enqueued so far is reached by a detour. */
  lemma WitnessedAll(g: Graph, src: string, dst: string, diff: set<string>,
                     rw: set<string>, rn: set<string>, reached: set<State>,
                     done: seq<State>, queue: seq<State>, wit: map<State, seq<string>>)
    requires Tracked(g, src, dst, diff, rw, rn, reached, done, queue, wit)
    ensures forall s :: s in done + queue ==> exists w :: Witness(g, src, dst, diff, s, w)
  {
    forall s | s in done + queue ensures exists w :: Witness(g, src, dst, diff, s, w) {
      assert Witness(g, src, dst, diff, s, wit[s]);
    }
  }

  /** The state at the end of every detour, with its flag, is in `enq`. */
  ghost predicate DetoursEnqueued(g: Graph, src: string, dst: string, diff: set<string>, enq: seq<State>)
  {
    forall p :: Detour(g, src, dst, p) ==> State(p[|p| - 1], Crosses(p, diff)) in enq
  }

  /** Once the queue is empty, the state at the end of every detour was reached. */
  lemma DetoursReached(g: Graph, src: string, dst: string, diff: set<string>, done: seq<State>, reached: set<State>)
    requires forall s :: s in reached <==> s in done
    requires Seeded(g, src, dst, diff, reached) && Closed(g, diff, done, reached)
    ensures DetoursEnqueued(g, src, dst, diff, done)
  {
    forall p | Detour(g, src, dst, p) ensures State(p[|p| - 1], Crosses(p, diff)) in done {
      DetourStates(g, src, dst, diff, done, reached, p, |p| - 1);
      assert p[..|p|] == p;
    }
  }

  /** The invariant of the search loop. */
  ghost predicate Searching(g: Graph, src: string, dst: string, diff: set<string>,
                            rw: set<string>, rn: set<string>, reached: set<State>,
                            done: seq<State>, queue: seq<State>, wit: map<State, seq<string>>)
  {
    && Tracked(g, src, dst, diff, rw, rn, reached, done, queue, wit)
    && Seeded(g, src, dst, diff, reached)
    && Closed(g, diff, done, reached)
    && State(dst, true) !in done
  }

  /** One pass of the search loop, for a head that is not the goal: dequeue it and offer its steps. */
  method Dequeue(g: Graph, ghost src: string, ghost dst: string, diff: set<string>,
                 rw: set<string>, rn: set<string>, ghost reached: set<State>, ghost done: seq<State>,
                 queue: seq<State>, ghost wit: map<State, seq<string>>)
    returns (rw': set<string>, rn': set<string>, ghost reached': set<State>, ghost done': seq<State>,
             queue': seq<State>, ghost wit': map<State, seq<string>>)
    requires Searching(g, src, dst, diff, rw, rn, reached, done, queue, wit)
    requires |queue| > 0 && !(queue[0].node == dst && queue[0].hasDiff)
    ensures Searching(g, src, dst, diff, rw', rn', reached', done', queue', wit')
    ensures Measure(g, rw', rn') < Measure(g, rw, rn) || (Measure(g, rw', rn') == Measure(g, rw, rn) && |queue'| < |queue|)
  {
    var cur := queue[0];
    assert done + queue == (done + [cur]) + queue[1..];
    done' := done + [cur];
    rw', rn', reached', queue', wit' := Expand(cur, g, src, dst, diff, rw, rn, reached, done', queue[1..], wit);
    assert forall m :: m in Adj(g, cur.node) ==> Next(cur, m, diff) in reached';
    assert State(dst, true) != cur;
  }

  /** Once the queue is empty, every detour's states were reached; so none crossing a diff edge arrives. */
  lemma NoDiffDetour(g: Graph, src: string, dst: string, diff: set<string>, done: seq<State>, reached: set<State>)
    requires forall s :: s in reached <==> s in done
    requires Seeded(g, src, dst, diff, reached) && Closed(g, diff, done, reached) && State(dst, true) !in done
    ensures !DiffReachable(src, dst, g, diff)
  {
    forall p | Detour(g, src, dst, p) && p[|p| - 1] == dst ensures !Crosses(p, diff) {
      DetourStates(g, src, dst, diff, done, reached, p, |p| - 1);
      assert p[..|p|] == p;
    }
  }

  lemma {:induction false} DetourStates(g: Graph, src: string, dst: string, diff: set<string>,
                                        done: seq<State>, reached: set<State>, p: seq<string>, k: nat)
    requires forall s :: s in reached <==> s in done
    requires Seeded(g, src, dst, diff, reached) && Closed(g, diff, done, reached)
    requires Detour(g, src, dst, p) && 1 <= k < |p|
    ensures State(p[k], Crosses(p[..k + 1], diff)) in reached
    decreases k
  {
    assert Edge(g, p[k - 1], p[k]);
    if k == 1 {
      assert p[..2][..1] == [src];
    } else {
      DetourStates(g, src, dst, diff, done, reached, p, k - 1);
      var s := State(p[k - 1], Crosses(p[..k], diff));
      assert p[..k + 1][..k] == p[..k];
      assert Next(s, p[k], diff) == State(p[k], Crosses(p[..k + 1], diff));
    }
  }

  /** A walk that crosses a diff edge has a step that is one. */
  lemma {:induction false} CrossesStep(p: seq<string>, diff: set<string>)
    requires Crosses(p, diff)
    ensures exists i :: 0 <= i < |p| - 1 && EdgeText(p[i], p[i + 1]) in diff
    decreases |p|
  {
    var init := p[..|p| - 1];
    if EdgeText(p[|p| - 2], p[|p| - 1]) !in diff {
      CrossesStep(init, diff);
      var i :| 0 <= i < |init| - 1 && EdgeText(init[i], init[i + 1]) in diff;
      assert init[i] == p[i] && init[i + 1] == p[i + 1];
    }
  }

  /** Without a diff edge in the graph, nothing is reachable via a diff path. */
  lemma NoDiffEdgeNoReach(src: string, dst: string, g: Graph, diff: set<string>)
    requires forall a, b :: Edge(g, a, b) ==> EdgeText(a, b) !in diff
    ensures !DiffReachable(src, dst, g, diff)
  {
    forall p | Detour(g, src, dst, p) ensures !Crosses(p, diff) {
      forall i | 0 <= i < |p| - 1 ensures EdgeText(p[i], p[i + 1]) !in diff {
        assert Edge(g, p[i], p[i + 1]);
      }
      if Crosses(p, diff) {
        CrossesStep(p, diff);
      }
    }
  }

  // ---------------------------------------------------------------------
  // The step src -> dst taken again by the detour

  /** `g` without the step from `src` to `dst`. */
  function WithoutEdge(g: Graph, src: string, dst: string): (h: Graph)
    ensures forall a, b :: Edge(h, a, b) <==> Edge(g, a, b) && !(a == src && b == dst)
  {
    if src in g then g[src := Filter(g[src], n => n != dst)] else g
  }

  /** No step of `p` goes from `src` to `dst`. */
  ghost predicate AvoidsEdge(p: seq<string>, src: string, dst: string)
  {
    forall i :: 0 <= i < |p| - 1 ==> !(p[i] == src && p[i + 1] == dst)
  }

  /**
   What the reduction evidently intends (cmd/diff.go:948-951): another
   route from `src` to `dst` that never takes the step src -> dst itself
   and crosses a diff edge.
   */
  ghost predicate OtherDiffPath(src: string, dst: string, g: Graph, diff: set<string>)
  {
    exists p :: IsPath(g, p) && |p| >= 2 && p[0] == src && p[|p| - 1] == dst && AvoidsEdge(p, src, dst) && Crosses(p, diff)
  }

  /** The walks of the graph without the step are the walks that avoid it. */
  lemma WithoutEdgePath(g: Graph, src: string, dst: string, p: seq<string>)
    ensures IsPath(WithoutEdge(g, src, dst), p) <==> IsPath(g, p) && AvoidsEdge(p, src, dst)
  {
    var h := WithoutEdge(g, src, dst);
    if IsPath(h, p) {
      forall i | 0 <= i < |p| - 1 ensures Edge(g, p[i], p[i + 1]) && !(p[i] == src && p[i + 1] == dst) {
        assert Edge(h, p[i], p[i + 1]);
      }
    }
    if IsPath(g, p) && AvoidsEdge(p, src, dst) {
      forall i | 0 <= i < |p| - 1 ensures Edge(h, p[i], p[i + 1]) {
        assert Edge(g, p[i], p[i + 1]);
      }
    }
  }

  /** A route that avoids the step and crosses a diff edge crosses one other than src -> dst. */
  lemma CrossesOther(p: seq<string>, src: string, dst: string, diff: set<string>)
    requires AvoidsEdge(p, src, dst) && Crosses(p, diff)
    ensures exists i :: 0 <= i < |p| - 1 && EdgeText(p[i], p[i + 1]) in diff && !(p[i] == src && p[i + 1] == dst)
  {
    CrossesStep(p, diff);
  }

  /** The as-written detours of the graph without the step are exactly the intended routes. */
  lemma OtherIsWithout(src: string, dst: string, g: Graph, diff: set<string>)
    ensures DiffReachable(src, dst, WithoutEdge(g, src, dst), diff) <==> OtherDiffPath(src, dst, g, diff)
  {
    var h := WithoutEdge(g, src, dst);
    if DiffReachable(src, dst, h, diff) {
      var p :| Detour(h, src, dst, p) && p[|p| - 1] == dst && Crosses(p, diff);
      WithoutEdgePath(g, src, dst, p);
    }
    if OtherDiffPath(src, dst, g, diff) {
      var p :| IsPath(g, p) && |p| >= 2 && p[0] == src && p[|p| - 1] == dst && AvoidsEdge(p, src, dst) && Crosses(p, diff);
      WithoutEdgePath(g, src, dst, p);
      assert !(p[0] == src && p[1] == dst);
      assert Detour(h, src, dst, p);
    }
  }

  /**
   The corrected search: `reachableViaDiffPath` on the subgraph without
   the step src -> dst, so the route can take that edge neither first nor
   last nor anywhere between.
   */
  method ReachableViaOtherPath(src: string, dst: string, g: Graph, diff: set<string>) returns (r: bool)
    ensures r <==> OtherDiffPath(src, dst, g, diff)
  {
    ghost var enqueued;
    r, enqueued := ReachableViaDiffPath(src, dst, WithoutEdge(g, src, dst), diff);
    OtherIsWithout(src, dst, g, diff);
  }

  /** The graph of the counterexample: a requires x and b, x requires a. */
  const ReuseGraph: Graph := map["a" := ["x", "b"], "x" := ["a"]]

  /**
   As written, the search accepts a -> x -> a -> b, whose only diff step is
   the new edge a -> b itself: so `transitiveReduceEdges` drops that edge.
   */
  lemma OwnEdgeReused()
    ensures DiffReachable("a", "b", ReuseGraph, {"a -> b"})
  {
    var p := ["a", "x", "a", "b"];
    assert Edge(ReuseGraph, "a", "x") && Edge(ReuseGraph, "x", "a") && Edge(ReuseGraph, "a", "b");
    assert IsPath(ReuseGraph, p);
    assert EdgeText(p[2], p[3]) == "a -> b";
    assert p[..3][..2] == p[..2];
    assert Crosses(p, {"a -> b"});
    assert Detour(ReuseGraph, "a", "b", p);
  }

  /** Every route from a that avoids the step a -> b stays on a and x. */
  lemma {:induction false} ReuseStays(p: seq<string>, k: nat)
    requires IsPath(ReuseGraph, p) && p[0] == "a" && AvoidsEdge(p, "a", "b") && k < |p|
    ensures p[k] == "a" || p[k] == "x"
    decreases k
  {
    if k > 0 {
      ReuseStays(p, k - 1);
      assert Edge(ReuseGraph, p[k - 1], p[k]);
    }
  }

  /** Corrected, the same graph offers no other route, so a -> b is kept. */
  lemma OwnEdgeKept()
    ensures !OtherDiffPath("a", "b", ReuseGraph, {"a -> b"})
  {
    forall p | IsPath(ReuseGraph, p) && |p| >= 2 && p[0] == "a" && AvoidsEdge(p, "a", "b")
      ensures p[|p| - 1] != "b"
    {
      ReuseStays(p, |p| - 1);
    }
  }

  // ---------------------------------------------------------------------
  // transitiveReduceEdges

  /** The entries of `s` that are diff nodes, in order. */
  function Within(s: seq<string>, nodes: set<string>): (r: seq<string>)
    ensures forall x :: x in r <==> x in s && x in nodes
  {
    if s == [] then []
    else Within(s[..|s| - 1], nodes) + if s[|s| - 1] in nodes then [s[|s| - 1]] else []
  }

  function SetOf(s: seq<string>): set<string>
  {
    set x | x in s
  }

  /** The graph projected onto `nodes` for the keys in `keys`; a key with no kept neighbour gets no entry. */
  function ProjectOn(full: Graph, nodes: set<string>, keys: set<string>): Graph
  {
    map a | a in keys && Within(Adj(full, a), nodes) != [] :: Within(Adj(full, a), nodes)
  }

  /** The diff-relevant subgraph of `transitiveReduceEdges`. */
  function Project(full: Graph, nodes: set<string>): Graph
  {
    ProjectOn(full, nodes, nodes)
  }

  /** The projection keeps exactly the edges between diff nodes, and only diff nodes. */
  lemma ProjectEdges(full: Graph, nodes: set<string>)
    ensures forall a, b :: Edge(Project(full, nodes), a, b) <==> a in nodes && b in nodes && Edge(full, a, b)
    ensures Nodes(Project(full, nodes)) <= nodes
  {
  }

  /** The inner loop of the projection: the kept neighbours of one node. */
  method ProjectNode(sub: Graph, node: string, ns: seq<string>, nodes: set<string>) returns (sub': Graph)
    requires node !in sub
    ensures sub' == if Within(ns, nodes) == [] then sub else sub[node := Within(ns, nodes)]
  {
    sub' := sub;
    for j := 0 to |ns|
      invariant sub' == if Within(ns[..j], nodes) == [] then sub else sub[node := Within(ns[..j], nodes)]
    {
      SliceSnoc(ns, j);
      assert Within(ns[..j + 1], nodes) == Within(ns[..j], nodes) + if ns[j] in nodes then [ns[j]] else [];
      if ns[j] in nodes {
        ghost var w := Within(ns[..j], nodes);
        assert Adj(sub', node) == w;
        assert Within(ns[..j + 1], nodes) == w + [ns[j]];
        assert sub'[node := w + [ns[j]]] == sub[node := w + [ns[j]]];
        sub' := sub'[node := Adj(sub', node) + [ns[j]]];
      } else {
        assert Within(ns[..j + 1], nodes) == Within(ns[..j], nodes);
      }
    }
    assert ns[..|ns|] == ns;
  }

  /** Adding one key to the projection adds at most its own entry. */
  lemma ProjectOnStep(full: Graph, nodes: set<string>, keys: set<string>, node: string)
    requires node !in keys
    ensures node !in ProjectOn(full, nodes, keys)
    ensures ProjectOn(full, nodes, keys + {node}) ==
      var w := Within(Adj(full, node), nodes);
      if w == [] then ProjectOn(full, nodes, keys) else ProjectOn(full, nodes, keys)[node := w]
  {
    var w := Within(Adj(full, node), nodes);
    var lhs, old_ := ProjectOn(full, nodes, keys + {node}), ProjectOn(full, nodes, keys);
    var rhs := if w == [] then old_ else old_[node := w];
    assert lhs.Keys == rhs.Keys;
    assert forall a | a in lhs.Keys :: lhs[a] == rhs[a];
  }

  /** The projection loop over the diff nodes, visited in `order`. */
  method ProjectGraph(full: Graph, diffNodes: set<string>, order: seq<string>) returns (sub: Graph)
    requires NoDup(order) && forall k :: k in order <==> k in diffNodes
    ensures sub == Project(full, diffNodes)
  {
    sub := map[];
    for i := 0 to |order|
      invariant sub == ProjectOn(full, diffNodes, SetOf(order[..i]))
    {
      var node := order[i];
      assert node !in order[..i];
      assert SetOf(order[..i + 1]) == SetOf(order[..i]) + {node} by {
        assert order[..i + 1] == order[..i] + [node];
      }
      assert node !in sub;
      sub := ProjectNode(sub, node, Adj(full, node), diffNodes);
      ProjectOnStep(full, diffNodes, SetOf(order[..i]), node);
    }
    assert SetOf(order[..|order|]) == diffNodes by {
      assert order[..|order|] == order;
    }
  }

  /** The diff edges the reduction keeps, scanning `edges` in order. */
  ghost function Reduced(edges: seq<string>, sub: Graph, diff: set<string>): seq<string>
  {
    if edges == [] then []
    else
      var e := edges[|edges| - 1];
      var parts := Split(e, " -> ");
      Reduced(edges[..|edges| - 1], sub, diff) +
        if |parts| == 2 && !OtherDiffPath(parts[0], parts[1], sub, diff) then [e] else []
  }

  /**
   The reduction as cmd/diff.go:968-977 writes it: an edge is dropped when
   the source's detour search succeeds, even through the edge itself.
   */
  ghost function ReducedAsWritten(edges: seq<string>, sub: Graph, diff: set<string>): seq<string>
  {
    if edges == [] then []
    else
      var e := edges[|edges| - 1];
      var parts := Split(e, " -> ");
      ReducedAsWritten(edges[..|edges| - 1], sub, diff) +
        if |parts| == 2 && !DiffReachable(parts[0], parts[1], sub, diff) then [e] else []
  }

  /**
   On the graph {a:[x,b], x:[a]} with the one diff edge a -> b, the source's
   reduction drops a -> b, the only route from a to b; the corrected one keeps it.
   */
  lemma ReuseReductions()
    ensures ReducedAsWritten(["a -> b"], ReuseGraph, {"a -> b"}) == []
    ensures Reduced(["a -> b"], ReuseGraph, {"a -> b"}) == ["a -> b"]
  {
    SplitEdgeText("a", "b");
    assert EdgeText("a", "b") == "a -> b";
    assert ["a -> b"][..0] == [];
    OwnEdgeReused();
    OwnEdgeKept();
  }

  lemma SetOfSnoc(s: seq<string>, i: int)
    requires 0 <= i < |s|
    ensures SetOf(s[..i + 1]) == SetOf(s[..i]) + {s[i]}
  {
    assert s[..i + 1] == s[..i] + [s[i]];
  }

  /** The reduction of one more edge: the edge is kept when it has two endpoints and no other route. */
  lemma ReducedSnoc(edges: seq<string>, i: int, sub: Graph, diff: set<string>)
    requires 0 <= i < |edges|
    ensures var parts := Split(edges[i], " -> ");
      Reduced(edges[..i + 1], sub, diff) == Reduced(edges[..i], sub, diff) +
        if |parts| == 2 && !OtherDiffPath(parts[0], parts[1], sub, diff) then [edges[i]] else []
  {
    assert edges[..i + 1][..i] == edges[..i];
  }

  /**
   `transitiveReduceEdges`, corrected: the diff edges that split into two
   endpoints and are not implied by another route through the
   diff-relevant subgraph, one that never takes the edge itself and
   crosses a diff edge.
   */
  method TransitiveReduceEdges(diffEdges: seq<string>, full: Graph, diffNodes: set<string>, order: seq<string>)
    returns (reduced: seq<string>)
    requires NoDup(order) && forall k :: k in order <==> k in diffNodes
    ensures reduced == Reduced(diffEdges, Project(full, diffNodes), SetOf(diffEdges))
  {
    var diffEdgeSet: set<string> := {};
    for i := 0 to |diffEdges|
      invariant diffEdgeSet == SetOf(diffEdges[..i])
    {
      SetOfSnoc(diffEdges, i);
      diffEdgeSet := diffEdgeSet + {diffEdges[i]};
    }
    assert diffEdges[..|diffEdges|] == diffEdges;
    var sub := ProjectGraph(full, diffNodes, order);
    reduced := [];
    for i := 0 to |diffEdges|
      invariant reduced == Reduced(diffEdges[..i], sub, diffEdgeSet)
    {
      ReducedSnoc(diffEdges, i, sub, diffEdgeSet);
      var parts := Split(diffEdges[i], " -> ");
      if |parts| == 2 {
        var reachable := ReachableViaOtherPath(parts[0], parts[1], sub, diffEdgeSet);
        if !reachable {
          reduced := reduced + [diffEdges[i]];
        }
      }
    }
  }

  /**
   The reduction keeps, in order, exactly the diff edges that split into two
   endpoints and admit no other route, avoiding the edge itself, that
   crosses a diff edge.
   */
  lemma {:induction false} ReducedFacts(edges: seq<string>, sub: Graph, diff: set<string>)
    ensures Subsequence(Reduced(edges, sub, diff), edges)
    ensures forall e :: e in Reduced(edges, sub, diff) <==>
      var parts := Split(e, " -> ");
      e in edges && |parts| == 2 && !OtherDiffPath(parts[0], parts[1], sub, diff)
    decreases |edges|
  {
    if edges == [] {
      assert Subsequence<string>([], []);
    } else {
      var init, e := edges[..|edges| - 1], edges[|edges| - 1];
      ReducedFacts(init, sub, diff);
      var parts := Split(e, " -> ");
      var tail: seq<string> := if |parts| == 2 && !OtherDiffPath(parts[0], parts[1], sub, diff) then [e] else [];
      assert Subsequence(tail, [e]) by {
        assert [e][1..] == [];
      }
      SubsequenceAppend(Reduced(init, sub, diff), init, tail, [e]);
      assert init + [e] == edges;
    }
  }
}
