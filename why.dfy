/**
 `depstat why`: every dependency path from a main module to a target,
 found by a depth-first search that keeps a `visited` set and stops once a
 path budget is reached, then the post-processing of `runWhy` (direct
 dependents, the direct flag, the ordering of the paths).
 */
module Why {
  import opened Strings
  import opened Seqs
  import opened Graphs
  import Utils

  type Path = seq<string>

  /** Every path of `ps` with `prefix` in front of it. */
  function Prepend(prefix: Path, ps: seq<Path>): (r: seq<Path>)
    ensures |r| == |ps|
    ensures forall i :: 0 <= i < |ps| ==> r[i] == prefix + ps[i]
  {
    seq(|ps|, i requires 0 <= i < |ps| => prefix + ps[i])
  }

  lemma PrependAppend(prefix: Path, a: seq<Path>, b: seq<Path>)
    ensures Prepend(prefix, a + b) == Prepend(prefix, a) + Prepend(prefix, b)
  {
  }

  lemma PrependPrepend(a: Path, b: Path, ps: seq<Path>)
    ensures Prepend(a, Prepend(b, ps)) == Prepend(a + b, ps)
  {
    var l := Prepend(a, Prepend(b, ps));
    var r := Prepend(a + b, ps);
    forall i | 0 <= i < |ps| ensures l[i] == r[i] {
      assert a + (b + ps[i]) == (a + b) + ps[i];
    }
  }

  lemma PrependPrefix(prefix: Path, a: seq<Path>, b: seq<Path>)
    requires a <= b
    ensures Prepend(prefix, a) <= Prepend(prefix, b)
  {
  }

  /**
   The paths the search reports from `s` to `t`, in the order it finds
   them: reaching `t` ends a path; a module already on the way, or one
   without an entry in the graph, ends the branch; otherwise each
   neighbour is explored in adjacency order.
   */
  function Paths(s: string, t: string, g: Graph, visited: set<string>): seq<Path>
    decreases |Nodes(g) - visited|, 0, 0
  {
    if s == t then [[s]]
    else if s in visited || s !in g then []
    else
      Utils.Shrinks(Nodes(g), visited, s);
      Expand(s, g[s], t, g, visited + {s})
  }

  /** The paths through each of `ns` in turn, each with `s` in front. */
  function Expand(s: string, ns: seq<string>, t: string, g: Graph, visited: set<string>): seq<Path>
    decreases |Nodes(g) - visited|, 1, |ns|
  {
    if ns == [] then []
    else Expand(s, ns[..|ns| - 1], t, g, visited) + Prepend([s], Paths(ns[|ns| - 1], t, g, visited))
  }

  lemma ExpandSnoc(s: string, ns: seq<string>, i: int, t: string, g: Graph, visited: set<string>)
    requires 0 <= i < |ns|
    ensures Expand(s, ns[..i + 1], t, g, visited)
         == Expand(s, ns[..i], t, g, visited) + Prepend([s], Paths(ns[i], t, g, visited))
  {
    assert ns[..i + 1][..i] == ns[..i];
  }

  lemma {:induction false} ExpandPrefix(s: string, ns: seq<string>, j: int, t: string, g: Graph, visited: set<string>)
    requires 0 <= j <= |ns|
    ensures Expand(s, ns[..j], t, g, visited) <= Expand(s, ns, t, g, visited)
    decreases |ns| - j
  {
    if j < |ns| {
      ExpandPrefix(s, ns, j + 1, t, g, visited);
      ExpandSnoc(s, ns, j, t, g, visited);
    } else {
      assert ns[..j] == ns;
    }
  }

  /**
   `p` is a path the search may report from `p[0]` to `t` with `visited`
   already on the way: a simple walk ending at `t` whose earlier modules
   are neither `t` nor in `visited`.
   */
  ghost predicate Reportable(g: Graph, p: Path, t: string, visited: set<string>)
  {
    && |p| >= 1
    && IsSimplePath(g, p)
    && p[|p| - 1] == t
    && forall i :: 0 <= i < |p| - 1 ==> p[i] !in visited && p[i] != t
  }

  lemma ReportableCons(g: Graph, s: string, q: Path, t: string, visited: set<string>)
    requires Reportable(g, q, t, visited + {s})
    requires s !in visited && s != t && Edge(g, s, q[0])
    ensures Reportable(g, [s] + q, t, visited)
  {
    PathCons(g, s, q);
    var p := [s] + q;
    forall i, j | 0 <= i < j < |p| ensures p[i] != p[j] {
      if i == 0 {
        assert p[j] == q[j - 1];
        assert j - 1 == |q| - 1 || q[j - 1] !in visited + {s};
      } else {
        assert p[i] == q[i - 1] && p[j] == q[j - 1];
      }
    }
    forall i | 0 <= i < |p| - 1 ensures p[i] !in visited && p[i] != t {
      if i > 0 { assert p[i] == q[i - 1]; }
    }
  }

  lemma ReportableTail(g: Graph, p: Path, t: string, visited: set<string>)
    requires Reportable(g, p, t, visited) && |p| >= 2
    ensures Edge(g, p[0], p[1]) && p[0] !in visited && p[0] != t
    ensures p[1..][0] == p[1] && Reportable(g, p[1..], t, visited + {p[0]})
  {
    PathSuffix(g, p, 1);
    var q := p[1..];
    forall i, j | 0 <= i < j < |q| ensures q[i] != q[j] {
      assert q[i] == p[i + 1] && q[j] == p[j + 1];
    }
    forall i | 0 <= i < |q| - 1 ensures q[i] !in visited + {p[0]} && q[i] != t {
      assert q[i] == p[i + 1];
    }
  }

  /** Soundness: every reported path is a simple walk from `s` to `t`. */
  lemma {:induction false} PathsSound(s: string, t: string, g: Graph, visited: set<string>)
    ensures forall p :: p in Paths(s, t, g, visited) ==> Reportable(g, p, t, visited) && p[0] == s
    decreases |Nodes(g) - visited|, 0, 0
  {
    if s != t && s !in visited && s in g {
      Utils.Shrinks(Nodes(g), visited, s);
      ExpandSound(s, g[s], t, g, visited + {s});
      forall p | p in Paths(s, t, g, visited) ensures Reportable(g, p, t, visited) && p[0] == s {
        ReportableCons(g, s, p[1..], t, visited);
        assert p == [s] + p[1..];
      }
    }
  }

  lemma PrependMember(prefix: Path, ps: seq<Path>, p: Path)
    requires p in Prepend(prefix, ps)
    ensures |p| >= |prefix| && p[..|prefix|] == prefix && p[|prefix|..] in ps
  {
    var k :| 0 <= k < |ps| && Prepend(prefix, ps)[k] == p;
    assert p == prefix + ps[k];
    assert p[|prefix|..] == ps[k];
  }

  /** What ExpandSound promises of each path it covers. */
  ghost predicate ExpandedPath(g: Graph, p: Path, s: string, ns: seq<string>, t: string, visited: set<string>)
  {
    |p| >= 2 && p[0] == s && p[1] in ns && Reportable(g, p[1..], t, visited)
  }

  lemma {:induction false} ExpandSound(s: string, ns: seq<string>, t: string, g: Graph, visited: set<string>)
    ensures forall p :: p in Expand(s, ns, t, g, visited) ==> ExpandedPath(g, p, s, ns, t, visited)
    decreases |Nodes(g) - visited|, 1, |ns|
  {
    if ns != [] {
      var init := ns[..|ns| - 1];
      var n := ns[|ns| - 1];
      var before := Expand(s, init, t, g, visited);
      var here := Paths(n, t, g, visited);
      ExpandSound(s, init, t, g, visited);
      PathsSound(n, t, g, visited);
      forall p | p in Expand(s, ns, t, g, visited) ensures ExpandedPath(g, p, s, ns, t, visited) {
        if p in before {
          assert ExpandedPath(g, p, s, init, t, visited);
        } else {
          assert p in Prepend([s], here);
          PrependMember([s], here, p);
          assert p[1..] in here;
        }
      }
    }
  }

  /** Completeness: every such walk is reported when no budget applies. */
  lemma {:induction false} PathsComplete(p: Path, t: string, g: Graph, visited: set<string>)
    requires Reportable(g, p, t, visited)
    ensures p in Paths(p[0], t, g, visited)
    decreases |p|
  {
    var s := p[0];
    if s == t {
      assert |p| == 1;
      assert p == [s];
    } else {
      assert |p| >= 2;
      ReportableTail(g, p, t, visited);
      var q := p[1..];
      PathsComplete(q, t, g, visited + {s});
      assert s in g && q[0] in g[s];
      ExpandContains(s, g[s], q, t, g, visited + {s});
      assert Paths(s, t, g, visited) == Expand(s, g[s], t, g, visited + {s});
      assert p == [s] + q;
    }
  }

  lemma {:induction false} ExpandContains(s: string, ns: seq<string>, q: Path, t: string, g: Graph, visited: set<string>)
    requires |q| >= 1 && q[0] in ns && q in Paths(q[0], t, g, visited)
    ensures [s] + q in Expand(s, ns, t, g, visited)
    decreases |ns|
  {
    var n := ns[|ns| - 1];
    if q[0] == n {
      var ps := Paths(n, t, g, visited);
      var k :| 0 <= k < |ps| && ps[k] == q;
      assert Prepend([s], ps)[k] == [s] + q;
    } else {
      assert q[0] in ns[..|ns| - 1];
      ExpandContains(s, ns[..|ns| - 1], q, t, g, visited);
    }
  }

  /**
   What the shared output slice holds after one more batch of paths:
   with a positive budget, appending stops once it is reached.
   */
  function Cap(out: seq<Path>, found: seq<Path>, maxPaths: int): (r: seq<Path>)
    ensures out <= r
    ensures maxPaths <= 0 ==> r == out + found
    ensures maxPaths > 0 && |out| >= maxPaths ==> r == out
    ensures maxPaths > 0 && |out| < maxPaths ==> |r| <= maxPaths
    ensures forall p :: p in r ==> p in out || p in found
  {
    if maxPaths <= 0 then out + found
    else if |out| >= maxPaths then out
    else out + Take(found, maxPaths - |out|)
  }

  /** Capping in two batches is capping their concatenation. */
  lemma CapAppend(out: seq<Path>, a: seq<Path>, b: seq<Path>, maxPaths: int)
    ensures Cap(Cap(out, a, maxPaths), b, maxPaths) == Cap(out, a + b, maxPaths)
  {
    if maxPaths > 0 && |out| < maxPaths {
      var k := maxPaths - |out|;
      if |a| < k {
        assert Take(a + b, k) == a + Take(b, k - |a|);
      } else {
        assert Take(a + b, k) == Take(a, k);
      }
    }
  }

  /** Once the budget is reached, later paths change nothing. */
  lemma CapSaturated(out: seq<Path>, a: seq<Path>, b: seq<Path>, maxPaths: int)
    requires a <= b && maxPaths > 0 && |Cap(out, a, maxPaths)| >= maxPaths
    ensures Cap(out, b, maxPaths) == Cap(out, a, maxPaths)
  {
    CapAppend(out, a, b[|a|..], maxPaths);
    assert a + b[|a|..] == b;
  }

  /**
   `findAllPaths`: the paths from `start` to `target`, each after
   `currentPath`, appended to `out` until `maxPaths` is reached (when it is
   positive). The caller's `visited` is restored on return.
   */
  method FindAllPaths(start: string, target: string, g: Graph, currentPath: Path,
                      visited: set<string>, out: seq<Path>, maxPaths: int)
    returns (visited': set<string>, out': seq<Path>)
    ensures visited' == visited
    ensures out' == Cap(out, Prepend(currentPath, Paths(start, target, g, visited)), maxPaths)
    decreases |Nodes(g) - visited|, 2
  {
    if maxPaths > 0 && |out| >= maxPaths {
      return visited, out;
    }
    var path := currentPath + [start];
    if start == target {
      return visited, out + [path];
    }
    if start in visited {
      return visited, out;
    }
    out' := Explore(start, target, g, currentPath, visited, out, maxPaths);
    visited' := visited;
  }

  /** The loop over the neighbours of `start`, with `start` marked visited. */
  method Explore(start: string, target: string, g: Graph, currentPath: Path,
                 visited: set<string>, out: seq<Path>, maxPaths: int)
    returns (out': seq<Path>)
    requires start != target && start !in visited
    requires maxPaths > 0 ==> |out| < maxPaths
    ensures out' == Cap(out, Prepend(currentPath, Paths(start, target, g, visited)), maxPaths)
    decreases |Nodes(g) - visited|, 1
  {
    var visited' := visited + {start};
    var ns := Adj(g, start);
    out' := out;
    ghost var all := Prepend(currentPath, Expand(start, ns, target, g, visited'));
    assert all == Prepend(currentPath, Paths(start, target, g, visited));
    for i := 0 to |ns|
      invariant out' == Cap(out, Prepend(currentPath, Expand(start, ns[..i], target, g, visited')), maxPaths)
      invariant maxPaths > 0 ==> |out'| < maxPaths
    {
      out' := FindChild(start, ns, i, target, g, currentPath, visited, visited', out, out', maxPaths);
      if maxPaths > 0 && |out'| >= maxPaths {
        StopEarly(start, ns, i, target, g, currentPath, visited', out, maxPaths);
        return;
      }
    }
    assert ns[..|ns|] == ns;
  }

  /** Leaving the loop once the budget is reached returns what the full loop would. */
  lemma StopEarly(start: string, ns: seq<string>, i: int, target: string, g: Graph, currentPath: Path,
                  visited: set<string>, out: seq<Path>, maxPaths: int)
    requires 0 <= i < |ns| && maxPaths > 0
    requires |Cap(out, Prepend(currentPath, Expand(start, ns[..i + 1], target, g, visited)), maxPaths)| >= maxPaths
    ensures Cap(out, Prepend(currentPath, Expand(start, ns, target, g, visited)), maxPaths)
         == Cap(out, Prepend(currentPath, Expand(start, ns[..i + 1], target, g, visited)), maxPaths)
  {
    var part := Expand(start, ns[..i + 1], target, g, visited);
    var whole := Expand(start, ns, target, g, visited);
    ExpandPrefix(start, ns, i + 1, target, g, visited);
    PrependPrefix(currentPath, part, whole);
    CapSaturated(out, Prepend(currentPath, part), Prepend(currentPath, whole), maxPaths);
  }

  /** One iteration of the loop over the neighbours of `start`. */
  method FindChild(start: string, ns: seq<string>, i: int, target: string, g: Graph, currentPath: Path,
                   ghost visited: set<string>, visited': set<string>, ghost out: seq<Path>, acc: seq<Path>, maxPaths: int)
    returns (acc': seq<Path>)
    requires 0 <= i < |ns| && ns == Adj(g, start) && start !in visited && visited' == visited + {start}
    requires acc == Cap(out, Prepend(currentPath, Expand(start, ns[..i], target, g, visited')), maxPaths)
    ensures acc' == Cap(out, Prepend(currentPath, Expand(start, ns[..i + 1], target, g, visited')), maxPaths)
    decreases |Nodes(g) - visited|, 0
  {
    Utils.Shrinks(Nodes(g), visited, start);
    var _, r := FindAllPaths(ns[i], target, g, currentPath + [start], visited', acc, maxPaths);
    acc' := r;
    var before := Expand(start, ns[..i], target, g, visited');
    var here := Paths(ns[i], target, g, visited');
    ExpandSnoc(start, ns, i, target, g, visited');
    PrependPrepend(currentPath, [start], here);
    PrependAppend(currentPath, before, Prepend([start], here));
    CapAppend(out, Prepend(currentPath, before), Prepend(currentPath + [start], here), maxPaths);
  }

  /** The search from one start with an empty path and nothing visited. */
  lemma PrependEmpty(ps: seq<Path>)
    ensures Prepend([], ps) == ps
  {
    forall i | 0 <= i < |ps| ensures Prepend([], ps)[i] == ps[i] {
      assert [] + ps[i] == ps[i];
    }
  }

  /** The three-module example of why_test.go: a budget of one keeps one path. */
  lemma BudgetOfOneKeepsOnePath()
    ensures var g := map["A" := ["B", "C"], "B" := ["D"], "C" := ["D"]];
      |Cap([], Prepend([], Paths("A", "D", g, {})), 1)| == 1
  {
    var g := map["A" := ["B", "C"], "B" := ["D"], "C" := ["D"]];
    var p := ["A", "B", "D"];
    assert Edge(g, p[0], p[1]) && Edge(g, p[1], p[2]);
    assert Reportable(g, p, "D", {});
    PathsComplete(p, "D", g, {});
    PrependEmpty(Paths("A", "D", g, {}));
  }

  // ---------------------------------------------------------------------
  // runWhy

  datatype WhyPath = WhyPath(path: Path, direct: bool)

  datatype WhyResult = WhyResult(
    target: string,
    found: bool,
    paths: seq<WhyPath>,
    directDeps: seq<string>,
    mainModules: seq<string>,
    truncated: bool,
    totalPaths: int)

  /** `from` once for each entry of `tos` equal to `target`. */
  function Occurrences(from: string, tos: seq<string>, target: string): (r: seq<string>)
    ensures forall x :: x in r <==> x == from && target in tos
    ensures |r| == multiset(tos)[target]
    ensures |r| <= |tos|
  {
    if tos == [] then []
    else
      var init := tos[..|tos| - 1];
      assert tos == init + [tos[|tos| - 1]];
      Occurrences(from, init, target) + (if tos[|tos| - 1] == target then [from] else [])
  }

  /** The modules whose lists name `target`, in the order `keys` visits the graph. */
  function Dependents(g: Graph, keys: seq<string>, target: string): (r: seq<string>)
    ensures forall f :: f in r <==> f in keys && Edge(g, f, target)
  {
    if keys == [] then []
    else
      var init := keys[..|keys| - 1];
      var k := keys[|keys| - 1];
      assert keys == init + [k];
      Dependents(g, init, target) + Occurrences(k, Adj(g, k), target)
  }

  /** The inner loop of the direct-dependents scan: the entries of one list. */
  method ScanList(from: string, tos: seq<string>, target: string, acc: seq<string>) returns (acc': seq<string>)
    ensures acc' == acc + Occurrences(from, tos, target)
  {
    acc' := acc;
    for j := 0 to |tos|
      invariant acc' == acc + Occurrences(from, tos[..j], target)
    {
      assert tos[..j + 1][..j] == tos[..j];
      if tos[j] == target {
        acc' := acc' + [from];
      }
    }
    assert tos[..|tos|] == tos;
  }

  /**
   The scan over the graph for modules that list `target`. `keys` is the
   order in which Go's map iteration happened to visit the graph.
   */
  method DirectDependents(g: Graph, keys: seq<string>, target: string) returns (deps: seq<string>)
    requires forall k :: k in keys ==> k in g
    ensures deps == Dependents(g, keys, target)
  {
    deps := [];
    for i := 0 to |keys|
      invariant deps == Dependents(g, keys[..i], target)
    {
      assert keys[..i + 1][..i] == keys[..i];
      deps := ScanList(keys[i], g[keys[i]], target, deps);
    }
    assert keys[..|keys|] == keys;
  }

  /** All paths from the main modules in turn, sharing one output budget. */
  function AllPaths(mains: seq<string>, target: string, g: Graph, maxPaths: int): seq<Path>
  {
    if mains == [] then []
    else Cap(AllPaths(mains[..|mains| - 1], target, g, maxPaths), Prepend([], Paths(mains[|mains| - 1], target, g, {})), maxPaths)
  }

  lemma AllPathsSnoc(mains: seq<string>, i: int, target: string, g: Graph, maxPaths: int)
    requires 0 <= i < |mains|
    ensures AllPaths(mains[..i + 1], target, g, maxPaths)
         == Cap(AllPaths(mains[..i], target, g, maxPaths), Prepend([], Paths(mains[i], target, g, {})), maxPaths)
  {
    assert mains[..i + 1][..i] == mains[..i];
  }

  /** Once the budget is used up, the later main modules add nothing. */
  lemma {:induction false} AllPathsSaturated(mains: seq<string>, i: int, target: string, g: Graph, maxPaths: int)
    requires 0 <= i <= |mains| && maxPaths > 0
    requires |AllPaths(mains[..i], target, g, maxPaths)| >= maxPaths
    ensures AllPaths(mains, target, g, maxPaths) == AllPaths(mains[..i], target, g, maxPaths)
    decreases |mains| - i
  {
    if i == |mains| {
      assert mains[..i] == mains;
    } else {
      AllPathsSnoc(mains, i, target, g, maxPaths);
      AllPathsSaturated(mains, i + 1, target, g, maxPaths);
    }
  }

  /** The paths collected from the main modules, with a positive budget never exceeded. */
  lemma {:induction false} AllPathsSound(mains: seq<string>, target: string, g: Graph, maxPaths: int)
    ensures forall p :: p in AllPaths(mains, target, g, maxPaths) ==> Reportable(g, p, target, {}) && p[0] in mains
    ensures maxPaths > 0 ==> |AllPaths(mains, target, g, maxPaths)| <= maxPaths
    decreases |mains|
  {
    if mains != [] {
      var init := mains[..|mains| - 1];
      var m := mains[|mains| - 1];
      AllPathsSound(init, target, g, maxPaths);
      PathsSound(m, target, g, {});
      PrependEmpty(Paths(m, target, g, {}));
    }
  }

  /** Without a budget every simple path from a main module to the target is collected. */
  lemma {:induction false} AllPathsComplete(mains: seq<string>, target: string, g: Graph, maxPaths: int, p: Path)
    requires maxPaths <= 0 && Reportable(g, p, target, {}) && p[0] in mains
    ensures p in AllPaths(mains, target, g, maxPaths)
    decreases |mains|
  {
    var init := mains[..|mains| - 1];
    var m := mains[|mains| - 1];
    PrependEmpty(Paths(m, target, g, {}));
    if p[0] == m {
      PathsComplete(p, target, g, {});
    } else {
      AllPathsComplete(init, target, g, maxPaths, p);
    }
  }

  /**
   The loop over the main modules: each search appends to the shared
   slice, and the loop stops, marking the result truncated, once a
   positive budget is reached.
   */
  method CollectPaths(mains: seq<string>, target: string, g: Graph, maxPaths: int)
    returns (allPaths: seq<Path>, truncated: bool)
    ensures allPaths == AllPaths(mains, target, g, maxPaths)
    ensures truncated <==> maxPaths > 0 && |allPaths| >= maxPaths
  {
    allPaths := [];
    truncated := false;
    for i := 0 to |mains|
      invariant allPaths == AllPaths(mains[..i], target, g, maxPaths)
      invariant maxPaths > 0 ==> |allPaths| < maxPaths
      invariant !truncated
    {
      AllPathsSnoc(mains, i, target, g, maxPaths);
      PrependEmpty(Paths(mains[i], target, g, {}));
      var _, out := FindAllPaths(mains[i], target, g, [], {}, allPaths, maxPaths);
      allPaths := out;
      if maxPaths > 0 && |allPaths| >= maxPaths {
        truncated := true;
        AllPathsSaturated(mains, i + 1, target, g, maxPaths);
        return;
      }
    }
    assert mains[..|mains|] == mains;
  }

  /** A path is direct when it is one edge long and starts at a main module. */
  function Labelled(ps: seq<Path>, mains: seq<string>): (r: seq<WhyPath>)
    ensures |r| == |ps|
    ensures forall i :: 0 <= i < |ps| ==> r[i].path == ps[i]
    ensures forall i :: 0 <= i < |ps| ==> (r[i].direct <==> |ps[i]| == 2 && ps[i][0] in mains)
  {
    seq(|ps|, i requires 0 <= i < |ps| => WhyPath(ps[i], |ps[i]| == 2 && Utils.Contains(mains, ps[i][0])))
  }

  method Label(allPaths: seq<Path>, mains: seq<string>) returns (r: seq<WhyPath>)
    ensures r == Labelled(allPaths, mains)
  {
    r := [];
    for i := 0 to |allPaths|
      invariant r == Labelled(allPaths[..i], mains)
    {
      var path := allPaths[i];
      var isDirect := |path| == 2 && Utils.Contains(mains, path[0]);
      r := r + [WhyPath(path, isDirect)];
    }
    assert allPaths[..|allPaths|] == allPaths;
  }

  /** The order of the reported paths: shorter first, then by the arrow-joined text. */
  predicate PathLess(a: Path, b: Path)
  {
    if |a| != |b| then |a| < |b| else Less(Join(a, " -> "), Join(b, " -> "))
  }

  predicate WhyPathLess(a: WhyPath, b: WhyPath)
  {
    PathLess(a.path, b.path)
  }

  lemma WhyPathLessIsStrict()
    ensures StrictOrder(WhyPathLess)
  {
    forall a ensures !WhyPathLess(a, a) {
      LessIrreflexive(Join(a.path, " -> "));
    }
    forall a, b, c | WhyPathLess(a, b) && WhyPathLess(b, c) ensures WhyPathLess(a, c) {
      if |a.path| == |b.path| == |c.path| {
        LessTransitive(Join(a.path, " -> "), Join(b.path, " -> "), Join(c.path, " -> "));
      }
    }
  }

  /** What `runWhy` computes for one target. */
  ghost predicate WhyOf(dep: Utils.DependencyOverview, keys: seq<string>, target: string, maxPaths: int, res: WhyResult)
  {
    var all := AllPaths(dep.mainModules, target, dep.graph, maxPaths);
    && res.target == target
    && res.mainModules == dep.mainModules
    && (res.found <==> target in dep.directDepList || target in dep.transDepList)
    && (!res.found ==> res.paths == [] && res.directDeps == [] && !res.truncated && res.totalPaths == 0)
    && (res.found ==>
      && res.directDeps == SortBy(Dependents(dep.graph, keys, target), Less)
      && res.paths == SortBy(Labelled(all, dep.mainModules), WhyPathLess)
      && res.totalPaths == |all|
      && (res.truncated <==> maxPaths > 0 && |all| >= maxPaths))
  }

  /**
   `runWhy` after the graph is built: membership in the dependency lists
   decides `found`; then the direct dependents, sorted, and the paths from
   the main modules, labelled and sorted. `keys` is the order in which the
   map iteration visited `dep.graph`.
   */
  method RunWhy(dep: Utils.DependencyOverview, keys: seq<string>, target: string, maxPaths: int)
    returns (res: WhyResult)
    requires forall k :: k in keys <==> k in dep.graph
    ensures WhyOf(dep, keys, target, maxPaths, res)
  {
    var allDeps := Utils.GetAllDeps(dep.directDepList, dep.transDepList);
    Utils.AllDepsProperties(dep.directDepList, dep.transDepList);
    var found := Utils.Contains(allDeps, target);
    if !found {
      return WhyResult(target, false, [], [], dep.mainModules, false, 0);
    }
    var deps := DirectDependents(dep.graph, keys, target);
    var directDeps := SortBy(deps, Less);
    var allPaths, truncated := CollectPaths(dep.mainModules, target, dep.graph, maxPaths);
    var labelled := Label(allPaths, dep.mainModules);
    var paths := SortBy(labelled, WhyPathLess);
    res := WhyResult(target, true, paths, directDeps, dep.mainModules, truncated, |paths|);
  }

  /** The guarantees of a `why` result, derived from WhyOf. */
  lemma WhyFacts(dep: Utils.DependencyOverview, keys: seq<string>, target: string, maxPaths: int, res: WhyResult)
    requires forall k :: k in keys <==> k in dep.graph
    requires WhyOf(dep, keys, target, maxPaths, res) && res.found
    ensures Sorted(res.directDeps, Less)
    ensures forall f :: f in res.directDeps <==> f in dep.graph && target in dep.graph[f]
    ensures Sorted(res.paths, WhyPathLess)
    ensures res.totalPaths == |res.paths|
    ensures maxPaths > 0 ==> |res.paths| <= maxPaths
    ensures forall w :: w in res.paths ==> Reportable(dep.graph, w.path, target, {}) && w.path[0] in dep.mainModules
    ensures forall w :: w in res.paths ==> (w.direct <==> |w.path| == 2)
  {
    var all := AllPaths(dep.mainModules, target, dep.graph, maxPaths);
    var deps := Dependents(dep.graph, keys, target);
    var labelled := Labelled(all, dep.mainModules);
    LessIsStrict();
    SortBySorted(deps, Less);
    SortByMembers(deps, Less);
    WhyPathLessIsStrict();
    SortBySorted(labelled, WhyPathLess);
    SortByMembers(labelled, WhyPathLess);
    AllPathsSound(dep.mainModules, target, dep.graph, maxPaths);
    forall w | w in res.paths
      ensures Reportable(dep.graph, w.path, target, {}) && w.path[0] in dep.mainModules
      ensures w.direct <==> |w.path| == 2
    {
      var i :| 0 <= i < |labelled| && labelled[i] == w;
      assert w.path == all[i];
    }
  }

  /** Without a budget every simple path from a main module to the target is reported. */
  lemma WhyComplete(dep: Utils.DependencyOverview, keys: seq<string>, target: string, maxPaths: int, res: WhyResult, p: Path)
    requires WhyOf(dep, keys, target, maxPaths, res) && res.found && maxPaths <= 0
    requires Reportable(dep.graph, p, target, {}) && p[0] in dep.mainModules
    ensures exists w :: w in res.paths && w.path == p
  {
    var all := AllPaths(dep.mainModules, target, dep.graph, maxPaths);
    var labelled := Labelled(all, dep.mainModules);
    AllPathsComplete(dep.mainModules, target, dep.graph, maxPaths, p);
    var i :| 0 <= i < |all| && all[i] == p;
    SortByMembers(labelled, WhyPathLess);
    assert labelled[i] in res.paths;
  }
}
