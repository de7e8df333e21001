/**
 The cycle finder of `cmd/cycles.go`: Tarjan's search for the strongly
 connected component of each start node in the subgraph of the nodes from
 it on, then Johnson's circuit search inside that component. The finder is
 a class whose fields the methods update in place; each method is proved
 to compute the function of module Johnson over the finder's state, and
 FindAllCyclesWithMaxLength is proved to report elementary cycles only.
 */
module Cycles {
  import opened Seqs
  import opened Strings
  import opened Graphs
  import opened Johnson

  /** `nodeIndex[name]`, with Go's zero for a missing key. */
  function IndexOf(nodeIndex: map<string, int>, name: string): int
  {
    if name in nodeIndex then nodeIndex[name] else 0
  }

  /** The neighbour indices of every node, as the finder looks each neighbour up. */
  function IndexAdj(g: Graph, nodeIndex: map<string, int>, names: seq<string>): seq<seq<int>>
  {
    seq(|names|, i requires 0 <= i < |names| =>
      seq(|Adj(g, names[i])|, k requires 0 <= k < |Adj(g, names[i])| => IndexOf(nodeIndex, Adj(g, names[i])[k])))
  }

  /** `nodeIndex` numbers the node list: each name maps to its own position. */
  ghost predicate Numbers(nodeIndex: map<string, int>, names: seq<string>)
  {
    && NoDup(names)
    && (forall i :: 0 <= i < |names| ==> names[i] in nodeIndex && nodeIndex[names[i]] == i)
    && (forall x :: x in nodeIndex ==> 0 <= nodeIndex[x] < |names| && names[nodeIndex[x]] == x)
  }

  /** When the node list covers the graph and `nodeIndex` numbers it, the finder's adjacency is the index form of the graph. */
  lemma {:induction false} IndexedByNumbering(g: Graph, nodeIndex: map<string, int>, names: seq<string>)
    requires Numbers(nodeIndex, names)
    requires forall x :: x in Nodes(g) ==> x in nodeIndex
    ensures Indexed(g, names, IndexAdj(g, nodeIndex, names))
  {
    var adj := IndexAdj(g, nodeIndex, names);
    forall i, k | 0 <= i < |adj| && 0 <= k < |adj[i]|
      ensures 0 <= adj[i][k] < |names| && names[adj[i][k]] == Adj(g, names[i])[k]
    {
      var b := Adj(g, names[i])[k];
      assert Edge(g, names[i], b);
      assert b in nodeIndex;
    }
  }

  /** `containsInt`: whether `val` occurs in `slice`. */
  method ContainsInt(slice: seq<int>, val: int) returns (r: bool)
    ensures r <==> val in slice
  {
    for i := 0 to |slice|
      invariant val !in slice[..i]
    {
      if slice[i] == val {
        return true;
      }
      SliceSnoc(slice, i);
    }
    assert slice[..|slice|] == slice;
    return false;
  }

  /**
   The state of one run of the finder. `blocked` and `blockedMap` are
   fixed-size buffers over the node indices; an entry of `blockedMap`
   lists the nodes blocked on that node, each once, in the order they
   were added (the source keeps a set).
   */
  class CyclesFinder {
    const graph: Graph
    const nodeIndex: map<string, int>
    const indexNode: seq<string>
    const blocked: array<bool>
    const blockedMap: array<seq<int>>
    var stack: seq<int>
    var cycles: seq<seq<string>>
    const maxLength: int

    ghost predicate Valid()
    {
      && blocked.Length == |indexNode| && blockedMap.Length == |indexNode|
      && (forall x :: x in nodeIndex ==> 0 <= nodeIndex[x] < |indexNode|)
    }

    /** The finder's adjacency over node indices. */
    function Adjacency(): seq<seq<int>>
    {
      IndexAdj(graph, nodeIndex, indexNode)
    }

    /**
     What `findSCCContaining(startIdx)` returns when it returns something:
     distinct nodes from `startIdx` on that include it, and more than one
     node unless the start has an edge to itself.
     */
    ghost predicate Component(startIdx: int, r: seq<int>)
    {
      && startIdx in r && NoDup(r)
      && (forall i :: 0 <= i < |r| ==> startIdx <= r[i] < |indexNode|)
      && (|r| > 1 || startIdx in At(Adjacency(), startIdx))
    }

    /** The finder's state as a value of module Johnson. */
    ghost function Snapshot(): State
      reads this, blocked, blockedMap
    {
      State(blocked[..], blockedMap[..], stack, cycles)
    }

    /** The finder as `findAllCyclesWithMaxLength` sets it up: nothing blocked, empty stack, no cycles. */
    constructor (graph: Graph, nodeIndex: map<string, int>, indexNode: seq<string>, maxLength: int)
      requires forall x :: x in nodeIndex ==> 0 <= nodeIndex[x] < |indexNode|
      ensures this.graph == graph && this.nodeIndex == nodeIndex && this.indexNode == indexNode
      ensures this.maxLength == maxLength
      ensures Valid() && Snapshot() == Initial(|indexNode|)
      ensures fresh(blocked) && fresh(blockedMap)
    {
      this.graph := graph;
      this.nodeIndex := nodeIndex;
      this.indexNode := indexNode;
      this.maxLength := maxLength;
      blocked := new bool[|indexNode|](i => false);
      blockedMap := new seq<int>[|indexNode|](i => []);
      stack := [];
      cycles := [];
    }

    /** `hasSelfLoop`: whether the node has an edge to itself. */
    method HasSelfLoop(nodeIdx: int) returns (r: bool)
      requires 0 <= nodeIdx < |indexNode|
      ensures r <==> nodeIdx in At(Adjacency(), nodeIdx)
    {
      var neighbors := Adj(graph, indexNode[nodeIdx]);
      ghost var row := At(Adjacency(), nodeIdx);
      assert |row| == |neighbors|;
      for k := 0 to |neighbors|
        invariant nodeIdx !in row[..k]
      {
        assert row[k] == IndexOf(nodeIndex, neighbors[k]);
        if IndexOf(nodeIndex, neighbors[k]) == nodeIdx {
          return true;
        }
        SliceSnoc(row, k);
      }
      assert row[..|row|] == row;
      return false;
    }

    /** The cycle that closes the stack at `start`, as module names. */
    method NameCycle(start: int) returns (cycle: seq<string>)
      requires 0 <= start < |indexNode|
      requires forall i :: 0 <= i < |stack| ==> 0 <= stack[i] < |indexNode|
      ensures cycle == Names(indexNode, stack + [start])
    {
      var buf := new string[|stack| + 1];
      for i := 0 to |stack|
        invariant forall j :: 0 <= j < i ==> buf[j] == indexNode[stack[j]]
      {
        buf[i] := indexNode[stack[i]];
      }
      buf[|stack|] := indexNode[start];
      cycle := buf[..];
      ghost var p := stack + [start];
      assert forall j :: 0 <= j < |p| ==> cycle[j] == Names(indexNode, p)[j];
    }

    /**
     `unblock(v)`: clear `v`'s flag, and for each node blocked on `v` drop
     it from `v`'s entry and unblock it if it is still blocked. The loop
     runs over the entry as it was when the loop began.
     */
    method Unblock(v: int)
      requires Valid() && 0 <= v < |indexNode|
      modifies blocked, blockedMap
      ensures Snapshot() == Johnson.Unblock(old(Snapshot()), v)
      decreases Count(blocked[..]) + if IsBlocked(blocked[..], v) then 0 else 1
    {
      ghost var s0 := Snapshot();
      blocked[v] := false;
      ghost var s1 := Snapshot();
      assert s1 == s0.(blocked := SetBlocked(s0.blocked, v, false));
      CountUnblock(s0.blocked, v);
      var ws := blockedMap[v];
      assert ws == At(s1.bmap, v);
      for i := 0 to |ws|
        invariant !IsBlocked(blocked[..], v)
        invariant UnblockEach(s1, v, ws) == UnblockEach(Snapshot(), v, ws[i..])
        invariant Count(blocked[..]) <= Count(s1.blocked)
      {
        ghost var s := Snapshot();
        var w := ws[i];
        assert ws[i..][1..] == ws[i + 1..];
        blockedMap[v] := Remove(blockedMap[v], w);
        assert Snapshot() == s.(bmap := SetAt(s.bmap, v, Remove(At(s.bmap, v), w)));
        if 0 <= w < blocked.Length && blocked[w] {
          Unblock(w);
        }
      }
    }

    /** The failure branch of `circuit(v)`: record `v` as blocked on each neighbour in the component. */
    method RecordBlockers(v: int, sccSet: set<int>)
      requires Valid() && 0 <= v < |indexNode|
      requires forall j :: j in sccSet ==> 0 <= j < |indexNode|
      modifies blockedMap
      ensures blockedMap[..] == Blockers(At(Adjacency(), v), sccSet, v, old(blockedMap[..]))
    {
      var neighbors := Adj(graph, indexNode[v]);
      ghost var row := At(Adjacency(), v);
      assert |row| == |neighbors|;
      for k := 0 to |neighbors|
        invariant Blockers(row, sccSet, v, old(blockedMap[..])) == Blockers(row[k..], sccSet, v, blockedMap[..])
      {
        var neighborIdx := IndexOf(nodeIndex, neighbors[k]);
        assert neighborIdx == row[k];
        assert row[k..][1..] == row[k + 1..];
        if neighborIdx in sccSet && v !in blockedMap[neighborIdx] {
          blockedMap[neighborIdx] := blockedMap[neighborIdx] + [v];
        }
      }
    }

    /**
     `circuit(v, start, sccSet)`, with the guard that a neighbour already on
     the stack is not entered (see module CappedJohnson for why).
     */
    method Circuit(v: int, start: int, sccSet: set<int>) returns (found: bool)
      requires Valid() && v in sccSet && v !in stack
      requires forall j :: j in sccSet ==> 0 <= j < |indexNode|
      requires forall i :: 0 <= i < |stack| ==> 0 <= stack[i] < |indexNode|
      modifies this, blocked, blockedMap
      ensures var r := Johnson.Circuit(Adjacency(), indexNode, sccSet, maxLength, start, v, old(Snapshot()));
        Snapshot() == r.st && found == r.found
      decreases |sccSet - Members(stack)|, 1
    {
      ghost var adj := Adjacency();
      ghost var s0 := Snapshot();
      stack := stack + [v];
      blocked[v] := true;
      ghost var s1 := Snapshot();
      assert s1 == s0.(stack := s0.stack + [v], blocked := SetBlocked(s0.blocked, v, true));
      Shrinks(sccSet, s0.stack, v);
      found := false;
      var neighbors := Adj(graph, indexNode[v]);
      assert |At(adj, v)| == |neighbors|;
      for k := 0 to |neighbors|
        invariant stack == s1.stack
        invariant Scan(adj, indexNode, sccSet, maxLength, start, v, Snapshot(), k, found)
               == Scan(adj, indexNode, sccSet, maxLength, start, v, s1, 0, false)
      {
        found := ScanNeighbour(v, start, sccSet, k, found);
      }
      if found {
        Unblock(v);
      } else {
        RecordBlockers(v, sccSet);
      }
      stack := stack[..|stack| - 1];
      assert stack == s0.stack;
    }

    /**
     One pass of the neighbour loop of `circuit(v)`: the `k`-th neighbour
     is skipped, closes a cycle at the start, or is entered.
     */
    method ScanNeighbour(v: int, start: int, sccSet: set<int>, k: nat, found: bool) returns (found': bool)
      requires Valid() && 0 <= v < |indexNode| && k < |At(Adjacency(), v)|
      requires forall j :: j in sccSet ==> 0 <= j < |indexNode|
      requires forall i :: 0 <= i < |stack| ==> 0 <= stack[i] < |indexNode|
      modifies this, blocked, blockedMap
      ensures stack == old(stack)
      ensures Scan(Adjacency(), indexNode, sccSet, maxLength, start, v, old(Snapshot()), k, found)
           == Scan(Adjacency(), indexNode, sccSet, maxLength, start, v, Snapshot(), k + 1, found')
      decreases |sccSet - Members(stack)| + 1, 0
    {
      ghost var adj := Adjacency();
      ghost var s0 := Snapshot();
      ghost var skip := Scan(adj, indexNode, sccSet, maxLength, start, v, s0, k + 1, found);
      found' := found;
      var neighborIdx := IndexOf(nodeIndex, Adj(graph, indexNode[v])[k]);
      assert neighborIdx == At(adj, v)[k];
      if neighborIdx !in sccSet {
        assert Scan(adj, indexNode, sccSet, maxLength, start, v, s0, k, found) == skip;
      } else if neighborIdx == start {
        if maxLength == 0 || |stack| <= maxLength {
          var cycle := NameCycle(start);
          cycles := cycles + [cycle];
          found' := true;
          assert Snapshot() == s0.(cycles := s0.cycles + [Names(indexNode, s0.stack + [start])]);
        } else {
          assert Scan(adj, indexNode, sccSet, maxLength, start, v, s0, k, found) == skip;
        }
      } else {
        var onStack := ContainsInt(stack, neighborIdx);
        if !blocked[neighborIdx] && (maxLength == 0 || |stack| < maxLength) && !onStack {
          assert !IsBlocked(s0.blocked, neighborIdx);
          ScanEnterStep(adj, indexNode, sccSet, maxLength, start, v, s0, k, found);
          var f := Circuit(neighborIdx, start, sccSet);
          found' := found || f;
        } else {
          assert Scan(adj, indexNode, sccSet, maxLength, start, v, s0, k, found) == skip;
        }
      }
    }

    /** `findSCCContaining(startIdx)`: Tarjan's search over the nodes from `startIdx` on; `[]` stands for Go's nil. */
    method FindSccContaining(startIdx: int) returns (scc: seq<int>)
      requires Valid() && 0 <= startIdx < |indexNode|
      ensures scc != [] ==> Component(startIdx, scc)
    {
      var search := new SccSearch(this, startIdx);
      if startIdx !in search.indices {
        var result := search.StrongConnect(startIdx);
        if result != [] {
          return result;
        }
      }
      for i := startIdx to |indexNode|
        invariant search.finder == this && search.startIdx == startIdx && search.Valid()
      {
        if i !in search.indices {
          var result := search.StrongConnect(i);
          if result != [] {
            var has := ContainsInt(result, startIdx);
            if has {
              return result;
            }
          }
        }
      }
      return [];
    }

    /** The node list is sorted and duplicate-free, and the finder's adjacency is the index form of the graph. */
    ghost predicate Ordered()
    {
      Indexed(graph, indexNode, Adjacency()) && NoDup(indexNode) && Sorted(indexNode, Less)
    }

    /** One pass of the start loop of lines 160-178: find the start's component and search it for cycles. */
    method SearchFrom(startIdx: int)
      requires Valid() && Ordered() && stack == [] && 0 <= startIdx < |indexNode|
      requires forall c :: c in cycles ==> ElementaryCycle(graph, maxLength, c)
      modifies this, blocked, blockedMap
      ensures stack == []
      ensures forall c :: c in cycles ==> ElementaryCycle(graph, maxLength, c)
    {
      var subgraphSCC := FindSccContaining(startIdx);
      if |subgraphSCC| > 0 {
        Reset(subgraphSCC);
        var sccSet := SetOfIndices(subgraphSCC);
        ghost var s := Snapshot();
        assert Setting(graph, indexNode, Adjacency(), sccSet, startIdx);
        assert Walk(Adjacency(), sccSet, startIdx, s.stack + [startIdx]);
        CircuitSound(graph, indexNode, Adjacency(), sccSet, maxLength, startIdx, startIdx, s);
        var found := Circuit(startIdx, startIdx, sccSet);
        forall c | c in cycles ensures ElementaryCycle(graph, maxLength, c) {
          var i :| 0 <= i < |cycles| && cycles[i] == c;
          if i < |s.cycles| {
            assert c in s.cycles;
          }
        }
      }
    }

    /** The reset of lines 163-166: the nodes of the component are unblocked and their entries emptied. */
    method Reset(scc: seq<int>)
      requires Valid() && forall i :: 0 <= i < |scc| ==> 0 <= scc[i] < |indexNode|
      modifies blocked, blockedMap
      ensures forall i :: 0 <= i < |indexNode| ==> blocked[i] == (old(blocked[i]) && i !in scc)
      ensures forall i :: 0 <= i < |indexNode| ==> blockedMap[i] == if i in scc then [] else old(blockedMap[i])
    {
      for k := 0 to |scc|
        invariant forall i :: 0 <= i < |indexNode| ==> blocked[i] == (old(blocked[i]) && i !in scc[..k])
        invariant forall i :: 0 <= i < |indexNode| ==> blockedMap[i] == if i in scc[..k] then [] else old(blockedMap[i])
      {
        SliceSnoc(scc, k);
        blocked[scc[k]] := false;
        blockedMap[scc[k]] := [];
      }
      assert scc[..|scc|] == scc;
    }
  }

  /** The local state of `findSCCContaining`: Tarjan's counter, maps and stack. */
  class SccSearch {
    const finder: CyclesFinder
    const startIdx: int
    var index: int
    var indices: map<int, int>
    var lowlinks: map<int, int>
    var onStack: set<int>
    var stack: seq<int>

    ghost predicate Valid()
      reads this
    {
      && 0 <= startIdx < |finder.indexNode|
      && (forall x :: x in finder.nodeIndex ==> 0 <= finder.nodeIndex[x] < |finder.indexNode|)
      && (forall x :: x in indices ==> startIdx <= x < |finder.indexNode|)
      && NoDup(stack) && onStack == Members(stack)
      && (forall i :: 0 <= i < |stack| ==> stack[i] in indices)
    }

    /** The nodes of the subgraph. */
    ghost function Universe(): set<int>
    {
      Range(startIdx, |finder.indexNode|)
    }

    constructor (finder: CyclesFinder, startIdx: int)
      requires finder.Valid() && 0 <= startIdx < |finder.indexNode|
      ensures this.finder == finder && this.startIdx == startIdx && Valid() && indices == map[]
    {
      this.finder := finder;
      this.startIdx := startIdx;
      index := 0;
      indices := map[];
      lowlinks := map[];
      onStack := {};
      stack := [];
    }

    /**
     `strongConnect(v)`: number `v`, push it, search its neighbours from
     `startIdx` on, and when `v` is the root of a component pop it; the
     component is returned when it qualifies, `[]` (Go's nil) otherwise.
     Returning `[]` leaves the stack it found in place underneath.
     */
    method StrongConnect(v: int) returns (result: seq<int>)
      requires Valid() && startIdx <= v < |finder.indexNode| && v !in indices
      modifies this
      ensures Valid() && old(indices.Keys) + {v} <= indices.Keys
      ensures result != [] ==> finder.Component(startIdx, result)
      ensures result == [] ==> old(stack) <= stack
      decreases |Universe() - indices.Keys|, 1
    {
      Push(v);
      var neighbors := Adj(finder.graph, finder.indexNode[v]);
      for k := 0 to |neighbors|
        invariant Valid() && old(indices.Keys) + {v} <= indices.Keys && old(stack) + [v] <= stack
      {
        var neighborIdx := IndexOf(finder.nodeIndex, neighbors[k]);
        if neighborIdx < startIdx {
          continue;
        }
        SetShrinks(Universe(), old(indices.Keys), indices.Keys, v);
        var r := VisitNeighbour(v, neighborIdx);
        if r != [] {
          return r;
        }
      }
      result := Finish(v, old(stack));
    }

    /** Lines 196-200: number `v` and push it. */
    method Push(v: int)
      requires Valid() && startIdx <= v < |finder.indexNode| && v !in indices
      modifies this
      ensures Valid() && indices.Keys == old(indices.Keys) + {v} && stack == old(stack) + [v]
    {
      indices := indices[v := index];
      lowlinks := lowlinks[v := index];
      index := index + 1;
      PushMembers(stack, v);
      stack := stack + [v];
      onStack := onStack + {v};
    }

    /** Lines 235-260: when `v` is a root, pop its component and return it if it qualifies. */
    method Finish(v: int, ghost below: seq<int>) returns (result: seq<int>)
      requires Valid() && below + [v] <= stack
      modifies this
      ensures Valid() && indices.Keys == old(indices.Keys)
      ensures result != [] ==> finder.Component(startIdx, result)
      ensures result == [] ==> below <= stack
    {
      if Get(lowlinks, v) == Get(indices, v) {
        var scc := PopComponent(v, below);
        var has := ContainsInt(scc, startIdx);
        if has {
          var selfLoop := finder.HasSelfLoop(startIdx);
          if |scc| > 1 || selfLoop {
            return scc;
          }
        }
      }
      return [];
    }

    /**
     One pass of the neighbour loop of `strongConnect(v)` for a neighbour
     from `startIdx` on: search it if it is unnumbered, then take its
     lowlink; take its number if it is on the stack. A qualifying
     component found below is handed back.
     */
    method VisitNeighbour(v: int, neighborIdx: int) returns (r: seq<int>)
      requires Valid() && v in indices && startIdx <= neighborIdx < |finder.indexNode|
      modifies this
      ensures Valid() && old(indices.Keys) <= indices.Keys
      ensures r != [] ==> finder.Component(startIdx, r)
      ensures r == [] ==> old(stack) <= stack
      decreases |Universe() - indices.Keys| + 1, 0
    {
      r := [];
      if neighborIdx !in indices {
        var result := StrongConnect(neighborIdx);
        if result != [] {
          var has := ContainsInt(result, startIdx);
          if has {
            return result;
          }
        }
        if Get(lowlinks, neighborIdx) < Get(lowlinks, v) {
          lowlinks := lowlinks[v := Get(lowlinks, neighborIdx)];
        }
      } else if neighborIdx in onStack {
        if indices[neighborIdx] < Get(lowlinks, v) {
          lowlinks := lowlinks[v := indices[neighborIdx]];
        }
      }
    }

    /** The pop loop of lines 224-234: pop down to and including `v`. */
    method PopComponent(v: int, ghost below: seq<int>) returns (scc: seq<int>)
      requires Valid() && below + [v] <= stack
      modifies this
      ensures Valid() && stack == below && indices == old(indices)
      ensures v in scc && NoDup(scc)
      ensures forall i :: 0 <= i < |scc| ==> startIdx <= scc[i] < |finder.indexNode|
    {
      ghost var full := stack;
      scc := [];
      while true
        invariant Valid() && indices == old(indices) && stack <= full && |stack| > |below|
        invariant NoDup(scc) && forall i :: 0 <= i < |scc| ==> scc[i] !in stack && scc[i] in indices && scc[i] != v
        decreases |stack|
      {
        var w := stack[|stack| - 1];
        assert stack[..|stack| - 1] + [w] == stack;
        PopMembers(stack);
        NoDupPrefix(stack, |stack| - 1);
        stack := stack[..|stack| - 1];
        onStack := onStack - {w};
        scc := scc + [w];
        if w == v {
          assert full[|below|] == v && full[|stack|] == v;
          assert |stack| == |below|;
          assert stack == full[..|below|] == below;
          break;
        }
      }
    }
  }

  /** The targets listed under the keys `ks` of the graph. */
  ghost function Targets(g: Graph, ks: set<string>): set<string>
  {
    set a, b | a in ks && a in g && b in g[a] :: b
  }

  lemma TargetsStep(g: Graph, ks: set<string>, k: string)
    requires k in g
    ensures Targets(g, ks + {k}) == Targets(g, ks) + NameSet(g[k])
  {
  }

  /** The members of a sequence of module names. */
  ghost function NameSet(s: seq<string>): set<string>
  {
    set x | x in s
  }

  /** Lines 121-124: every key of the graph. */
  method CollectKeys(graph: Graph) returns (nodeSet: set<string>)
    ensures nodeSet == graph.Keys
  {
    nodeSet := {};
    var rest := graph.Keys;
    while rest != {}
      invariant rest <= graph.Keys && nodeSet == graph.Keys - rest
      decreases |rest|
    {
      var node :| node in rest;
      nodeSet := nodeSet + {node};
      rest := rest - {node};
    }
  }

  /** Lines 121-129: every key of the graph and every module listed under one. */
  method CollectNodes(graph: Graph) returns (nodeSet: set<string>)
    ensures nodeSet == Nodes(graph)
  {
    nodeSet := CollectKeys(graph);
    var rest := graph.Keys;
    ghost var done: set<string> := {};
    while rest != {}
      invariant rest <= graph.Keys && done == graph.Keys - rest
      invariant nodeSet == graph.Keys + Targets(graph, done)
      decreases |rest|
    {
      var node :| node in rest;
      nodeSet := AddAll(nodeSet, graph[node]);
      TargetsStep(graph, done, node);
      done := done + {node};
      rest := rest - {node};
    }
    assert done == graph.Keys;
  }

  /** The inner loop of lines 126-128: add every listed dependency. */
  method AddAll(nodeSet: set<string>, deps: seq<string>) returns (r: set<string>)
    ensures r == nodeSet + NameSet(deps)
  {
    r := nodeSet;
    for j := 0 to |deps|
      invariant r == nodeSet + NameSet(deps[..j])
    {
      SliceSnoc(deps, j);
      r := r + {deps[j]};
    }
    assert deps[..|deps|] == deps;
  }

  /** Lines 132-135: the collected nodes listed once each, in the map's iteration order. */
  method ListNodes(nodeSet: set<string>) returns (nodes: seq<string>)
    ensures NoDup(nodes) && forall x :: x in nodes <==> x in nodeSet
  {
    nodes := [];
    var rest := nodeSet;
    while rest != {}
      invariant rest <= nodeSet && NoDup(nodes)
      invariant forall x :: x in nodes <==> x in nodeSet - rest
      decreases |rest|
    {
      var node :| node in rest;
      NoDupSnoc(nodes, node);
      nodes := nodes + [node];
      rest := rest - {node};
    }
  }

  /** Lines 139-142: each node name to its position in the sorted list. */
  method IndexNodes(nodes: seq<string>) returns (nodeIndex: map<string, int>)
    requires NoDup(nodes)
    ensures Numbers(nodeIndex, nodes)
    ensures nodeIndex.Keys == set x | x in nodes
  {
    nodeIndex := map[];
    for i := 0 to |nodes|
      invariant forall j :: 0 <= j < i ==> nodes[j] in nodeIndex && nodeIndex[nodes[j]] == j
      invariant forall x :: x in nodeIndex ==> 0 <= nodeIndex[x] < i && nodes[nodeIndex[x]] == x
    {
      nodeIndex := nodeIndex[nodes[i] := i];
    }
  }

  /** Lines 169-172: the component as a set. */
  method SetOfIndices(scc: seq<int>) returns (sccSet: set<int>)
    ensures forall x :: x in sccSet <==> x in scc
  {
    sccSet := {};
    for i := 0 to |scc|
      invariant forall x :: x in sccSet <==> x in scc[..i]
    {
      SliceSnoc(scc, i);
      sccSet := sccSet + {scc[i]};
    }
    assert scc[..|scc|] == scc;
  }

  /**
   `findAllCyclesWithMaxLength(graph, maxLength)`: number the sorted nodes,
   then for each start index search the component of the start among the
   nodes from it on and run the circuit search from the start. Every cycle
   reported is elementary, starts from its least module and, with a cap,
   has at most `maxLength` edges.
   */
  method FindAllCyclesWithMaxLength(graph: Graph, maxLength: int) returns (cycles: seq<seq<string>>)
    ensures forall c :: c in cycles ==> ElementaryCycle(graph, maxLength, c)
  {
    var nodeSet := CollectNodes(graph);
    var listed := ListNodes(nodeSet);
    var nodes := SortBy(listed, Less);
    LessIsStrict();
    SortBySorted(listed, Less);
    SortByNoDup(listed, Less);
    SortByMembers(listed, Less);
    var nodeIndex := IndexNodes(nodes);
    IndexedByNumbering(graph, nodeIndex, nodes);
    var cf := new CyclesFinder(graph, nodeIndex, nodes, maxLength);
    for startIdx := 0 to |nodes|
      invariant cf.Valid() && cf.Ordered() && cf.stack == [] && fresh(cf.blocked) && fresh(cf.blockedMap)
      invariant forall c :: c in cf.cycles ==> ElementaryCycle(graph, maxLength, c)
    {
      cf.SearchFrom(startIdx);
    }
    cycles := cf.cycles;
  }

  /** `m[k]`, with Go's zero for a missing key. */
  function Get(m: map<int, int>, k: int): int
  {
    if k in m then m[k] else 0
  }

  /** The integers from `lo` up to but not including `hi`. */
  ghost function Range(lo: int, hi: int): (r: set<int>)
    ensures forall x :: x in r <==> lo <= x < hi
    decreases hi - lo
  {
    if lo >= hi then {} else {lo} + Range(lo + 1, hi)
  }

  lemma PushMembers(s: seq<int>, x: int)
    ensures Members(s + [x]) == Members(s) + {x}
  {
  }

  lemma PopMembers(s: seq<int>)
    requires NoDup(s) && |s| > 0
    ensures Members(s[..|s| - 1]) == Members(s) - {s[|s| - 1]}
  {
    assert s == s[..|s| - 1] + [s[|s| - 1]];
  }

  lemma NoDupPrefix(s: seq<int>, n: nat)
    requires NoDup(s) && n <= |s|
    ensures NoDup(s[..n])
  {
  }

  /** Numbering one more node of the subgraph leaves fewer to number. */
  lemma SetShrinks(u: set<int>, before: set<int>, after: set<int>, v: int)
    requires v in u && v !in before && before + {v} <= after <= u
    ensures |u - after| < |u - before|
  {
    var b := u - before;
    var c := b - {v};
    var a := u - after;
    assert |c| == |b| - 1;
    assert a <= c;
    assert c == a + (c - a) && a * (c - a) == {};
  }
}
