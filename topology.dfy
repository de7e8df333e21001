/**
 The topology view of `depstat graph`: breadth-first depth from the main
 modules, the node and edge tables with in- and out-degrees, the top-N
 rankings, and the enumeration of all chains from a root.
 */
module Topology {
  import opened Strings
  import opened Seqs
  import opened Graphs
  import Utils

  // ---------------------------------------------------------------------
  // shortestDepthByModule

  /** `p` is a walk from some main module to `n`. */
  ghost predicate FromMain(g: Graph, mains: seq<string>, n: string, p: seq<string>)
  {
    IsPath(g, p) && p[0] in mains && p[|p| - 1] == n
  }

  /** `n` is reached from a main module in exactly `k` steps. */
  ghost predicate ReachedIn(g: Graph, mains: seq<string>, n: string, k: int)
  {
    exists p :: FromMain(g, mains, n, p) && |p| == k + 1
  }

  /** Every neighbour of `n` has a depth at most one more than `n`'s. */
  ghost predicate Closed(g: Graph, depth: map<string, int>, n: string)
    requires n in depth
  {
    forall b :: b in Adj(g, n) ==> b in depth && depth[b] <= depth[n] + 1
  }

  /** The graph's modules together with the main modules. */
  function Universe(g: Graph, mains: seq<string>): set<string>
  {
    Nodes(g) + set m | m in mains
  }

  /** The queue holds depths in order, spanning at most one level. */
  ghost predicate QueueOrdered(depth: map<string, int>, queue: seq<string>)
  {
    && NoDup(queue)
    && (forall i :: 0 <= i < |queue| ==> queue[i] in depth)
    && (forall i, j :: 0 <= i < j < |queue| ==> depth[queue[i]] <= depth[queue[j]])
    && (|queue| > 0 ==> depth[queue[|queue| - 1]] <= depth[queue[0]] + 1)
  }

  /** Modules already taken off the queue are closed and no deeper than its front. */
  ghost predicate Processed(g: Graph, depth: map<string, int>, queue: seq<string>)
  {
    forall n :: n in depth && n !in queue ==>
      Closed(g, depth, n) && (|queue| > 0 && queue[0] in depth ==> depth[n] <= depth[queue[0]])
  }

  /** `wit[n]` is a walk from a main module to `n` of `depth[n]` steps. */
  ghost predicate Witnessed(g: Graph, mains: seq<string>, depth: map<string, int>, wit: map<string, seq<string>>)
  {
    && wit.Keys == depth.Keys
    && forall n :: n in wit ==> FromMain(g, mains, n, wit[n]) && |wit[n]| == depth[n] + 1
  }

  /** The invariant of the breadth-first pass. */
  ghost predicate Bfs(g: Graph, mains: seq<string>, depth: map<string, int>, queue: seq<string>, wit: map<string, seq<string>>)
  {
    && (forall m :: m in mains ==> m in depth && depth[m] == 0)
    && depth.Keys <= Universe(g, mains)
    && Witnessed(g, mains, depth, wit)
    && QueueOrdered(depth, queue)
    && Processed(g, depth, queue)
  }

  /** The first loop: every main module at depth 0, queued once. */
  method InitDepth(mains: seq<string>, g: Graph)
    returns (depth: map<string, int>, queue: seq<string>, ghost wit: map<string, seq<string>>)
    ensures Bfs(g, mains, depth, queue, wit)
    ensures forall n :: n in depth <==> n in queue
  {
    depth := map[];
    queue := [];
    wit := map[];
    for i := 0 to |mains|
      invariant wit.Keys == depth.Keys && NoDup(queue)
      invariant forall m :: m in mains[..i] ==> m in depth
      invariant forall n :: n in depth <==> n in queue
      invariant forall n :: n in depth ==> n in mains && depth[n] == 0 && wit[n] == [n]
    {
      var m := mains[i];
      if m in depth {
        continue;
      }
      depth := depth[m := 0];
      wit := wit[m := [m]];
      queue := queue + [m];
    }
    assert mains[..|mains|] == mains;
    InitBfs(mains, g, depth, queue, wit);
  }

  lemma InitBfs(mains: seq<string>, g: Graph, depth: map<string, int>, queue: seq<string>, wit: map<string, seq<string>>)
    requires wit.Keys == depth.Keys && NoDup(queue)
    requires forall m :: m in mains ==> m in depth
    requires forall n :: n in depth <==> n in queue
    requires forall n :: n in depth ==> n in mains && depth[n] == 0 && wit[n] == [n]
    ensures Bfs(g, mains, depth, queue, wit)
  {
    assert forall i :: 0 <= i < |queue| ==> depth[queue[i]] == 0;
  }

  /** `depth'` keeps every entry of `depth` and adds exactly `added`, all at depth `d`. */
  ghost predicate Grown(depth: map<string, int>, depth': map<string, int>, added: seq<string>, d: int)
  {
    && (forall n :: n in depth ==> n in depth' && depth'[n] == depth[n])
    && (forall n :: n in depth' ==> n in depth || n in added)
    && (forall x :: x in added ==> x in depth' && x !in depth && depth'[x] == d)
    && NoDup(added)
  }

  /** What the inner loop of one visit has done so far. */
  ghost predicate Visiting(g: Graph, mains: seq<string>, depth: map<string, int>,
                           current: string, done: seq<string>,
                           depth': map<string, int>, wit': map<string, seq<string>>, added: seq<string>)
    requires current in depth
  {
    && Grown(depth, depth', added, depth[current] + 1)
    && (forall x :: x in added ==> Edge(g, current, x))
    && (forall x :: x in done ==> x in depth')
    && Witnessed(g, mains, depth', wit')
  }

  lemma GrownSnoc(depth: map<string, int>, depth': map<string, int>, added: seq<string>, d: int, next: string)
    requires Grown(depth, depth', added, d) && next !in depth'
    ensures Grown(depth, depth'[next := d], added + [next], d)
  {
    var added' := added + [next];
    forall i, j | 0 <= i < j < |added'| ensures added'[i] != added'[j] {
      if j < |added| {
        assert added'[i] == added[i] && added'[j] == added[j];
      } else {
        assert added'[i] in added;
      }
    }
  }

  lemma WitnessedSnoc(g: Graph, mains: seq<string>, depth': map<string, int>, wit': map<string, seq<string>>,
                      next: string, w: seq<string>, k: int)
    requires Witnessed(g, mains, depth', wit') && FromMain(g, mains, next, w) && |w| == k + 1
    ensures Witnessed(g, mains, depth'[next := k], wit'[next := w])
  {
  }

  /** The inner loop's step for a neighbour not seen yet. */
  lemma VisitingStep(g: Graph, mains: seq<string>, depth: map<string, int>, wit: map<string, seq<string>>,
                     current: string, done: seq<string>, next: string,
                     depth': map<string, int>, wit': map<string, seq<string>>, added: seq<string>)
    requires current in depth && Witnessed(g, mains, depth, wit)
    requires Visiting(g, mains, depth, current, done, depth', wit', added)
    requires next !in depth' && Edge(g, current, next)
    ensures Visiting(g, mains, depth, current, done + [next],
                     depth'[next := depth[current] + 1], wit'[next := wit[current] + [next]], added + [next])
  {
    var w := wit[current] + [next];
    assert FromMain(g, mains, current, wit[current]) && |wit[current]| == depth[current] + 1;
    PathSnoc(g, wit[current], next);
    assert FromMain(g, mains, next, w);
    GrownSnoc(depth, depth', added, depth[current] + 1, next);
    WitnessedSnoc(g, mains, depth', wit', next, w, depth[current] + 1);
  }

  /**
   One turn of the outer loop: take the front of the queue and give each
   neighbour not seen yet the next depth, queueing it.
   */
  method Visit(ghost mains: seq<string>, g: Graph, depth: map<string, int>, queue: seq<string>,
               ghost wit: map<string, seq<string>>)
    returns (depth': map<string, int>, queue': seq<string>, ghost wit': map<string, seq<string>>)
    requires |queue| > 0 && Bfs(g, mains, depth, queue, wit)
    ensures Bfs(g, mains, depth', queue', wit')
    ensures depth.Keys <= depth'.Keys
    ensures depth'.Keys == depth.Keys ==> |queue'| < |queue|
  {
    ghost var added;
    depth', queue', wit', added := EnqueueNeighbours(mains, g, depth, queue, wit);
    VisitDone(g, mains, depth, queue, wit, depth', wit', added);
    NothingAdded(depth, depth', added, depth[queue[0]] + 1);
  }

  /** A visit that added no key queued nothing. */
  lemma NothingAdded(depth: map<string, int>, depth': map<string, int>, added: seq<string>, d: int)
    requires Grown(depth, depth', added, d)
    ensures depth'.Keys == depth.Keys ==> added == []
  {
    if added != [] {
      assert added[0] in added;
      assert added[0] in depth'.Keys - depth.Keys;
    }
  }

  /** The inner loop: the unseen neighbours of the front get the next depth. */
  method EnqueueNeighbours(ghost mains: seq<string>, g: Graph, depth: map<string, int>, queue: seq<string>,
                           ghost wit: map<string, seq<string>>)
    returns (depth': map<string, int>, queue': seq<string>, ghost wit': map<string, seq<string>>, ghost added: seq<string>)
    requires |queue| > 0 && queue[0] in depth && Witnessed(g, mains, depth, wit)
    ensures Visiting(g, mains, depth, queue[0], Adj(g, queue[0]), depth', wit', added)
    ensures queue' == queue[1..] + added
  {
    var current := queue[0];
    var nextDepth := depth[current] + 1;
    var ns := Adj(g, current);
    depth' := depth;
    wit' := wit;
    queue' := queue[1..];
    added := [];
    for j := 0 to |ns|
      invariant Visiting(g, mains, depth, current, ns[..j], depth', wit', added)
      invariant queue' == queue[1..] + added
    {
      var next := ns[j];
      SliceSnoc(ns, j);
      if next in depth' {
        continue;
      }
      VisitingStep(g, mains, depth, wit, current, ns[..j], next, depth', wit', added);
      depth' := depth'[next := nextDepth];
      wit' := wit'[next := wit[current] + [next]];
      added := added + [next];
      queue' := queue' + [next];
    }
    assert ns[..|ns|] == ns;
  }

  lemma VisitDone(g: Graph, mains: seq<string>, depth: map<string, int>, queue: seq<string>, wit: map<string, seq<string>>,
                  depth': map<string, int>, wit': map<string, seq<string>>, added: seq<string>)
    requires |queue| > 0 && Bfs(g, mains, depth, queue, wit)
    requires Visiting(g, mains, depth, queue[0], Adj(g, queue[0]), depth', wit', added)
    ensures Bfs(g, mains, depth', queue[1..] + added, wit')
    ensures depth.Keys <= depth'.Keys
  {
    var d := depth[queue[0]] + 1;
    QueueNoDup(depth, queue, depth', added, d);
    QueueOrder(depth, queue, depth', added);
    VisitProcessed(g, depth, queue, depth', added);
    forall n | n in depth' ensures n in Universe(g, mains) {
      if n !in depth { assert Edge(g, queue[0], n); }
    }
  }

  lemma QueueNoDup(depth: map<string, int>, queue: seq<string>, depth': map<string, int>, added: seq<string>, d: int)
    requires |queue| > 0 && QueueOrdered(depth, queue) && Grown(depth, depth', added, d)
    ensures NoDup(queue[1..] + added)
    ensures forall i :: 0 <= i < |queue[1..] + added| ==> (queue[1..] + added)[i] in depth'
  {
    var q := queue[1..] + added;
    forall i, j | 0 <= i < j < |q| ensures q[i] != q[j] {
      if j < |queue| - 1 {
        assert q[i] == queue[i + 1] && q[j] == queue[j + 1];
      } else if i >= |queue| - 1 {
        assert q[i] == added[i - |queue| + 1] && q[j] == added[j - |queue| + 1];
      } else {
        assert q[i] == queue[i + 1] && q[j] in added;
      }
    }
    forall i | 0 <= i < |q| ensures q[i] in depth' {
      if i < |queue| - 1 { assert q[i] == queue[i + 1]; } else { assert q[i] in added; }
    }
  }

  lemma QueueOrder(depth: map<string, int>, queue: seq<string>, depth': map<string, int>, added: seq<string>)
    requires |queue| > 0 && QueueOrdered(depth, queue) && Grown(depth, depth', added, depth[queue[0]] + 1)
    requires NoDup(queue[1..] + added)
    ensures QueueOrdered(depth', queue[1..] + added)
  {
    var q := queue[1..] + added;
    var d := depth[queue[0]];
    forall i | 0 <= i < |q| ensures q[i] in depth' && d <= depth'[q[i]] <= d + 1 {
      if i < |queue| - 1 {
        assert q[i] == queue[i + 1];
      } else {
        assert q[i] in added;
      }
    }
    forall i, j | 0 <= i < j < |q| ensures depth'[q[i]] <= depth'[q[j]] {
      if j < |queue| - 1 {
        assert q[i] == queue[i + 1] && q[j] == queue[j + 1];
      } else {
        assert q[j] in added;
      }
    }
  }

  /** The front, once its neighbours have depths, is closed. */
  lemma CurrentClosed(g: Graph, depth: map<string, int>, queue: seq<string>,
                      depth': map<string, int>, added: seq<string>)
    requires |queue| > 0 && QueueOrdered(depth, queue) && Processed(g, depth, queue)
    requires Grown(depth, depth', added, depth[queue[0]] + 1)
    requires forall x :: x in Adj(g, queue[0]) ==> x in depth'
    ensures queue[0] in depth' && Closed(g, depth', queue[0])
  {
    var current := queue[0];
    forall b | b in Adj(g, current) ensures b in depth' && depth'[b] <= depth'[current] + 1 {
      if b in queue {
        var k :| 0 <= k < |queue| && queue[k] == b;
        assert k == 0 || depth[queue[k]] <= depth[queue[|queue| - 1]];
      }
    }
  }

  /** A module taken off the queue earlier stays closed. */
  lemma EarlierClosed(g: Graph, depth: map<string, int>, queue: seq<string>,
                      depth': map<string, int>, added: seq<string>, n: string)
    requires |queue| > 0 && queue[0] in depth && Processed(g, depth, queue)
    requires Grown(depth, depth', added, depth[queue[0]] + 1)
    requires n in depth && n !in queue
    ensures n in depth' && Closed(g, depth', n) && depth'[n] <= depth[queue[0]]
  {
    assert Closed(g, depth, n);
  }

  lemma FrontOrRest(queue: seq<string>, x: string)
    requires |queue| > 0
    ensures x in queue ==> x == queue[0] || x in queue[1..]
  {
    assert queue == [queue[0]] + queue[1..];
  }

  lemma VisitProcessed(g: Graph, depth: map<string, int>, queue: seq<string>,
                       depth': map<string, int>, added: seq<string>)
    requires |queue| > 0 && QueueOrdered(depth, queue) && Processed(g, depth, queue)
    requires Grown(depth, depth', added, depth[queue[0]] + 1)
    requires forall x :: x in Adj(g, queue[0]) ==> x in depth'
    requires QueueOrdered(depth', queue[1..] + added)
    ensures Processed(g, depth', queue[1..] + added)
  {
    var q := queue[1..] + added;
    var current := queue[0];
    var d := depth[current];
    assert |q| > 0 ==> depth'[q[0]] >= d by {
      if |q| > 0 {
        if |queue| > 1 { assert q[0] == queue[1]; } else { assert q[0] in added; }
      }
    }
    CurrentClosed(g, depth, queue, depth', added);
    forall n | n in depth' && n !in q
      ensures Closed(g, depth', n) && (|q| > 0 && q[0] in depth' ==> depth'[n] <= depth'[q[0]])
    {
      assert n in depth;
      if n != current {
        FrontOrRest(queue, n);
        EarlierClosed(g, depth, queue, depth', added, n);
      }
    }
  }

  /** With the queue empty, every depth entry is closed under the edges. */
  lemma BfsDone(g: Graph, mains: seq<string>, depth: map<string, int>, wit: map<string, seq<string>>)
    requires Bfs(g, mains, depth, [], wit)
    ensures forall n :: n in depth ==> ReachedIn(g, mains, n, depth[n])
    ensures forall a, b :: a in depth && Edge(g, a, b) ==> b in depth && depth[b] <= depth[a] + 1
  {
    forall n | n in depth ensures ReachedIn(g, mains, n, depth[n]) {
      assert FromMain(g, mains, n, wit[n]);
    }
    forall a, b | a in depth && Edge(g, a, b) ensures b in depth && depth[b] <= depth[a] + 1 {
      assert Closed(g, depth, a);
    }
  }

  /**
   `shortestDepthByModule`: breadth-first depths from the main modules;
   only modules reachable from one of them get an entry.
   */
  method ShortestDepthByModule(mains: seq<string>, g: Graph) returns (depth: map<string, int>)
    ensures forall m :: m in mains ==> m in depth && depth[m] == 0
    ensures forall n :: n in depth ==> ReachedIn(g, mains, n, depth[n])
    ensures forall a, b :: a in depth && Edge(g, a, b) ==> b in depth && depth[b] <= depth[a] + 1
  {
    var queue;
    ghost var wit;
    depth, queue, wit := InitDepth(mains, g);
    ghost var u := Universe(g, mains);
    while |queue| > 0
      invariant Bfs(g, mains, depth, queue, wit)
      decreases |u - depth.Keys|, |queue|
    {
      ghost var before := depth.Keys;
      depth, queue, wit := Visit(mains, g, depth, queue, wit);
      if depth.Keys != before {
        Grows(u, before, depth.Keys);
      }
    }
    BfsDone(g, mains, depth, wit);
  }

  lemma Grows(u: set<string>, before: set<string>, after: set<string>)
    requires before <= after <= u && before != after
    ensures |u - after| < |u - before|
  {
    var x :| x in after && x !in before;
    var b := u - before;
    assert x in b;
    assert |b - {x}| == |b| - 1;
    var a := u - after;
    var c := b - {x};
    assert a <= c;
    assert c == a + (c - a) && a * (c - a) == {};
  }

  /** The depth of a module is the length of its shortest walk from a main module. */
  lemma {:induction false} DepthIsShortest(g: Graph, mains: seq<string>, depth: map<string, int>, p: seq<string>)
    requires forall m :: m in mains ==> m in depth && depth[m] == 0
    requires forall a, b :: a in depth && Edge(g, a, b) ==> b in depth && depth[b] <= depth[a] + 1
    requires IsPath(g, p) && p[0] in mains
    ensures p[|p| - 1] in depth && depth[p[|p| - 1]] <= |p| - 1
    decreases |p|
  {
    if |p| > 1 {
      var init := p[..|p| - 1];
      assert IsPath(g, init) by {
        forall i | 0 <= i < |init| - 1 ensures Edge(g, init[i], init[i + 1]) {
          assert init[i] == p[i] && init[i + 1] == p[i + 1];
        }
      }
      DepthIsShortest(g, mains, depth, init);
      assert Edge(g, p[|p| - 2], p[|p| - 1]);
    }
  }

  // ---------------------------------------------------------------------
  // buildGraphTopology

  datatype GraphNode = GraphNode(name: string, inDegree: int, outDegree: int, depth: int, isMainModule: bool)

  datatype GraphEdge = GraphEdge(from: string, to: string)

  /** The entries of one adjacency list as edges. */
  function ListEdges(from: string, tos: seq<string>): (r: seq<GraphEdge>)
    ensures |r| == |tos|
    ensures forall i :: 0 <= i < |tos| ==> r[i] == GraphEdge(from, tos[i])
  {
    seq(|tos|, i requires 0 <= i < |tos| => GraphEdge(from, tos[i]))
  }

  /** One edge per adjacency entry, in the order `keys` visits the graph. */
  function EdgeList(g: Graph, keys: seq<string>): seq<GraphEdge>
  {
    if keys == [] then []
    else EdgeList(g, keys[..|keys| - 1]) + ListEdges(keys[|keys| - 1], Adj(g, keys[|keys| - 1]))
  }

  /** How many edges of `es` enter `n`. */
  function InCount(es: seq<GraphEdge>, n: string): nat
  {
    if es == [] then 0
    else InCount(es[..|es| - 1], n) + (if es[|es| - 1].to == n then 1 else 0)
  }

  /** How many edges of `es` leave `n`. */
  function OutCount(es: seq<GraphEdge>, n: string): nat
  {
    if es == [] then 0
    else OutCount(es[..|es| - 1], n) + (if es[|es| - 1].from == n then 1 else 0)
  }

  /** Go's map read: a missing counter is zero. */
  function Get(m: map<string, int>, k: string): int
  {
    if k in m then m[k] else 0
  }

  lemma {:induction false} CountAppend(a: seq<GraphEdge>, b: seq<GraphEdge>, n: string)
    ensures InCount(a + b, n) == InCount(a, n) + InCount(b, n)
    ensures OutCount(a + b, n) == OutCount(a, n) + OutCount(b, n)
    decreases |b|
  {
    if b == [] {
      assert a + b == a;
    } else {
      CountAppend(a, b[..|b| - 1], n);
      assert (a + b)[..|a + b| - 1] == a + b[..|b| - 1];
    }
  }

  lemma {:induction false} ListCounts(from: string, tos: seq<string>, n: string)
    ensures OutCount(ListEdges(from, tos), n) == if from == n then |tos| else 0
    decreases |tos|
  {
    if tos != [] {
      ListCounts(from, tos[..|tos| - 1], n);
      assert ListEdges(from, tos)[..|tos| - 1] == ListEdges(from, tos[..|tos| - 1]);
    }
  }

  /** With every key visited once, the edges leaving `n` are its adjacency entries. */
  lemma {:induction false} OutCountEdgeList(g: Graph, keys: seq<string>, n: string)
    requires NoDup(keys)
    ensures OutCount(EdgeList(g, keys), n) == if n in keys then |Adj(g, n)| else 0
    decreases |keys|
  {
    if keys != [] {
      var init := keys[..|keys| - 1];
      var k := keys[|keys| - 1];
      assert NoDup(init);
      OutCountEdgeList(g, init, n);
      CountAppend(EdgeList(g, init), ListEdges(k, Adj(g, k)), n);
      ListCounts(k, Adj(g, k), n);
      assert keys == init + [k];
      assert k !in init;
    }
  }

  /** The degree counters after the scan of the first `i` keys. */
  ghost predicate Counted(g: Graph, keys: seq<string>, edges: seq<GraphEdge>,
                          inDegree: map<string, int>, outDegree: map<string, int>)
  {
    && edges == EdgeList(g, keys)
    && (forall n :: Get(inDegree, n) == InCount(edges, n))
    && (forall n :: Get(outDegree, n) == if n in keys then |Adj(g, n)| else 0)
  }

  /** The inner loop: one edge and one in-degree per entry of `tos`. */
  method CountList(from: string, tos: seq<string>, edges: seq<GraphEdge>, inDegree: map<string, int>)
    returns (edges': seq<GraphEdge>, inDegree': map<string, int>)
    requires forall n :: Get(inDegree, n) == InCount(edges, n)
    ensures edges' == edges + ListEdges(from, tos)
    ensures forall n :: Get(inDegree', n) == InCount(edges', n)
  {
    edges' := edges;
    inDegree' := inDegree;
    for j := 0 to |tos|
      invariant edges' == edges + ListEdges(from, tos[..j])
      invariant forall n :: Get(inDegree', n) == InCount(edges', n)
    {
      var to := tos[j];
      assert ListEdges(from, tos[..j + 1]) == ListEdges(from, tos[..j]) + [GraphEdge(from, to)];
      inDegree' := inDegree'[to := Get(inDegree', to) + 1];
      edges' := edges' + [GraphEdge(from, to)];
    }
    assert tos[..|tos|] == tos;
  }

  /** The scan over the graph: the edge list and both degree counters. */
  method CountDegrees(g: Graph, keys: seq<string>)
    returns (edges: seq<GraphEdge>, inDegree: map<string, int>, outDegree: map<string, int>)
    requires NoDup(keys) && forall k :: k in keys ==> k in g
    ensures Counted(g, keys, edges, inDegree, outDegree)
  {
    edges := [];
    inDegree := map[];
    outDegree := map[];
    for i := 0 to |keys|
      invariant Counted(g, keys[..i], edges, inDegree, outDegree)
    {
      var from := keys[i];
      assert keys[..i + 1] == keys[..i] + [from];
      assert from !in keys[..i];
      outDegree := outDegree[from := Get(outDegree, from) + |g[from]|];
      edges, inDegree := CountList(from, g[from], edges, inDegree);
    }
    assert keys[..|keys|] == keys;
  }

  /** The row for one module. */
  function Row(m: string, edges: seq<GraphEdge>, g: Graph, depth: map<string, int>, mains: seq<string>): GraphNode
  {
    GraphNode(m, InCount(edges, m), |Adj(g, m)|, if m in depth then depth[m] else -1, m in mains)
  }

  function Rows(order: seq<string>, edges: seq<GraphEdge>, g: Graph, depth: map<string, int>, mains: seq<string>): (r: seq<GraphNode>)
    ensures |r| == |order|
    ensures forall i :: 0 <= i < |order| ==> r[i] == Row(order[i], edges, g, depth, mains)
  {
    seq(|order|, i requires 0 <= i < |order| => Row(order[i], edges, g, depth, mains))
  }

  /** The loop over the node set, one row per module. */
  method MakeRows(order: seq<string>, inDegree: map<string, int>, outDegree: map<string, int>,
                  depth: map<string, int>, mains: seq<string>,
                  ghost g: Graph, ghost edges: seq<GraphEdge>)
    returns (nodes: seq<GraphNode>)
    requires forall n :: Get(inDegree, n) == InCount(edges, n)
    requires forall n :: Get(outDegree, n) == |Adj(g, n)|
    ensures nodes == Rows(order, edges, g, depth, mains)
  {
    nodes := [];
    for i := 0 to |order|
      invariant |nodes| == i
      invariant forall k :: 0 <= k < i ==> nodes[k] == Row(order[k], edges, g, depth, mains)
    {
      var m := order[i];
      var moduleDepth := -1;
      if m in depth {
        moduleDepth := depth[m];
      }
      var row := GraphNode(m, Get(inDegree, m), Get(outDegree, m), moduleDepth, Utils.Contains(mains, m));
      assert row == Row(m, edges, g, depth, mains);
      nodes := nodes + [row];
    }
  }

  /** Edges ordered by source, then target. */
  predicate EdgeLess(a: GraphEdge, b: GraphEdge)
  {
    if a.from == b.from then Less(a.to, b.to) else Less(a.from, b.from)
  }

  /** Nodes ordered by module path. */
  predicate NodeLess(a: GraphNode, b: GraphNode)
  {
    Less(a.name, b.name)
  }

  lemma EdgeLessIsStrict()
    ensures StrictOrder(EdgeLess)
  {
    forall a ensures !EdgeLess(a, a) {
      LessIrreflexive(a.to);
    }
    forall a, b, c | EdgeLess(a, b) && EdgeLess(b, c) ensures EdgeLess(a, c) {
      if a.from == b.from && b.from == c.from {
        LessTransitive(a.to, b.to, c.to);
      } else if a.from == b.from {
      } else if b.from == c.from {
        LessIrreflexive(a.from);
      } else {
        LessTransitive(a.from, b.from, c.from);
        if a.from == c.from { LessAsymmetric(a.from, b.from); }
      }
    }
  }

  lemma NodeLessIsStrict()
    ensures StrictOrder(NodeLess)
  {
    forall a ensures !NodeLess(a, a) {
      LessIrreflexive(a.name);
    }
    forall a, b, c | NodeLess(a, b) && NodeLess(b, c) ensures NodeLess(a, c) {
      LessTransitive(a.name, b.name, c.name);
    }
  }

  /** What `buildGraphTopology` returns, before its properties are derived. */
  ghost predicate TopologyOf(g: Graph, mains: seq<string>, keys: seq<string>, order: seq<string>,
                             nodes: seq<GraphNode>, edges: seq<GraphEdge>, depth: map<string, int>)
  {
    && edges == SortBy(EdgeList(g, keys), EdgeLess)
    && nodes == SortBy(Rows(order, EdgeList(g, keys), g, depth, mains), NodeLess)
    && (forall m :: m in mains ==> m in depth && depth[m] == 0)
    && (forall n :: n in depth ==> ReachedIn(g, mains, n, depth[n]))
    && (forall a, b :: a in depth && Edge(g, a, b) ==> b in depth && depth[b] <= depth[a] + 1)
  }

  /**
   `buildGraphTopology`. `keys` is the order in which the map iteration
   visited the graph and `order` the one in which it visited the node set
   (the main modules, keys and targets); each visits every element once.
   */
  method BuildGraphTopology(overview: Utils.DependencyOverview, keys: seq<string>, order: seq<string>)
    returns (nodes: seq<GraphNode>, edges: seq<GraphEdge>, ghost depth: map<string, int>)
    requires NoDup(keys) && forall k :: k in keys <==> k in overview.graph
    requires NoDup(order) && forall x :: x in order <==> x in Universe(overview.graph, overview.mainModules)
    ensures TopologyOf(overview.graph, overview.mainModules, keys, order, nodes, edges, depth)
  {
    var g := overview.graph;
    var raw, inDegree, outDegree := CountDegrees(g, keys);
    edges := SortBy(raw, EdgeLess);
    var d := ShortestDepthByModule(overview.mainModules, g);
    depth := d;
    assert forall n :: Get(outDegree, n) == |Adj(g, n)|;
    var rows := MakeRows(order, inDegree, outDegree, d, overview.mainModules, g, raw);
    nodes := SortBy(rows, NodeLess);
  }

  // The degree tables: every edge is counted once at each end.

  function InDegreeOf(n: GraphNode): int { n.inDegree }

  function OutDegreeOf(n: GraphNode): int { n.outDegree }

  /** How often `x` occurs in `s`. */
  function Hits(s: seq<string>, x: string): nat
  {
    if s == [] then 0 else (if s[0] == x then 1 else 0) + Hits(s[1..], x)
  }

  lemma {:induction false} HitsNoDup(s: seq<string>, x: string)
    requires NoDup(s)
    ensures Hits(s, x) == if x in s then 1 else 0
    decreases |s|
  {
    if s != [] {
      assert NoDup(s[1..]);
      HitsNoDup(s[1..], x);
      assert s == [s[0]] + s[1..];
    }
  }

  function SumIn(order: seq<string>, es: seq<GraphEdge>): int
  {
    if order == [] then 0 else InCount(es, order[0]) + SumIn(order[1..], es)
  }

  function SumOut(order: seq<string>, es: seq<GraphEdge>): int
  {
    if order == [] then 0 else OutCount(es, order[0]) + SumOut(order[1..], es)
  }

  lemma {:induction false} SumSnocEdge(order: seq<string>, es: seq<GraphEdge>, e: GraphEdge)
    ensures SumIn(order, es + [e]) == SumIn(order, es) + Hits(order, e.to)
    ensures SumOut(order, es + [e]) == SumOut(order, es) + Hits(order, e.from)
    decreases |order|
  {
    assert (es + [e])[..|es|] == es;
    if order != [] {
      SumSnocEdge(order[1..], es, e);
    }
  }

  /** When every edge has both ends in `order`, each sum counts every edge once. */
  lemma {:induction false} SumsTotal(order: seq<string>, es: seq<GraphEdge>)
    requires NoDup(order)
    requires forall e :: e in es ==> e.from in order && e.to in order
    ensures SumIn(order, es) == |es| && SumOut(order, es) == |es|
    decreases |es|
  {
    if es == [] {
      assert SumIn(order, es) == 0 && SumOut(order, es) == 0 by {
        ZeroSums(order, es);
      }
    } else {
      var init, e := es[..|es| - 1], es[|es| - 1];
      SumsTotal(order, init);
      SumSnocEdge(order, init, e);
      HitsNoDup(order, e.to);
      HitsNoDup(order, e.from);
      assert init + [e] == es;
    }
  }

  lemma {:induction false} ZeroSums(order: seq<string>, es: seq<GraphEdge>)
    requires es == []
    ensures SumIn(order, es) == 0 && SumOut(order, es) == 0
    decreases |order|
  {
    if order != [] { ZeroSums(order[1..], es); }
  }

  /** The edges of the scan are exactly the adjacency entries of the visited keys. */
  lemma {:induction false} EdgeListMembers(g: Graph, keys: seq<string>)
    ensures forall e :: e in EdgeList(g, keys) <==> e.from in keys && e.to in Adj(g, e.from)
    decreases |keys|
  {
    if keys != [] {
      var init, k := keys[..|keys| - 1], keys[|keys| - 1];
      EdgeListMembers(g, init);
      assert keys == init + [k];
      forall e ensures e in ListEdges(k, Adj(g, k)) <==> e.from == k && e.to in Adj(g, k) {
        if e.from == k && e.to in Adj(g, k) {
          var j :| 0 <= j < |Adj(g, k)| && Adj(g, k)[j] == e.to;
          assert ListEdges(k, Adj(g, k))[j] == e;
        }
      }
    }
  }

  lemma {:induction false} RowSums(order: seq<string>, es: seq<GraphEdge>, g: Graph, keys: seq<string>,
                                   depth: map<string, int>, mains: seq<string>)
    requires es == EdgeList(g, keys) && NoDup(keys) && forall k :: k in keys <==> k in g
    ensures SumOf(Rows(order, es, g, depth, mains), InDegreeOf) == SumIn(order, es)
    ensures SumOf(Rows(order, es, g, depth, mains), OutDegreeOf) == SumOut(order, es)
    decreases |order|
  {
    if order != [] {
      var rows := Rows(order, es, g, depth, mains);
      assert rows[1..] == Rows(order[1..], es, g, depth, mains);
      RowSums(order[1..], es, g, keys, depth, mains);
      OutCountEdgeList(g, keys, order[0]);
    }
  }

  /** The rows are distinct exactly when their modules are. */
  lemma RowsNoDup(order: seq<string>, es: seq<GraphEdge>, g: Graph, depth: map<string, int>, mains: seq<string>)
    requires NoDup(order)
    ensures NoDup(Rows(order, es, g, depth, mains))
  {
  }

  /**
   What the topology promises: edges sorted by (from, to) and exactly the
   adjacency entries; one node per module of the graph or main module,
   strictly ordered by path, each with its in- and out-degree; and both
   degree columns summing to the number of edges.
   */
  lemma TopologyFacts(g: Graph, mains: seq<string>, keys: seq<string>, order: seq<string>,
                      nodes: seq<GraphNode>, edges: seq<GraphEdge>, depth: map<string, int>)
    requires NoDup(keys) && forall k :: k in keys <==> k in g
    requires NoDup(order) && forall x :: x in order <==> x in Universe(g, mains)
    requires TopologyOf(g, mains, keys, order, nodes, edges, depth)
    ensures Sorted(edges, EdgeLess)
    ensures forall e :: e in edges <==> e.from in g && e.to in g[e.from]
    ensures forall i, j :: 0 <= i < j < |nodes| ==> Less(nodes[i].name, nodes[j].name)
    ensures forall x :: x in Universe(g, mains) <==> exists i :: 0 <= i < |nodes| && nodes[i].name == x
    ensures forall i :: 0 <= i < |nodes| ==> nodes[i] == Row(nodes[i].name, EdgeList(g, keys), g, depth, mains)
    ensures SumOf(nodes, InDegreeOf) == |edges| && SumOf(nodes, OutDegreeOf) == |edges|
  {
    var es := EdgeList(g, keys);
    var rows := Rows(order, es, g, depth, mains);
    EdgeFacts(g, keys, edges);
    NodeRows(order, es, g, depth, mains, nodes);
    NodeOrder(order, es, g, depth, mains, nodes);
    NodeCover(g, mains, order, es, depth, nodes);
    NodeSums(g, mains, keys, order, depth, nodes, edges);
  }

  lemma EdgeFacts(g: Graph, keys: seq<string>, edges: seq<GraphEdge>)
    requires forall k :: k in keys <==> k in g
    requires edges == SortBy(EdgeList(g, keys), EdgeLess)
    ensures Sorted(edges, EdgeLess)
    ensures forall e :: e in edges <==> e.from in g && e.to in g[e.from]
  {
    EdgeLessIsStrict();
    SortBySorted(EdgeList(g, keys), EdgeLess);
    SortByMembers(EdgeList(g, keys), EdgeLess);
    EdgeListMembers(g, keys);
  }

  lemma NodeRows(order: seq<string>, es: seq<GraphEdge>, g: Graph, depth: map<string, int>, mains: seq<string>,
                 nodes: seq<GraphNode>)
    requires nodes == SortBy(Rows(order, es, g, depth, mains), NodeLess)
    ensures forall i :: 0 <= i < |nodes| ==> nodes[i] == Row(nodes[i].name, es, g, depth, mains)
  {
    var rows := Rows(order, es, g, depth, mains);
    SortByMembers(rows, NodeLess);
    forall i | 0 <= i < |nodes| ensures nodes[i] == Row(nodes[i].name, es, g, depth, mains) {
      assert nodes[i] in rows;
    }
  }

  lemma NodeOrder(order: seq<string>, es: seq<GraphEdge>, g: Graph, depth: map<string, int>, mains: seq<string>,
                  nodes: seq<GraphNode>)
    requires NoDup(order)
    requires nodes == SortBy(Rows(order, es, g, depth, mains), NodeLess)
    requires forall i :: 0 <= i < |nodes| ==> nodes[i] == Row(nodes[i].name, es, g, depth, mains)
    ensures forall i, j :: 0 <= i < j < |nodes| ==> Less(nodes[i].name, nodes[j].name)
  {
    var rows := Rows(order, es, g, depth, mains);
    NodeLessIsStrict();
    SortBySorted(rows, NodeLess);
    RowsNoDup(order, es, g, depth, mains);
    SortByNoDup(rows, NodeLess);
    forall i, j | 0 <= i < j < |nodes| ensures Less(nodes[i].name, nodes[j].name) {
      assert nodes[i] != nodes[j];
      assert !NodeLess(nodes[j], nodes[i]);
      LessTrichotomy(nodes[i].name, nodes[j].name);
    }
  }

  lemma NodeCover(g: Graph, mains: seq<string>, order: seq<string>, es: seq<GraphEdge>, depth: map<string, int>,
                  nodes: seq<GraphNode>)
    requires forall x :: x in order <==> x in Universe(g, mains)
    requires nodes == SortBy(Rows(order, es, g, depth, mains), NodeLess)
    ensures forall x :: x in Universe(g, mains) <==> exists i :: 0 <= i < |nodes| && nodes[i].name == x
  {
    SortByMembers(Rows(order, es, g, depth, mains), NodeLess);
    forall x | x in Universe(g, mains) ensures exists i :: 0 <= i < |nodes| && nodes[i].name == x {
      NodeListed(g, mains, order, es, depth, nodes, x);
    }
    forall i | 0 <= i < |nodes| ensures nodes[i].name in Universe(g, mains) {
      NodeKnown(g, mains, order, es, depth, nodes, i);
    }
  }

  lemma NodeListed(g: Graph, mains: seq<string>, order: seq<string>, es: seq<GraphEdge>, depth: map<string, int>,
                   nodes: seq<GraphNode>, x: string)
    requires forall y :: y in order <==> y in Universe(g, mains)
    requires forall r :: r in nodes <==> r in Rows(order, es, g, depth, mains)
    requires x in Universe(g, mains)
    ensures exists i :: 0 <= i < |nodes| && nodes[i].name == x
  {
    var rows := Rows(order, es, g, depth, mains);
    var k :| 0 <= k < |order| && order[k] == x;
    assert rows[k] in nodes;
    var i :| 0 <= i < |nodes| && nodes[i] == rows[k];
    assert nodes[i].name == x;
  }

  lemma NodeKnown(g: Graph, mains: seq<string>, order: seq<string>, es: seq<GraphEdge>, depth: map<string, int>,
                  nodes: seq<GraphNode>, i: int)
    requires forall y :: y in order <==> y in Universe(g, mains)
    requires forall r :: r in nodes <==> r in Rows(order, es, g, depth, mains)
    requires 0 <= i < |nodes|
    ensures nodes[i].name in Universe(g, mains)
  {
    var rows := Rows(order, es, g, depth, mains);
    assert nodes[i] in rows;
    var k :| 0 <= k < |rows| && rows[k] == nodes[i];
    assert order[k] == nodes[i].name;
  }

  lemma NodeSums(g: Graph, mains: seq<string>, keys: seq<string>, order: seq<string>, depth: map<string, int>,
                 nodes: seq<GraphNode>, edges: seq<GraphEdge>)
    requires NoDup(keys) && forall k :: k in keys <==> k in g
    requires NoDup(order) && forall x :: x in order <==> x in Universe(g, mains)
    requires edges == SortBy(EdgeList(g, keys), EdgeLess)
    requires nodes == SortBy(Rows(order, EdgeList(g, keys), g, depth, mains), NodeLess)
    ensures SumOf(nodes, InDegreeOf) == |edges| && SumOf(nodes, OutDegreeOf) == |edges|
  {
    var es := EdgeList(g, keys);
    var rows := Rows(order, es, g, depth, mains);
    SumSortBy(rows, NodeLess, InDegreeOf);
    SumSortBy(rows, NodeLess, OutDegreeOf);
    RowSums(order, es, g, keys, depth, mains);
    EdgeListMembers(g, keys);
    forall e | e in es ensures e.from in order && e.to in order {
      assert Edge(g, e.from, e.to);
    }
    SumsTotal(order, es);
  }

  /** A node's depth is -1 exactly when no walk leads to it from a main module, and otherwise its shortest distance. */
  lemma NodeDepth(g: Graph, mains: seq<string>, keys: seq<string>, order: seq<string>,
                  nodes: seq<GraphNode>, edges: seq<GraphEdge>, depth: map<string, int>, n: GraphNode)
    requires TopologyOf(g, mains, keys, order, nodes, edges, depth)
    requires n == Row(n.name, EdgeList(g, keys), g, depth, mains)
    ensures n.isMainModule <==> n.name in mains
    ensures n.depth == -1 <==> forall p :: !FromMain(g, mains, n.name, p)
    ensures n.depth >= 0 ==> ReachedIn(g, mains, n.name, n.depth)
    ensures forall p :: FromMain(g, mains, n.name, p) ==> n.depth <= |p| - 1
  {
    forall p | FromMain(g, mains, n.name, p) ensures n.name in depth && depth[n.name] <= |p| - 1 {
      DepthIsShortest(g, mains, depth, p);
    }
    if n.name in depth {
      assert ReachedIn(g, mains, n.name, depth[n.name]);
      var p :| FromMain(g, mains, n.name, p) && |p| == depth[n.name] + 1;
    }
  }

  // ---------------------------------------------------------------------
  // topNByMetric and buildRankings

  /** The degree a ranking reads: in-degree for "in", out-degree otherwise. */
  function Metric(metric: string, n: GraphNode): int
  {
    if metric == "in" then n.inDegree else n.outDegree
  }

  /** Ranking order: higher metric first, ties by module path. */
  predicate RankLess(metric: string, a: GraphNode, b: GraphNode)
  {
    if Metric(metric, a) == Metric(metric, b) then Less(a.name, b.name) else Metric(metric, a) > Metric(metric, b)
  }

  function RankBy(metric: string): (GraphNode, GraphNode) -> bool
  {
    (a: GraphNode, b: GraphNode) => RankLess(metric, a, b)
  }

  lemma RankByIsStrict(metric: string)
    ensures StrictOrder(RankBy(metric))
  {
    var lt := RankBy(metric);
    forall a ensures !lt(a, a) {
      LessIrreflexive(a.name);
    }
    forall a, b, c | lt(a, b) && lt(b, c) ensures lt(a, c) {
      if Metric(metric, a) == Metric(metric, b) == Metric(metric, c) {
        LessTransitive(a.name, b.name, c.name);
      }
    }
  }

  /** `topNByMetric`: the first `n` nodes of the ranked copy, or all of them when there are fewer. */
  function TopNByMetric(nodes: seq<GraphNode>, n: nat, metric: string): (r: seq<GraphNode>)
    ensures |r| == if n < |nodes| then n else |nodes|
    ensures r <= SortBy(nodes, RankBy(metric))
  {
    Take(SortBy(nodes, RankBy(metric)), n)
  }

  /** The top list is in ranking order, drawn from the input, and ranks no lower than any node it leaves out. */
  lemma TopNFacts(nodes: seq<GraphNode>, n: nat, metric: string)
    ensures Sorted(TopNByMetric(nodes, n, metric), RankBy(metric))
    ensures forall x :: x in TopNByMetric(nodes, n, metric) ==> x in nodes
    ensures var ranked := SortBy(nodes, RankBy(metric));
      forall i, j :: 0 <= i < |TopNByMetric(nodes, n, metric)| <= j < |ranked| ==> !RankLess(metric, ranked[j], ranked[i])
  {
    var ranked := SortBy(nodes, RankBy(metric));
    RankByIsStrict(metric);
    SortBySorted(nodes, RankBy(metric));
    SortByMembers(nodes, RankBy(metric));
  }

  datatype GraphRankings = GraphRankings(mode: string, n: int, inList: seq<GraphNode>, outList: seq<GraphNode>)

  /** `buildRankings`: the in-degree list for modes "in" and "both", the out-degree list for "out" and "both". */
  function BuildRankings(nodes: seq<GraphNode>, mode: string, n: nat): (r: GraphRankings)
    ensures r.mode == mode && r.n == n
    ensures mode != "in" && mode != "both" ==> r.inList == []
    ensures mode == "in" || mode == "both" ==>
      r.inList <= SortBy(nodes, RankBy("in")) && |r.inList| == (if n < |nodes| then n else |nodes|)
    ensures mode != "out" && mode != "both" ==> r.outList == []
    ensures mode == "out" || mode == "both" ==>
      r.outList <= SortBy(nodes, RankBy("out")) && |r.outList| == (if n < |nodes| then n else |nodes|)
  {
    GraphRankings(mode, n,
      if mode == "in" || mode == "both" then TopNByMetric(nodes, n, "in") else [],
      if mode == "out" || mode == "both" then TopNByMetric(nodes, n, "out") else [])
  }

  /** A sorted list whose members all rank after `x` starts with `x`. */
  lemma SortedLeader(s: seq<GraphNode>, metric: string, x: GraphNode)
    requires Sorted(s, RankBy(metric)) && x in s
    requires forall y :: y in s && y != x ==> RankLess(metric, x, y)
    ensures s[0] == x
  {
    var k :| 0 <= k < |s| && s[k] == x;
    if k > 0 {
      assert !RankLess(metric, s[k], s[0]);
    }
  }

  /** The leader of a ranking is the node that ranks before every other. */
  lemma TopNLeader(nodes: seq<GraphNode>, n: nat, metric: string, x: GraphNode)
    requires n > 0 && x in nodes
    requires forall y :: y in nodes && y != x ==> RankLess(metric, x, y)
    ensures |TopNByMetric(nodes, n, metric)| > 0 && TopNByMetric(nodes, n, metric)[0] == x
  {
    var ranked := SortBy(nodes, RankBy(metric));
    RankByIsStrict(metric);
    SortBySorted(nodes, RankBy(metric));
    SortByMembers(nodes, RankBy(metric));
    SortedLeader(ranked, metric, x);
  }

  /**
   The ranking example of the topology tests: of A (in 5, out 1), B (in 3,
   out 4) and C (in 10, out 2), the top two by in-degree start with C and
   by out-degree with B, and a count of zero gives empty lists.
   */
  lemma RankingsExample()
    ensures var nodes := [GraphNode("A", 5, 1, 0, false), GraphNode("B", 3, 4, 0, false), GraphNode("C", 10, 2, 0, false)];
      var r := BuildRankings(nodes, "both", 2);
      && |r.inList| == 2 && r.inList[0].name == "C"
      && |r.outList| == 2 && r.outList[0].name == "B"
      && BuildRankings(nodes, "both", 0).inList == [] && BuildRankings(nodes, "both", 0).outList == []
  {
    var a, b, c := GraphNode("A", 5, 1, 0, false), GraphNode("B", 3, 4, 0, false), GraphNode("C", 10, 2, 0, false);
    var nodes := [a, b, c];
    TopNLeader(nodes, 2, "in", c);
    TopNLeader(nodes, 2, "out", b);
  }

  // ---------------------------------------------------------------------
  // getAllChains and chainContains

  /** `chainContains`: linear membership test on a chain. */
  function ChainContains(chain: seq<string>, dep: string): (r: bool)
    ensures r <==> dep in chain
  {
    if chain == [] then false else chain[0] == dep || ChainContains(chain[1..], dep)
  }

  function Members(c: seq<string>): set<string>
  {
    set x | x in c
  }

  lemma ChainShrinks(g: Graph, c: seq<string>, d: string)
    requires d in Nodes(g) && d !in c
    ensures |Nodes(g) - Members(c + [d])| < |Nodes(g) - Members(c)|
  {
    assert Members(c + [d]) == Members(c) + {d};
    Utils.Shrinks(Nodes(g), Members(c), d);
  }

  /**
   The chains `getAllChains` records from `cur` after `chain`: a module
   without an adjacency entry ends the chain; otherwise each neighbour in
   turn either extends it or, when already on it, records it.
   */
  function Chains(cur: string, g: Graph, chain: seq<string>): seq<seq<string>>
    decreases |Nodes(g) - Members(chain + [cur])|, 1, 0
  {
    var c := chain + [cur];
    if cur !in g then [c] else Over(c, cur, g, |g[cur]|)
  }

  /** The chains from the first `n` neighbours of `cur`, the last module of `c`. */
  function Over(c: seq<string>, cur: string, g: Graph, n: nat): seq<seq<string>>
    requires cur in g && n <= |g[cur]|
    decreases |Nodes(g) - Members(c)|, 0, n
  {
    if n == 0 then [] else Over(c, cur, g, n - 1) + Step(c, cur, g, n - 1)
  }

  /** The `k`-th neighbour of `cur` either closes the chain `c` or extends it. */
  function Step(c: seq<string>, cur: string, g: Graph, k: nat): seq<seq<string>>
    requires cur in g && k < |g[cur]|
    decreases |Nodes(g) - Members(c)|, 0, 0
  {
    var d := g[cur][k];
    if d in c then [c]
    else
      assert Edge(g, cur, d);
      ChainShrinks(g, c, d);
      Chains(d, g, c)
  }

  /** `getAllChains`: the chains from `cur`, appended to `chains`. */
  method GetAllChains(cur: string, g: Graph, chain: seq<string>, chains: seq<seq<string>>)
    returns (chains': seq<seq<string>>)
    ensures chains' == chains + Chains(cur, g, chain)
    decreases |Nodes(g) - Members(chain + [cur])|, 1, 0
  {
    var c := chain + [cur];
    if cur in g {
      chains' := ExtendAll(c, cur, g, chains);
    } else {
      chains' := chains + [c];
    }
  }

  /** The loop over the neighbours of `cur` in `getAllChains`. */
  method ExtendAll(c: seq<string>, cur: string, g: Graph, chains: seq<seq<string>>)
    returns (chains': seq<seq<string>>)
    requires cur in g
    ensures chains' == chains + Over(c, cur, g, |g[cur]|)
    decreases |Nodes(g) - Members(c)|, 0, |g[cur]| + 1
  {
    chains' := chains;
    for i := 0 to |g[cur]|
      invariant chains' == chains + Over(c, cur, g, i)
    {
      chains' := NextChains(c, cur, g, i, chains');
    }
  }

  /** One pass of the loop in `getAllChains`. */
  method NextChains(c: seq<string>, cur: string, g: Graph, k: nat, chains: seq<seq<string>>)
    returns (chains': seq<seq<string>>)
    requires cur in g && k < |g[cur]|
    ensures chains' == chains + Step(c, cur, g, k)
    decreases |Nodes(g) - Members(c)|, 0, 0
  {
    var d := g[cur][k];
    if !Utils.Contains(c, d) {
      assert Edge(g, cur, d);
      ChainShrinks(g, c, d);
      chains' := GetAllChains(d, g, c, chains);
    } else {
      chains' := chains + [c];
    }
  }

  /** A chain stops at a module without an entry, or at one with a neighbour already on it. */
  ghost predicate Ended(g: Graph, ch: seq<string>)
    requires |ch| > 0
  {
    var last := ch[|ch| - 1];
    last !in g || exists d :: d in g[last] && d in ch
  }

  /** What the enumeration records of each chain. */
  ghost predicate GoodChain(g: Graph, c: seq<string>, ch: seq<string>)
  {
    c <= ch && |ch| > 0 && IsSimplePath(g, ch) && Ended(g, ch)
  }

  lemma {:induction false} ChainsSound(cur: string, g: Graph, chain: seq<string>)
    requires IsSimplePath(g, chain + [cur])
    ensures forall ch :: ch in Chains(cur, g, chain) ==> GoodChain(g, chain + [cur], ch)
    decreases |Nodes(g) - Members(chain + [cur])|, 1, 0
  {
    var c := chain + [cur];
    if cur in g {
      OverSound(c, cur, g, |g[cur]|);
    }
  }

  lemma {:induction false} OverSound(c: seq<string>, cur: string, g: Graph, n: nat)
    requires cur in g && n <= |g[cur]| && IsSimplePath(g, c) && c[|c| - 1] == cur
    ensures forall ch :: ch in Over(c, cur, g, n) ==> GoodChain(g, c, ch)
    decreases |Nodes(g) - Members(c)|, 0, n
  {
    if n > 0 {
      OverSound(c, cur, g, n - 1);
      StepSound(c, cur, g, n - 1);
      forall ch | ch in Over(c, cur, g, n) ensures GoodChain(g, c, ch) {
        assert ch in Over(c, cur, g, n - 1) || ch in Step(c, cur, g, n - 1);
      }
    }
  }

  lemma {:induction false} StepSound(c: seq<string>, cur: string, g: Graph, k: nat)
    requires cur in g && k < |g[cur]| && IsSimplePath(g, c) && c[|c| - 1] == cur
    ensures forall ch :: ch in Step(c, cur, g, k) ==> GoodChain(g, c, ch)
    decreases |Nodes(g) - Members(c)|, 0, 0
  {
    var d := g[cur][k];
    if d in c {
      assert GoodChain(g, c, c);
    } else {
      assert Edge(g, cur, d);
      ChainShrinks(g, c, d);
      PathSnoc(g, c, d);
      assert NoDup(c + [d]);
      ChainsSound(d, g, c);
      forall ch | ch in Chains(d, g, c) ensures c <= ch {
        assert (c + [d])[..|c|] == c;
      }
    }
  }

  /** Every simple walk extending `chain + [cur]` that ends as above is recorded. */
  lemma {:induction false} ChainsComplete(cur: string, g: Graph, chain: seq<string>, p: seq<string>)
    requires GoodChain(g, chain + [cur], p)
    ensures p in Chains(cur, g, chain)
    decreases |p| - |chain|
  {
    var c := chain + [cur];
    if |p| == |c| {
      assert p == c;
      if cur in g {
        var d :| d in g[cur] && d in c;
        var k :| 0 <= k < |g[cur]| && g[cur][k] == d;
        OverContains(c, cur, g, |g[cur]|, k, c);
      }
    } else {
      var d := p[|c|];
      assert Edge(g, p[|c| - 1], d);
      assert p[|c| - 1] == cur;
      assert d !in c by {
        forall i | 0 <= i < |c| ensures c[i] != d {
          assert c[i] == p[i];
        }
      }
      assert (c + [d]) <= p;
      ChainShrinks(g, c, d);
      ChainsComplete(d, g, c, p);
      var k :| 0 <= k < |g[cur]| && g[cur][k] == d;
      OverContains(c, cur, g, |g[cur]|, k, p);
    }
  }

  /** What the `k`-th neighbour contributes is part of the whole loop's result. */
  lemma {:induction false} OverContains(c: seq<string>, cur: string, g: Graph, n: nat, k: nat, p: seq<string>)
    requires cur in g && k < n <= |g[cur]|
    requires var d := g[cur][k]; if d in c then p == c else p in Chains(d, g, c)
    ensures p in Over(c, cur, g, n)
    decreases n
  {
    if k < n - 1 {
      OverContains(c, cur, g, n - 1, k, p);
    }
  }

  /** The chains from a root are exactly its simple walks that end as above. */
  lemma AllChainsExact(root: string, g: Graph, p: seq<string>)
    ensures p in Chains(root, g, []) <==> |p| > 0 && p[0] == root && GoodChain(g, [root], p)
  {
    assert [] + [root] == [root];
    assert IsSimplePath(g, [root]);
    ChainsSound(root, g, []);
    if |p| > 0 && p[0] == root && GoodChain(g, [root], p) {
      ChainsComplete(root, g, [], p);
    }
  }
}
