/**
 The dependency graph every command works on: Go's
 `map[string][]string` from a module to the modules it requires.
 */
module Graphs {
  import opened Seqs

  type Graph = map<string, seq<string>>

  /** `graph[n]`, with Go's nil slice for a missing key. */
  function Adj(g: Graph, n: string): seq<string>
  {
    if n in g then g[n] else []
  }

  predicate Edge(g: Graph, a: string, b: string)
  {
    b in Adj(g, a)
  }

  /** Every module that occurs in the graph: the keys and all targets. */
  function Nodes(g: Graph): (r: set<string>)
    ensures forall a, b :: Edge(g, a, b) ==> a in r && b in r
    ensures g.Keys <= r
  {
    g.Keys + set a, b | a in g && b in g[a] :: b
  }

  /** A non-empty walk along graph edges. */
  ghost predicate IsPath(g: Graph, p: seq<string>)
  {
    |p| >= 1 && forall i :: 0 <= i < |p| - 1 ==> Edge(g, p[i], p[i + 1])
  }

  /** A walk that visits no module twice. */
  ghost predicate IsSimplePath(g: Graph, p: seq<string>)
  {
    IsPath(g, p) && NoDup(p)
  }

  /** No walk of one or more edges returns to where it started. */
  ghost predicate Acyclic(g: Graph)
  {
    forall p :: IsPath(g, p) && |p| >= 2 ==> p[0] != p[|p| - 1]
  }

  lemma PathCons(g: Graph, a: string, p: seq<string>)
    requires IsPath(g, p) && Edge(g, a, p[0])
    ensures IsPath(g, [a] + p)
  {
    var q := [a] + p;
    forall i | 0 <= i < |q| - 1 ensures Edge(g, q[i], q[i + 1]) {
      if i > 0 { assert q[i] == p[i - 1] && q[i + 1] == p[i]; }
    }
  }

  lemma PathSnoc(g: Graph, p: seq<string>, b: string)
    requires IsPath(g, p) && Edge(g, p[|p| - 1], b)
    ensures IsPath(g, p + [b])
  {
    var q := p + [b];
    forall i | 0 <= i < |q| - 1 ensures Edge(g, q[i], q[i + 1]) {
      if i < |p| - 1 { assert q[i] == p[i] && q[i + 1] == p[i + 1]; }
    }
  }

  lemma PathSuffix(g: Graph, p: seq<string>, k: nat)
    requires IsPath(g, p) && k < |p|
    ensures IsPath(g, p[k..])
  {
    var q := p[k..];
    forall i | 0 <= i < |q| - 1 ensures Edge(g, q[i], q[i + 1]) {
      assert q[i] == p[k + i] && q[i + 1] == p[k + i + 1];
    }
  }

  /** Every module on a walk after its first step is in `Nodes(g)`. */
  lemma PathInNodes(g: Graph, p: seq<string>, k: nat)
    requires IsPath(g, p) && 0 < k < |p|
    ensures p[k] in Nodes(g)
  {
    assert Edge(g, p[k - 1], p[k]);
  }
}
