/**
 The longest-chain search of `cmd/stats.go`: a depth-first walk from one
 module that remembers, per module, the longest chain found from it and
 cuts cycles by refusing to re-enter a module on the active chain. The Go
 code fills a shared `map[string]Chain` in place; here that map is passed
 in and handed back.
 */
module Stats {
  import opened Seqs
  import opened Graphs
  import Utils

  type Chain = seq<string>

  /**
   Every remembered chain starts at its module, follows edges, repeats no
   module, and consists of modules that are themselves remembered.
   */
  ghost predicate MemoValid(g: Graph, memo: map<string, Chain>)
  {
    && (forall n :: n in memo ==> |memo[n]| >= 1 && memo[n][0] == n && IsPath(g, memo[n]) && NoDup(memo[n]))
    && (forall n, x :: n in memo && x in memo[n] ==> x in memo)
  }

  /** No module of the active chain has a remembered chain. */
  ghost predicate Unmemoised(chain: Chain, memo: map<string, Chain>)
  {
    forall x :: x in chain ==> x !in memo
  }

  /** Entries are written once and never changed afterwards. */
  ghost predicate Extends(memo: map<string, Chain>, memo': map<string, Chain>)
  {
    forall n :: n in memo ==> n in memo' && memo'[n] == memo[n]
  }

  /** Every remembered chain is at least as long as any walk from its module. */
  ghost predicate MemoOptimal(g: Graph, memo: map<string, Chain>)
  {
    forall p :: IsPath(g, p) && p[0] in memo ==> |p| <= |memo[p[0]]|
  }

  /**
   `best` is the chain of the first child, in adjacency order, whose chain
   is the longest; children on the active chain yield nothing. Only a
   strictly longer chain replaces the current best.
   */
  ghost predicate FirstLongest(ds: seq<string>, active: Chain, memo: map<string, Chain>, best: Chain)
  {
    && (forall j :: 0 <= j < |ds| && ds[j] !in active ==> ds[j] in memo && |memo[ds[j]]| <= |best|)
    && (best != [] ==> exists j :: 0 <= j < |ds| && FirstBest(ds, j, active, memo, best))
  }

  /** Child `j` yields `best`, and every earlier child yields a shorter chain. */
  ghost predicate FirstBest(ds: seq<string>, j: int, active: Chain, memo: map<string, Chain>, best: Chain)
    requires 0 <= j < |ds|
  {
    && ds[j] !in active && ds[j] in memo && memo[ds[j]] == best
    && forall k :: 0 <= k < j && ds[k] !in active && ds[k] in memo ==> |memo[ds[k]]| < |best|
  }

  lemma FirstLongestExtends(ds: seq<string>, active: Chain, memo: map<string, Chain>, memo': map<string, Chain>, best: Chain)
    requires FirstLongest(ds, active, memo, best) && Extends(memo, memo')
    ensures FirstLongest(ds, active, memo', best)
  {
    if best != [] {
      var j :| 0 <= j < |ds| && FirstBest(ds, j, active, memo, best);
      assert FirstBest(ds, j, active, memo', best);
    }
  }

  /** One more child: its chain `c` replaces `best` only if strictly longer. */
  lemma FirstLongestStep(ds: seq<string>, i: int, active: Chain, memo: map<string, Chain>, best: Chain, c: Chain, best': Chain)
    requires 0 <= i < |ds|
    requires FirstLongest(ds[..i], active, memo, best)
    requires ds[i] in active ==> c == []
    requires ds[i] !in active ==> ds[i] in memo && memo[ds[i]] == c && |c| >= 1
    requires best' == if |c| > |best| then c else best
    ensures FirstLongest(ds[..i + 1], active, memo, best')
  {
    var ds' := ds[..i + 1];
    assert forall j :: 0 <= j < i ==> ds'[j] == ds[..i][j];
    if |c| > |best| {
      assert ds'[i] == ds[i];
      forall k | 0 <= k < i && ds'[k] !in active && ds'[k] in memo ensures |memo[ds'[k]]| < |best'| {
        assert ds'[k] == ds[..i][k];
      }
      assert FirstBest(ds', i, active, memo, best');
    } else if best != [] {
      var j :| 0 <= j < i && FirstBest(ds[..i], j, active, memo, best);
      assert FirstBest(ds', j, active, memo, best);
    }
  }

  /** The loop invariant of `LongestChild` after the call for child `ds[i]`. */
  lemma ChildStep(ds: seq<string>, i: int, active: Chain, memo: map<string, Chain>, memo': map<string, Chain>,
    best: Chain, c: Chain, best': Chain)
    requires 0 <= i < |ds|
    requires FirstLongest(ds[..i], active, memo, best) && Extends(memo, memo')
    requires best != [] ==> best[0] in ds && best[0] in memo && memo[best[0]] == best
    requires ds[i] in active ==> c == []
    requires ds[i] !in active ==> ds[i] in memo' && memo'[ds[i]] == c && |c| >= 1 && c[0] == ds[i]
    requires best' == if |c| > |best| then c else best
    ensures FirstLongest(ds[..i + 1], active, memo', best')
    ensures best' != [] ==> best'[0] in ds && best'[0] in memo' && memo'[best'[0]] == best'
  {
    FirstLongestExtends(ds[..i], active, memo, memo', best);
    FirstLongestStep(ds, i, active, memo', best, c, best');
  }

  /** Prepending `cur` to a child's chain (or to nothing) keeps the memo valid. */
  lemma ConsChain(g: Graph, memo: map<string, Chain>, cur: string, best: Chain)
    requires MemoValid(g, memo) && cur !in memo
    requires best != [] ==> best[0] in memo && memo[best[0]] == best && Edge(g, cur, best[0])
    ensures MemoValid(g, memo[cur := [cur] + best])
  {
    var r := [cur] + best;
    if best != [] {
      PathCons(g, cur, best);
    }
    forall i, j | 0 <= i < j < |r| ensures r[i] != r[j] {
      if i == 0 {
        assert r[j] == best[j - 1] && best[j - 1] in best;
      } else {
        assert r[i] == best[i - 1] && r[j] == best[j - 1];
      }
    }
  }

  /** On an acyclic graph no module can be re-entered along a walk. */
  lemma NotOnChain(g: Graph, chain: Chain, d: string)
    requires Acyclic(g) && IsPath(g, chain + [d])
    ensures d !in chain
  {
    var p := chain + [d];
    forall k | 0 <= k < |chain| ensures chain[k] != d {
      PathSuffix(g, p, k);
      var q := p[k..];
      assert |q| >= 2 && q[0] == chain[k] && q[|q| - 1] == d;
    }
  }

  /** Every module on the active chain has an edge, to the next one. */
  lemma ChainHasEdges(g: Graph, chain: Chain, cur: string)
    requires IsPath(g, chain + [cur])
    ensures forall x :: x in chain ==> Adj(g, x) != []
  {
    var p := chain + [cur];
    forall x | x in chain ensures Adj(g, x) != [] {
      var k :| 0 <= k < |chain| && chain[k] == x;
      assert Edge(g, p[k], p[k + 1]);
    }
  }

  /** A module without edges has only the one-module walk. */
  lemma LeafOptimal(g: Graph, memo: map<string, Chain>, cur: string)
    requires MemoOptimal(g, memo) && Adj(g, cur) == []
    ensures MemoOptimal(g, memo[cur := [cur]])
  {
    forall p | IsPath(g, p) && p[0] in memo[cur := [cur]] ensures |p| <= |memo[cur := [cur]][p[0]]| {
      if p[0] == cur {
        assert |p| < 2 || Edge(g, p[0], p[1]);
      }
    }
  }

  /** On an acyclic graph, one plus the longest child chain is the longest walk. */
  lemma ConsOptimal(g: Graph, memo: map<string, Chain>, chain: Chain, cur: string, best: Chain)
    requires Acyclic(g) && MemoOptimal(g, memo) && cur !in memo
    requires IsPath(g, chain + [cur])
    requires FirstLongest(Adj(g, cur), chain + [cur], memo, best)
    ensures MemoOptimal(g, memo[cur := [cur] + best])
  {
    var memo' := memo[cur := [cur] + best];
    forall p | IsPath(g, p) && p[0] in memo' ensures |p| <= |memo'[p[0]]| {
      if p[0] == cur && |p| >= 2 {
        var d := p[1];
        assert Edge(g, cur, d);
        var k :| 0 <= k < |Adj(g, cur)| && Adj(g, cur)[k] == d;
        PathSnoc(g, chain + [cur], d);
        NotOnChain(g, chain + [cur], d);
        PathSuffix(g, p, 1);
        assert p[1..][0] == d;
      }
    }
  }

  lemma ChainShrinks(g: Graph, chain: Chain, cur: string)
    requires cur in Nodes(g) && cur !in chain
    ensures |Nodes(g) - (set x | x in chain + [cur])| < |Nodes(g) - (set x | x in chain)|
  {
    assert (set x | x in chain + [cur]) == (set x | x in chain) + {cur};
    Utils.Shrinks(Nodes(g), (set x | x in chain), cur);
  }

  /**
   `getLongestChain`: the longest chain from `cur` whose modules are not
   on the active `chain`, remembering the chains it completes in `memo`.
   */
  method GetLongestChain(cur: string, g: Graph, chain: Chain, memo: map<string, Chain>)
    returns (r: Chain, memo': map<string, Chain>)
    requires IsPath(g, chain + [cur])
    requires MemoValid(g, memo) && Unmemoised(chain, memo)
    ensures MemoValid(g, memo') && Extends(memo, memo') && Unmemoised(chain, memo')
    ensures cur in memo ==> r == memo[cur] && memo' == memo
    ensures cur !in memo && Adj(g, cur) == [] ==> r == [cur] && memo' == memo[cur := [cur]]
    ensures cur !in memo && Adj(g, cur) != [] && cur in chain ==> r == [] && memo' == memo
    ensures cur !in memo && Adj(g, cur) != [] && cur !in chain ==>
      |r| >= 1 && r[0] == cur && FirstLongest(Adj(g, cur), chain + [cur], memo', r[1..])
    ensures r != [] ==> cur in memo' && memo'[cur] == r
    ensures Acyclic(g) && MemoOptimal(g, memo) ==> MemoOptimal(g, memo') && r != []
    decreases |Nodes(g) - (set x | x in chain)|, 2
  {
    if cur in memo {
      return memo[cur], memo;
    }
    var deps := Adj(g, cur);
    if |deps| == 0 {
      r := [cur];
      ChainHasEdges(g, chain, cur);
      ConsChain(g, memo, cur, []);
      if Acyclic(g) && MemoOptimal(g, memo) {
        LeafOptimal(g, memo, cur);
      }
      return r, memo[cur := r];
    }
    if Utils.Contains(chain, cur) {
      if Acyclic(g) {
        NotOnChain(g, chain, cur);
      }
      return [], memo;
    }
    var best;
    best, memo' := LongestChild(cur, g, chain, memo);
    r := [cur] + best;
    ConsChain(g, memo', cur, best);
    if Acyclic(g) && MemoOptimal(g, memo) {
      ConsOptimal(g, memo', chain, cur, best);
    }
    FirstLongestExtends(deps, chain + [cur], memo', memo'[cur := r], best);
    assert r[1..] == best;
    memo' := memo'[cur := r];
  }

  /**
   The loop of lines 121-129: the chain of the first child of `cur` whose
   chain is the longest, with `cur` pushed on the active chain.
   */
  method LongestChild(cur: string, g: Graph, chain: Chain, memo: map<string, Chain>)
    returns (best: Chain, memo': map<string, Chain>)
    requires IsPath(g, chain + [cur]) && cur !in chain && Adj(g, cur) != []
    requires MemoValid(g, memo) && Unmemoised(chain + [cur], memo)
    ensures MemoValid(g, memo') && Extends(memo, memo') && Unmemoised(chain + [cur], memo')
    ensures FirstLongest(Adj(g, cur), chain + [cur], memo', best)
    ensures best != [] ==> best[0] in Adj(g, cur) && best[0] in memo' && memo'[best[0]] == best
    ensures Acyclic(g) && MemoOptimal(g, memo) ==> MemoOptimal(g, memo')
    decreases |Nodes(g) - (set x | x in chain)|, 1
  {
    var deps := Adj(g, cur);
    var active := chain + [cur];
    ghost var opt := Acyclic(g) && MemoOptimal(g, memo);
    best := [];
    memo' := memo;
    for i := 0 to |deps|
      invariant MemoValid(g, memo') && Extends(memo, memo') && Unmemoised(active, memo')
      invariant FirstLongest(deps[..i], active, memo', best)
      invariant best != [] ==> best[0] in deps && best[0] in memo' && memo'[best[0]] == best
      invariant opt ==> MemoOptimal(g, memo')
    {
      best, memo' := VisitChild(cur, g, chain, memo', i, best);
    }
    assert deps[..|deps|] == deps;
  }

  /** One iteration of the loop of lines 121-129, for the child `Adj(g, cur)[i]`. */
  method VisitChild(cur: string, g: Graph, chain: Chain, memo: map<string, Chain>, i: int, best: Chain)
    returns (best': Chain, memo': map<string, Chain>)
    requires IsPath(g, chain + [cur]) && cur !in chain && 0 <= i < |Adj(g, cur)|
    requires MemoValid(g, memo) && Unmemoised(chain + [cur], memo)
    requires FirstLongest(Adj(g, cur)[..i], chain + [cur], memo, best)
    requires best != [] ==> best[0] in Adj(g, cur) && best[0] in memo && memo[best[0]] == best
    ensures MemoValid(g, memo') && Extends(memo, memo') && Unmemoised(chain + [cur], memo')
    ensures FirstLongest(Adj(g, cur)[..i + 1], chain + [cur], memo', best')
    ensures best' != [] ==> best'[0] in Adj(g, cur) && best'[0] in memo' && memo'[best'[0]] == best'
    ensures Acyclic(g) && MemoOptimal(g, memo) ==> MemoOptimal(g, memo')
    decreases |Nodes(g) - (set x | x in chain)|, 0
  {
    var deps := Adj(g, cur);
    var active := chain + [cur];
    var d := deps[i];
    assert Edge(g, cur, d);
    PathSnoc(g, active, d);
    ChainShrinks(g, chain, cur);
    var c;
    c, memo' := GetLongestChain(d, g, active, memo);
    best' := if |c| > |best| then c else best;
    ChildStep(deps, i, active, memo, memo', best, c, best');
  }

  /**
   The chain behind "Max Depth Of Dependencies" (stats.go line 52): the
   search from a module with an empty active chain and an empty memo.
   */
  method LongestChain(root: string, g: Graph) returns (r: Chain)
    ensures |r| >= 1 && r[0] == root && IsPath(g, r) && NoDup(r)
    ensures Acyclic(g) ==> forall p :: IsPath(g, p) && p[0] == root ==> |p| <= |r|
  {
    var memo;
    assert [] + [root] == [root];
    r, memo := GetLongestChain(root, g, [], map[]);
  }
}
