/**
 Johnson's elementary-cycle search of the cycle finder in `cmd/cycles.go`,
 stated as functions of the finder's state. Nodes are indices into the
 sorted node list `names`; `adj[i]` holds the indices of the neighbours of
 `names[i]`, in adjacency order. The finder's methods in module Cycles are
 proved to compute exactly these functions.

 The search differs from the source in one guard: a neighbour already on
 the stack is not entered again, with or without a length cap. With a cap
 the source can enter such a neighbour (module CappedJohnson shows an
 input) and then reports a cycle that repeats a node. Without a cap
 Johnson's algorithm keeps every node on the stack blocked, so the guard
 should never fire there; that is not proved here.
 */
module Johnson {
  import opened Seqs
  import opened Strings
  import opened Graphs

  /**
   The mutable part of the finder: the blocked flags, the blocked map
   (entry `i` lists the nodes blocked on node `i`, in the order they were
   added), the stack of the current path and the cycles reported so far.
   */
  datatype State = State(blocked: seq<bool>, bmap: seq<seq<int>>, stack: seq<int>, cycles: seq<seq<string>>)

  datatype Outcome = Outcome(st: State, found: bool)

  /** A fresh finder over `n` nodes. */
  function Initial(n: nat): (s: State)
    ensures |s.blocked| == n && |s.bmap| == n && s.stack == [] && s.cycles == []
  {
    State(seq(n, i => false), seq(n, i => []), [], [])
  }

  /** The number of blocked nodes. */
  function Count(b: seq<bool>): nat
  {
    if b == [] then 0 else (if b[0] then 1 else 0) + Count(b[1..])
  }

  lemma {:induction false} CountClear(b: seq<bool>, w: int)
    requires 0 <= w < |b|
    ensures Count(b[w := false]) == Count(b) - if b[w] then 1 else 0
    decreases |b|
  {
    if w > 0 {
      assert b[w := false][1..] == b[1..][w - 1 := false];
      CountClear(b[1..], w - 1);
    } else {
      assert b[w := false][1..] == b[1..];
    }
  }

  lemma CountUnblock(b: seq<bool>, w: int)
    ensures Count(SetBlocked(b, w, false)) == Count(b) - if IsBlocked(b, w) then 1 else 0
  {
    if 0 <= w < |b| { CountClear(b, w); }
  }

  /** `blocked[i]` for a node index. */
  predicate IsBlocked(b: seq<bool>, i: int)
  {
    0 <= i < |b| && b[i]
  }

  function SetBlocked(b: seq<bool>, i: int, x: bool): (r: seq<bool>)
    ensures |r| == |b|
  {
    if 0 <= i < |b| then b[i := x] else b
  }

  /** Entry `i` of the blocked map or of the adjacency. */
  function At(m: seq<seq<int>>, i: int): seq<int>
  {
    if 0 <= i < |m| then m[i] else []
  }

  function SetAt(m: seq<seq<int>>, i: int, x: seq<int>): (r: seq<seq<int>>)
    ensures |r| == |m|
  {
    if 0 <= i < |m| then m[i := x] else m
  }

  /** `delete(blockedMap[v], w)` on the list form of the entry. */
  function Remove(ws: seq<int>, w: int): (r: seq<int>)
    ensures forall x :: x in r <==> x in ws && x != w
  {
    if ws == [] then [] else (if ws[0] == w then [] else [ws[0]]) + Remove(ws[1..], w)
  }

  /**
   `unblock(v)`: clear `v`'s flag, then for each node blocked on `v`,
   drop it from `v`'s entry and unblock it if it is still blocked.
   It only ever clears flags, and it touches the entry of no node that
   was unblocked beforehand, other than `v`'s own, which it empties.
   */
  function Unblock(s: State, v: int): (r: State)
    ensures |r.blocked| == |s.blocked| && |r.bmap| == |s.bmap| && r.stack == s.stack && r.cycles == s.cycles
    ensures Count(r.blocked) <= Count(s.blocked)
    ensures !IsBlocked(r.blocked, v)
    ensures forall i :: IsBlocked(r.blocked, i) ==> IsBlocked(s.blocked, i)
    ensures forall u :: u != v && !IsBlocked(s.blocked, u) ==> At(r.bmap, u) == At(s.bmap, u)
    ensures At(r.bmap, v) == []
    decreases Count(s.blocked) + (if IsBlocked(s.blocked, v) then 0 else 1), 1, 0
  {
    var s' := s.(blocked := SetBlocked(s.blocked, v, false));
    CountUnblock(s.blocked, v);
    var r := UnblockEach(s', v, At(s.bmap, v));
    HeadIsMember(At(r.bmap, v));
    r
  }

  /** A non-empty list has a member, its head. */
  lemma HeadIsMember(xs: seq<int>)
    ensures xs != [] ==> xs[0] in xs
  {
  }

  /** The loop of `unblock(v)` over the nodes `ws` blocked on `v`. */
  function UnblockEach(s: State, v: int, ws: seq<int>): (r: State)
    requires !IsBlocked(s.blocked, v)
    ensures |r.blocked| == |s.blocked| && |r.bmap| == |s.bmap| && r.stack == s.stack && r.cycles == s.cycles
    ensures Count(r.blocked) <= Count(s.blocked)
    ensures !IsBlocked(r.blocked, v)
    ensures forall i :: IsBlocked(r.blocked, i) ==> IsBlocked(s.blocked, i)
    ensures forall u :: u != v && !IsBlocked(s.blocked, u) ==> At(r.bmap, u) == At(s.bmap, u)
    ensures forall x :: x in At(r.bmap, v) <==> x in At(s.bmap, v) && x !in ws
    decreases Count(s.blocked) + 1, 0, |ws|
  {
    if ws == [] then s
    else
      var w := ws[0];
      var s1 := s.(bmap := SetAt(s.bmap, v, Remove(At(s.bmap, v), w)));
      var s2 := if IsBlocked(s1.blocked, w) then Unblock(s1, w) else s1;
      UnblockEach(s2, v, ws[1..])
  }

  /**
   The failure branch of `circuit(v)`: `v` is recorded as blocked on each
   neighbour in the component, once.
   */
  function Blockers(ns: seq<int>, scc: set<int>, v: int, bmap: seq<seq<int>>): (r: seq<seq<int>>)
    ensures |r| == |bmap|
    ensures forall j, x :: x in At(r, j) <==>
      x in At(bmap, j) || (x == v && j in ns && j in scc && 0 <= j < |bmap|)
  {
    if ns == [] then bmap
    else
      var j := ns[0];
      var b := if j in scc && v !in At(bmap, j) then SetAt(bmap, j, At(bmap, j) + [v]) else bmap;
      Blockers(ns[1..], scc, v, b)
  }

  /** The names of a list of node indices. */
  function Names(names: seq<string>, p: seq<int>): (r: seq<string>)
    ensures |r| == |p|
    ensures forall i :: 0 <= i < |p| ==> r[i] == if 0 <= p[i] < |names| then names[p[i]] else ""
  {
    if p == [] then [] else [if 0 <= p[0] < |names| then names[p[0]] else ""] + Names(names, p[1..])
  }

  function Members(s: seq<int>): set<int>
  {
    set x | x in s
  }

  lemma Shrinks(scc: set<int>, stack: seq<int>, v: int)
    requires v in scc && v !in stack
    ensures |scc - Members(stack + [v])| + 1 == |scc - Members(stack)|
  {
    assert Members(stack + [v]) == Members(stack) + {v};
    assert scc - Members(stack + [v]) == (scc - Members(stack)) - {v};
  }

  /**
   `circuit(v, start, sccSet)`: push `v` and block it, scan its
   neighbours, then unblock `v` if a cycle was found through it and
   otherwise record it as blocked on each neighbour; pop `v`.
   `cap` is `maxLength`, with 0 for no limit.
   */
  function Circuit(adj: seq<seq<int>>, names: seq<string>, scc: set<int>, cap: int, start: int, v: int, s: State): (r: Outcome)
    requires v in scc && v !in s.stack
    ensures r.st.stack == s.stack && |r.st.blocked| == |s.blocked| && |r.st.bmap| == |s.bmap|
    ensures s.cycles <= r.st.cycles
    decreases |scc - Members(s.stack)|, 1, 0
  {
    var s1 := s.(stack := s.stack + [v], blocked := SetBlocked(s.blocked, v, true));
    Shrinks(scc, s.stack, v);
    var o := Scan(adj, names, scc, cap, start, v, s1, 0, false);
    var s2 := if o.found then Unblock(o.st, v) else o.st.(bmap := Blockers(At(adj, v), scc, v, o.st.bmap));
    Outcome(s2.(stack := s.stack), o.found)
  }

  /**
   The neighbour loop of `circuit(v)` from the `k`-th neighbour on. A
   neighbour outside the component is skipped; the start closes a cycle,
   reported when the stack is within the cap; any other neighbour is
   entered when it is unblocked, not on the stack, and the stack is below
   the cap.
   */
  function Scan(adj: seq<seq<int>>, names: seq<string>, scc: set<int>, cap: int, start: int, v: int,
                s: State, k: nat, found: bool): (r: Outcome)
    ensures r.st.stack == s.stack && |r.st.blocked| == |s.blocked| && |r.st.bmap| == |s.bmap|
    ensures s.cycles <= r.st.cycles
    decreases |scc - Members(s.stack)| + 1, 0, |At(adj, v)| - k
  {
    if k >= |At(adj, v)| then Outcome(s, found)
    else
      var j := At(adj, v)[k];
      if j !in scc then Scan(adj, names, scc, cap, start, v, s, k + 1, found)
      else if j == start then
        if cap == 0 || |s.stack| <= cap then
          Scan(adj, names, scc, cap, start, v, s.(cycles := s.cycles + [Names(names, s.stack + [start])]), k + 1, true)
        else Scan(adj, names, scc, cap, start, v, s, k + 1, found)
      else if !IsBlocked(s.blocked, j) && (cap == 0 || |s.stack| < cap) && j !in s.stack then
        var o := Circuit(adj, names, scc, cap, start, j, s);
        Scan(adj, names, scc, cap, start, v, o.st, k + 1, found || o.found)
      else Scan(adj, names, scc, cap, start, v, s, k + 1, found)
  }

  // ---------------------------------------------------------------------
  // What a reported cycle is

  /**
   `adj` is the index form of graph `g` over the node list `names`:
   entry `k` of `adj[i]` is the index of the `k`-th neighbour of `names[i]`.
   */
  ghost predicate Indexed(g: Graph, names: seq<string>, adj: seq<seq<int>>)
  {
    && |adj| == |names|
    && (forall i :: 0 <= i < |adj| ==> |adj[i]| == |Adj(g, names[i])|)
    && (forall i, k :: 0 <= i < |adj| && 0 <= k < |adj[i]| ==>
          0 <= adj[i][k] < |names| && names[adj[i][k]] == Adj(g, names[i])[k])
  }

  /**
   An elementary cycle as the finder reports it: it closes on its first
   module, follows graph edges, repeats no module before closing, starts
   from its smallest module, and has at most `cap` edges when `cap` is set.
   */
  ghost predicate ElementaryCycle(g: Graph, cap: int, c: seq<string>)
  {
    && |c| >= 2
    && c[0] == c[|c| - 1]
    && IsPath(g, c)
    && NoDup(c[..|c| - 1])
    && (forall i :: 0 <= i < |c| ==> LessEq(c[0], c[i]))
    && (cap != 0 ==> |c| - 1 <= cap)
  }

  /** The stack is a simple walk from the start inside the component. */
  ghost predicate Walk(adj: seq<seq<int>>, scc: set<int>, start: int, p: seq<int>)
  {
    && |p| >= 1 && p[0] == start && NoDup(p)
    && (forall i :: 0 <= i < |p| ==> p[i] in scc)
    && (forall i :: 0 <= i < |p| - 1 ==> p[i + 1] in At(adj, p[i]))
  }

  /** The component holds nodes from the start index on, and the node list is sorted. */
  ghost predicate Setting(g: Graph, names: seq<string>, adj: seq<seq<int>>, scc: set<int>, start: int)
  {
    && Indexed(g, names, adj)
    && NoDup(names) && Sorted(names, Less)
    && (forall j :: j in scc ==> start <= j < |names|)
  }

  /** The cycles from index `lo` on all satisfy ElementaryCycle and start at `first`. */
  ghost predicate GoodFrom(g: Graph, cap: int, first: string, cs: seq<seq<string>>, lo: int)
  {
    forall i :: 0 <= lo <= i < |cs| ==> ElementaryCycle(g, cap, cs[i]) && cs[i][0] == first
  }

  lemma {:induction false} NamesAppend(names: seq<string>, p: seq<int>, q: seq<int>)
    ensures Names(names, p + q) == Names(names, p) + Names(names, q)
  {
  }

  lemma NamesNoDup(names: seq<string>, p: seq<int>)
    requires NoDup(names) && NoDup(p) && forall i :: 0 <= i < |p| ==> 0 <= p[i] < |names|
    ensures NoDup(Names(names, p))
  {
    var c := Names(names, p);
    forall i, j | 0 <= i < j < |c| ensures c[i] != c[j] {
      assert p[i] != p[j];
    }
  }

  /** Consecutive indices on the walk name consecutive modules of a graph path. */
  lemma NamesPath(g: Graph, names: seq<string>, adj: seq<seq<int>>, q: seq<int>)
    requires Indexed(g, names, adj) && |q| >= 1
    requires forall i :: 0 <= i < |q| ==> 0 <= q[i] < |names|
    requires forall i :: 0 <= i < |q| - 1 ==> q[i + 1] in At(adj, q[i])
    ensures IsPath(g, Names(names, q))
  {
    var c := Names(names, q);
    forall i | 0 <= i < |c| - 1 ensures Edge(g, c[i], c[i + 1]) {
      var a := q[i];
      assert q[i + 1] in At(adj, a);
      var k :| 0 <= k < |adj[a]| && adj[a][k] == q[i + 1];
      assert c[i + 1] == Adj(g, names[a])[k];
    }
  }

  /** In a sorted node list, the name at `start` is the least of the names from `start` on. */
  lemma SortedLeast(names: seq<string>, start: int, q: seq<int>)
    requires Sorted(names, Less) && 0 <= start < |names| && |q| > 0 && q[0] == start
    requires forall i :: 0 <= i < |q| ==> start <= q[i] < |names|
    ensures forall i :: 0 <= i < |q| ==> LessEq(Names(names, q)[0], Names(names, q)[i])
  {
    forall i | 0 <= i < |q| ensures LessEq(names[start], names[q[i]]) {
      if q[i] != start {
        assert !Less(names[q[i]], names[start]);
        NotLess(names[q[i]], names[start]);
      }
    }
  }

  /** Closing the stack at the start yields an elementary cycle. */
  lemma Report(g: Graph, names: seq<string>, adj: seq<seq<int>>, scc: set<int>, cap: int, start: int, p: seq<int>)
    requires Setting(g, names, adj, scc, start) && Walk(adj, scc, start, p)
    requires start in At(adj, p[|p| - 1]) && (cap == 0 || |p| <= cap)
    ensures ElementaryCycle(g, cap, Names(names, p + [start])) && Names(names, p + [start])[0] == names[start]
  {
    var q := p + [start];
    var c := Names(names, q);
    assert forall i :: 0 <= i < |q| ==> start <= q[i] < |names| by {
      forall i | 0 <= i < |q| ensures start <= q[i] < |names| {
        assert q[i] in scc;
      }
    }
    assert IsPath(g, c) by {
      forall i | 0 <= i < |q| - 1 ensures q[i + 1] in At(adj, q[i]) {
        if i < |p| - 1 {
          assert q[i] == p[i] && q[i + 1] == p[i + 1];
        } else {
          assert q[i] == p[|p| - 1] && q[i + 1] == start;
        }
      }
      NamesPath(g, names, adj, q);
    }
    assert NoDup(c[..|c| - 1]) by {
      NamesAppend(names, p, [start]);
      assert c[..|c| - 1] == Names(names, p);
      NamesNoDup(names, p);
    }
    assert forall i :: 0 <= i < |c| ==> LessEq(c[0], c[i]) by {
      SortedLeast(names, start, q);
    }
  }

  /**
   Every cycle `circuit(v)` adds is elementary and starts at the start
   node, provided the stack with `v` pushed is a simple walk from the start.
   */
  lemma {:induction false} CircuitSound(g: Graph, names: seq<string>, adj: seq<seq<int>>, scc: set<int>, cap: int,
                                        start: int, v: int, s: State)
    requires Setting(g, names, adj, scc, start) && 0 <= start < |names|
    requires v in scc && v !in s.stack && Walk(adj, scc, start, s.stack + [v])
    ensures GoodFrom(g, cap, names[start], Circuit(adj, names, scc, cap, start, v, s).st.cycles, |s.cycles|)
    decreases |scc - Members(s.stack)|, 1, 0, 0
  {
    var s1 := s.(stack := s.stack + [v], blocked := SetBlocked(s.blocked, v, true));
    Shrinks(scc, s.stack, v);
    ScanSound(g, names, adj, scc, cap, start, v, s1, 0, false);
    var o := Scan(adj, names, scc, cap, start, v, s1, 0, false);
    var s2 := if o.found then Unblock(o.st, v) else o.st.(bmap := Blockers(At(adj, v), scc, v, o.st.bmap));
    assert s2.cycles == o.st.cycles;
  }

  lemma {:induction false} ScanSound(g: Graph, names: seq<string>, adj: seq<seq<int>>, scc: set<int>, cap: int,
                                     start: int, v: int, s: State, k: nat, found: bool)
    requires Setting(g, names, adj, scc, start) && 0 <= start < |names|
    requires Walk(adj, scc, start, s.stack) && s.stack[|s.stack| - 1] == v
    ensures GoodFrom(g, cap, names[start], Scan(adj, names, scc, cap, start, v, s, k, found).st.cycles, |s.cycles|)
    decreases |scc - Members(s.stack)| + 1, 0, |At(adj, v)| - k, 2
  {
    if k < |At(adj, v)| {
      var j := At(adj, v)[k];
      if j !in scc {
        ScanSound(g, names, adj, scc, cap, start, v, s, k + 1, found);
      } else if j == start && (cap == 0 || |s.stack| <= cap) {
        ScanReport(g, names, adj, scc, cap, start, v, s, k, found);
      } else if j != start && !IsBlocked(s.blocked, j) && (cap == 0 || |s.stack| < cap) && j !in s.stack {
        ScanEnter(g, names, adj, scc, cap, start, v, s, k, found);
      } else {
        ScanSound(g, names, adj, scc, cap, start, v, s, k + 1, found);
      }
    }
  }

  /** The step of ScanSound where the `k`-th neighbour closes a cycle at the start. */
  lemma {:induction false} ScanReport(g: Graph, names: seq<string>, adj: seq<seq<int>>, scc: set<int>, cap: int,
                                      start: int, v: int, s: State, k: nat, found: bool)
    requires Setting(g, names, adj, scc, start) && 0 <= start < |names|
    requires Walk(adj, scc, start, s.stack) && s.stack[|s.stack| - 1] == v
    requires k < |At(adj, v)| && At(adj, v)[k] == start && start in scc && (cap == 0 || |s.stack| <= cap)
    ensures GoodFrom(g, cap, names[start], Scan(adj, names, scc, cap, start, v, s, k, found).st.cycles, |s.cycles|)
    decreases |scc - Members(s.stack)| + 1, 0, |At(adj, v)| - k, 0
  {
    var r := Scan(adj, names, scc, cap, start, v, s, k, found);
    var s' := s.(cycles := s.cycles + [Names(names, s.stack + [start])]);
    assert r == Scan(adj, names, scc, cap, start, v, s', k + 1, true);
    var c := Names(names, s.stack + [start]);
    assert ElementaryCycle(g, cap, c) && c[0] == names[start] by {
      IndexIsMember(At(adj, v), k);
      Report(g, names, adj, scc, cap, start, s.stack);
    }
    assert GoodFrom(g, cap, names[start], s'.cycles, |s.cycles|) by {
      forall i | 0 <= |s.cycles| <= i < |s'.cycles| ensures ElementaryCycle(g, cap, s'.cycles[i]) && s'.cycles[i][0] == names[start] {
        assert s'.cycles[i] == c;
      }
    }
    ScanSound(g, names, adj, scc, cap, start, v, s', k + 1, true);
    GoodJoin(g, cap, names[start], s'.cycles, r.st.cycles, |s.cycles|);
  }

  /** The step of ScanSound where the `k`-th neighbour is entered by a nested circuit. */
  lemma {:induction false} ScanEnter(g: Graph, names: seq<string>, adj: seq<seq<int>>, scc: set<int>, cap: int,
                                     start: int, v: int, s: State, k: nat, found: bool)
    requires Setting(g, names, adj, scc, start) && 0 <= start < |names|
    requires Walk(adj, scc, start, s.stack) && s.stack[|s.stack| - 1] == v
    requires k < |At(adj, v)| && At(adj, v)[k] in scc && At(adj, v)[k] != start
    requires !IsBlocked(s.blocked, At(adj, v)[k]) && (cap == 0 || |s.stack| < cap) && At(adj, v)[k] !in s.stack
    ensures GoodFrom(g, cap, names[start], Scan(adj, names, scc, cap, start, v, s, k, found).st.cycles, |s.cycles|)
    decreases |scc - Members(s.stack)| + 1, 0, |At(adj, v)| - k, 1
  {
    var o := Circuit(adj, names, scc, cap, start, At(adj, v)[k], s);
    ScanEnterStep(adj, names, scc, cap, start, v, s, k, found);
    EnterCircuit(g, names, adj, scc, cap, start, v, s, k);
    ScanSound(g, names, adj, scc, cap, start, v, o.st, k + 1, found || o.found);
    GoodJoin(g, cap, names[start], o.st.cycles, Scan(adj, names, scc, cap, start, v, o.st, k + 1, found || o.found).st.cycles, |s.cycles|);
  }

  /** The nested circuit into the `k`-th neighbour leaves the stack as it was and reports only good cycles. */
  lemma {:induction false} EnterCircuit(g: Graph, names: seq<string>, adj: seq<seq<int>>, scc: set<int>, cap: int,
                                        start: int, v: int, s: State, k: nat)
    requires Setting(g, names, adj, scc, start) && 0 <= start < |names|
    requires Walk(adj, scc, start, s.stack) && s.stack[|s.stack| - 1] == v
    requires k < |At(adj, v)| && At(adj, v)[k] in scc && At(adj, v)[k] !in s.stack
    ensures var o := Circuit(adj, names, scc, cap, start, At(adj, v)[k], s);
      o.st.stack == s.stack && |s.cycles| <= |o.st.cycles| && GoodFrom(g, cap, names[start], o.st.cycles, |s.cycles|)
    decreases |scc - Members(s.stack)| + 1, 0, |At(adj, v)| - k, 0
  {
    WalkExtend(adj, scc, start, s.stack, At(adj, v)[k]);
    CircuitSound(g, names, adj, scc, cap, start, At(adj, v)[k], s);
  }

  /** Entering the `k`-th neighbour: the scan goes on from the state the nested circuit leaves. */
  lemma ScanEnterStep(adj: seq<seq<int>>, names: seq<string>, scc: set<int>, cap: int,
                      start: int, v: int, s: State, k: nat, found: bool)
    requires k < |At(adj, v)| && At(adj, v)[k] in scc && At(adj, v)[k] != start
    requires !IsBlocked(s.blocked, At(adj, v)[k]) && (cap == 0 || |s.stack| < cap) && At(adj, v)[k] !in s.stack
    ensures var o := Circuit(adj, names, scc, cap, start, At(adj, v)[k], s);
      Scan(adj, names, scc, cap, start, v, s, k, found) == Scan(adj, names, scc, cap, start, v, o.st, k + 1, found || o.found)
  {
  }

  /** A simple walk extended by an unvisited neighbour of its end inside the component stays a simple walk. */
  lemma WalkExtend(adj: seq<seq<int>>, scc: set<int>, start: int, p: seq<int>, j: int)
    requires Walk(adj, scc, start, p) && j in scc && j !in p && j in At(adj, p[|p| - 1])
    ensures Walk(adj, scc, start, p + [j])
  {
    var q := p + [j];
    forall i | 0 <= i < |q| - 1 ensures q[i + 1] in At(adj, q[i]) {
      if i < |p| - 1 { assert q[i] == p[i] && q[i + 1] == p[i + 1]; }
    }
  }

  /** Good cycles from `lo` in `a`, then good cycles past `a` in its extension `b`. */
  lemma GoodJoin(g: Graph, cap: int, first: string, a: seq<seq<string>>, b: seq<seq<string>>, lo: nat)
    requires a <= b && lo <= |a| && GoodFrom(g, cap, first, a, lo) && GoodFrom(g, cap, first, b, |a|)
    ensures GoodFrom(g, cap, first, b, lo)
  {
    forall i | lo <= i < |b| ensures ElementaryCycle(g, cap, b[i]) && b[i][0] == first {
      if i < |a| { assert b[i] == a[i]; }
    }
  }

  /** No elementary cycle exists in an acyclic graph, so the finder reports none there. */
  lemma AcyclicNoCycle(g: Graph, cap: int, c: seq<string>)
    requires Acyclic(g)
    ensures !ElementaryCycle(g, cap, c)
  {
  }
}
