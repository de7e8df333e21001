/**
 The cycle finder's `circuit` exactly as `cmd/cycles.go` writes it when a
 length cap is set (`maxLength > 0`): a neighbour other than the start is
 entered when it is unblocked and the stack is below the cap, with no test
 that it is off the stack. A node that failed only because of the cap is
 recorded in the blocked map; a later cascade of `unblock` can clear its
 flag while it is still on the stack, and an edge back to it then enters it
 a second time. The five-module graph below makes the finder report a
 cycle that visits one module twice.
 */
module CappedJohnson {
  import opened Seqs
  import opened Strings
  import opened Graphs
  import opened Johnson

  /** `circuit(v)` with the cap `cap > 0` and no on-stack guard. */
  function CircuitAsWritten(adj: seq<seq<int>>, names: seq<string>, scc: set<int>, cap: int, start: int, v: int,
                            s: State): (r: Outcome)
    requires |s.stack| < cap
    ensures r.st.stack == s.stack && |r.st.blocked| == |s.blocked| && |r.st.bmap| == |s.bmap|
    ensures s.cycles <= r.st.cycles
    decreases cap - |s.stack|, 1, 0
  {
    var s1 := s.(stack := s.stack + [v], blocked := SetBlocked(s.blocked, v, true));
    var o := ScanAsWritten(adj, names, scc, cap, start, v, s1, 0, false);
    var s2 := if o.found then Unblock(o.st, v) else o.st.(bmap := Blockers(At(adj, v), scc, v, o.st.bmap));
    Outcome(s2.(stack := s.stack), o.found)
  }

  /** The neighbour loop of CircuitAsWritten from the `k`-th neighbour on. */
  function ScanAsWritten(adj: seq<seq<int>>, names: seq<string>, scc: set<int>, cap: int, start: int, v: int,
                         s: State, k: nat, found: bool): (r: Outcome)
    requires 0 < |s.stack| <= cap
    ensures r.st.stack == s.stack && |r.st.blocked| == |s.blocked| && |r.st.bmap| == |s.bmap|
    ensures s.cycles <= r.st.cycles
    decreases cap - |s.stack| + 1, 0, |At(adj, v)| - k
  {
    if k >= |At(adj, v)| then Outcome(s, found)
    else
      var j := At(adj, v)[k];
      if j !in scc then ScanAsWritten(adj, names, scc, cap, start, v, s, k + 1, found)
      else if j == start then
        ScanAsWritten(adj, names, scc, cap, start, v, s.(cycles := s.cycles + [Names(names, s.stack + [start])]), k + 1, true)
      else if !IsBlocked(s.blocked, j) && |s.stack| < cap then
        var o := CircuitAsWritten(adj, names, scc, cap, start, j, s);
        ScanAsWritten(adj, names, scc, cap, start, v, o.st, k + 1, found || o.found)
      else ScanAsWritten(adj, names, scc, cap, start, v, s, k + 1, found)
  }

  /** Modules a..e with edges a→e, a→c, b→a, c→e, c→b, c→c, d→a, d→c, e→a, e→d, in this order. */
  const ExampleGraph: Graph := map["a" := ["e", "c"], "b" := ["a"], "c" := ["e", "b", "c"], "d" := ["a", "c"], "e" := ["a", "d"]]
  const ExampleNames: seq<string> := ["a", "b", "c", "d", "e"]
  const ExampleAdj: seq<seq<int>> := [[4, 2], [0], [4, 1, 2], [0, 2], [0, 3]]
  const ExampleScc: set<int> := {0, 1, 2, 3, 4}

  // The lemmas Trace1-Trace11 and Step1-Step18 below are not general facts:
  // they evaluate the as-written search on this one input, call by call, and
  // together give AsWrittenRepeatsModule.

  /** The as-written circuit at node `c` with a stack of 3. */
  lemma Trace1()
    ensures CircuitAsWritten(ExampleAdj, ExampleNames, ExampleScc, 4, 0, 2, State([true, false, false, true, true], [[], [], [], [], []], [0, 4, 3], [["a", "e", "a"], ["a", "e", "d", "a"]])) == Outcome(State([true, false, true, true, true], [[], [2], [2], [], [2]], [0, 4, 3], [["a", "e", "a"], ["a", "e", "d", "a"]]), false)
  {
    assert SetBlocked([true, false, false, true, true], 2, true) == [true, false, true, true, true];
    assert [0, 4, 3] + [2] == [0, 4, 3, 2];
    assert ScanAsWritten(ExampleAdj, ExampleNames, ExampleScc, 4, 0, 2, State([true, false, true, true, true], [[], [], [], [], []], [0, 4, 3, 2], [["a", "e", "a"], ["a", "e", "d", "a"]]), 3, false) == Outcome(State([true, false, true, true, true], [[], [], [], [], []], [0, 4, 3, 2], [["a", "e", "a"], ["a", "e", "d", "a"]]), false);
    assert ScanAsWritten(ExampleAdj, ExampleNames, ExampleScc, 4, 0, 2, State([true, false, true, true, true], [[], [], [], [], []], [0, 4, 3, 2], [["a", "e", "a"], ["a", "e", "d", "a"]]), 2, false) == Outcome(State([true, false, true, true, true], [[], [], [], [], []], [0, 4, 3, 2], [["a", "e", "a"], ["a", "e", "d", "a"]]), false);
    assert ScanAsWritten(ExampleAdj, ExampleNames, ExampleScc, 4, 0, 2, State([true, false, true, true, true], [[], [], [], [], []], [0, 4, 3, 2], [["a", "e", "a"], ["a", "e", "d", "a"]]), 1, false) == Outcome(State([true, false, true, true, true], [[], [], [], [], []], [0, 4, 3, 2], [["a", "e", "a"], ["a", "e", "d", "a"]]), false);
    assert ScanAsWritten(ExampleAdj, ExampleNames, ExampleScc, 4, 0, 2, State([true, false, true, true, true], [[], [], [], [], []], [0, 4, 3, 2], [["a", "e", "a"], ["a", "e", "d", "a"]]), 0, false) == Outcome(State([true, false, true, true, true], [[], [], [], [], []], [0, 4, 3, 2], [["a", "e", "a"], ["a", "e", "d", "a"]]), false);
    Step3();
  }

  /** The as-written circuit at node `d` with a stack of 2. */
  lemma Trace2()
    ensures CircuitAsWritten(ExampleAdj, ExampleNames, ExampleScc, 4, 0, 3, State([true, false, false, false, true], [[], [], [], [], []], [0, 4], [["a", "e", "a"]])) == Outcome(State([true, false, true, false, true], [[], [2], [2], [], [2]], [0, 4], [["a", "e", "a"], ["a", "e", "d", "a"]]), true)
  {
    assert SetBlocked([true, false, false, false, true], 3, true) == [true, false, false, true, true];
    assert [0, 4] + [3] == [0, 4, 3];
    assert [0, 4, 3] + [0] == [0, 4, 3, 0];
    Step2();
    assert [["a", "e", "a"]] + [["a", "e", "d", "a"]] == [["a", "e", "a"], ["a", "e", "d", "a"]];
    Trace1();
    assert ScanAsWritten(ExampleAdj, ExampleNames, ExampleScc, 4, 0, 3, State([true, false, true, true, true], [[], [2], [2], [], [2]], [0, 4, 3], [["a", "e", "a"], ["a", "e", "d", "a"]]), 2, true) == Outcome(State([true, false, true, true, true], [[], [2], [2], [], [2]], [0, 4, 3], [["a", "e", "a"], ["a", "e", "d", "a"]]), true);
    assert ScanAsWritten(ExampleAdj, ExampleNames, ExampleScc, 4, 0, 3, State([true, false, false, true, true], [[], [], [], [], []], [0, 4, 3], [["a", "e", "a"], ["a", "e", "d", "a"]]), 1, true) == Outcome(State([true, false, true, true, true], [[], [2], [2], [], [2]], [0, 4, 3], [["a", "e", "a"], ["a", "e", "d", "a"]]), true);
    assert ScanAsWritten(ExampleAdj, ExampleNames, ExampleScc, 4, 0, 3, State([true, false, false, true, true], [[], [], [], [], []], [0, 4, 3], [["a", "e", "a"]]), 0, false) == Outcome(State([true, false, true, true, true], [[], [2], [2], [], [2]], [0, 4, 3], [["a", "e", "a"], ["a", "e", "d", "a"]]), true);
    Step4();
  }

  /** The as-written circuit at node `e` with a stack of 1. */
  lemma Trace3()
    ensures CircuitAsWritten(ExampleAdj, ExampleNames, ExampleScc, 4, 0, 4, State([true, false, false, false, false], [[], [], [], [], []], [0], [])) == Outcome(State([true, false, false, false, false], [[], [2], [], [], []], [0], [["a", "e", "a"], ["a", "e", "d", "a"]]), true)
  {
    assert SetBlocked([true, false, false, false, false], 4, true) == [true, false, false, false, true];
    assert [0] + [4] == [0, 4];
    assert [0, 4] + [0] == [0, 4, 0];
    Step1();
    assert [] + [["a", "e", "a"]] == [["a", "e", "a"]];
    Trace2();
    assert ScanAsWritten(ExampleAdj, ExampleNames, ExampleScc, 4, 0, 4, State([true, false, true, false, true], [[], [2], [2], [], [2]], [0, 4], [["a", "e", "a"], ["a", "e", "d", "a"]]), 2, true) == Outcome(State([true, false, true, false, true], [[], [2], [2], [], [2]], [0, 4], [["a", "e", "a"], ["a", "e", "d", "a"]]), true);
    assert ScanAsWritten(ExampleAdj, ExampleNames, ExampleScc, 4, 0, 4, State([true, false, false, false, true], [[], [], [], [], []], [0, 4], [["a", "e", "a"]]), 1, true) == Outcome(State([true, false, true, false, true], [[], [2], [2], [], [2]], [0, 4], [["a", "e", "a"], ["a", "e", "d", "a"]]), true);
    assert ScanAsWritten(ExampleAdj, ExampleNames, ExampleScc, 4, 0, 4, State([true, false, false, false, true], [[], [], [], [], []], [0, 4], []), 0, false) == Outcome(State([true, false, true, false, true], [[], [2], [2], [], [2]], [0, 4], [["a", "e", "a"], ["a", "e", "d", "a"]]), true);
    Step5();
  }

  /** The as-written circuit at node `d` with a stack of 3. */
  lemma Trace4()
    ensures CircuitAsWritten(ExampleAdj, ExampleNames, ExampleScc, 4, 0, 3, State([true, false, true, false, true], [[], [2], [], [], []], [0, 2, 4], [["a", "e", "a"], ["a", "e", "d", "a"], ["a", "c", "e", "a"]])) == Outcome(State([true, false, true, false, true], [[], [2], [], [], []], [0, 2, 4], [["a", "e", "a"], ["a", "e", "d", "a"], ["a", "c", "e", "a"], ["a", "c", "e", "d", "a"]]), true)
  {
    assert SetBlocked([true, false, true, false, true], 3, true) == [true, false, true, true, true];
    assert [0, 2, 4] + [3] == [0, 2, 4, 3];
    assert [0, 2, 4, 3] + [0] == [0, 2, 4, 3, 0];
    Step7();
    assert [["a", "e", "a"], ["a", "e", "d", "a"], ["a", "c", "e", "a"]] + [["a", "c", "e", "d", "a"]] == [["a", "e", "a"], ["a", "e", "d", "a"], ["a", "c", "e", "a"], ["a", "c", "e", "d", "a"]];
    assert ScanAsWritten(ExampleAdj, ExampleNames, ExampleScc, 4, 0, 3, State([true, false, true, true, true], [[], [2], [], [], []], [0, 2, 4, 3], [["a", "e", "a"], ["a", "e", "d", "a"], ["a", "c", "e", "a"], ["a", "c", "e", "d", "a"]]), 2, true) == Outcome(State([true, false, true, true, true], [[], [2], [], [], []], [0, 2, 4, 3], [["a", "e", "a"], ["a", "e", "d", "a"], ["a", "c", "e", "a"], ["a", "c", "e", "d", "a"]]), true);
    assert ScanAsWritten(ExampleAdj, ExampleNames, ExampleScc, 4, 0, 3, State([true, false, true, true, true], [[], [2], [], [], []], [0, 2, 4, 3], [["a", "e", "a"], ["a", "e", "d", "a"], ["a", "c", "e", "a"], ["a", "c", "e", "d", "a"]]), 1, true) == Outcome(State([true, false, true, true, true], [[], [2], [], [], []], [0, 2, 4, 3], [["a", "e", "a"], ["a", "e", "d", "a"], ["a", "c", "e", "a"], ["a", "c", "e", "d", "a"]]), true);
    assert ScanAsWritten(ExampleAdj, ExampleNames, ExampleScc, 4, 0, 3, State([true, false, true, true, true], [[], [2], [], [], []], [0, 2, 4, 3], [["a", "e", "a"], ["a", "e", "d", "a"], ["a", "c", "e", "a"]]), 0, false) == Outcome(State([true, false, true, true, true], [[], [2], [], [], []], [0, 2, 4, 3], [["a", "e", "a"], ["a", "e", "d", "a"], ["a", "c", "e", "a"], ["a", "c", "e", "d", "a"]]), true);
    Step8();
  }

  /** The as-written circuit at node `e` with a stack of 2. */
  lemma Trace5()
    ensures CircuitAsWritten(ExampleAdj, ExampleNames, ExampleScc, 4, 0, 4, State([true, false, true, false, false], [[], [2], [], [], []], [0, 2], [["a", "e", "a"], ["a", "e", "d", "a"]])) == Outcome(State([true, false, true, false, false], [[], [2], [], [], []], [0, 2], [["a", "e", "a"], ["a", "e", "d", "a"], ["a", "c", "e", "a"], ["a", "c", "e", "d", "a"]]), true)
  {
    assert SetBlocked([true, false, true, false, false], 4, true) == [true, false, true, false, true];
    assert [0, 2] + [4] == [0, 2, 4];
    assert [0, 2, 4] + [0] == [0, 2, 4, 0];
    Step6();
    assert [["a", "e", "a"], ["a", "e", "d", "a"]] + [["a", "c", "e", "a"]] == [["a", "e", "a"], ["a", "e", "d", "a"], ["a", "c", "e", "a"]];
    Trace4();
    assert ScanAsWritten(ExampleAdj, ExampleNames, ExampleScc, 4, 0, 4, State([true, false, true, false, true], [[], [2], [], [], []], [0, 2, 4], [["a", "e", "a"], ["a", "e", "d", "a"], ["a", "c", "e", "a"], ["a", "c", "e", "d", "a"]]), 2, true) == Outcome(State([true, false, true, false, true], [[], [2], [], [], []], [0, 2, 4], [["a", "e", "a"], ["a", "e", "d", "a"], ["a", "c", "e", "a"], ["a", "c", "e", "d", "a"]]), true);
    assert ScanAsWritten(ExampleAdj, ExampleNames, ExampleScc, 4, 0, 4, State([true, false, true, false, true], [[], [2], [], [], []], [0, 2, 4], [["a", "e", "a"], ["a", "e", "d", "a"], ["a", "c", "e", "a"]]), 1, true) == Outcome(State([true, false, true, false, true], [[], [2], [], [], []], [0, 2, 4], [["a", "e", "a"], ["a", "e", "d", "a"], ["a", "c", "e", "a"], ["a", "c", "e", "d", "a"]]), true);
    assert ScanAsWritten(ExampleAdj, ExampleNames, ExampleScc, 4, 0, 4, State([true, false, true, false, true], [[], [2], [], [], []], [0, 2, 4], [["a", "e", "a"], ["a", "e", "d", "a"]]), 0, false) == Outcome(State([true, false, true, false, true], [[], [2], [], [], []], [0, 2, 4], [["a", "e", "a"], ["a", "e", "d", "a"], ["a", "c", "e", "a"], ["a", "c", "e", "d", "a"]]), true);
    Step9();
  }

  /** The as-written circuit at node `b` with a stack of 2. */
  lemma Trace6()
    ensures CircuitAsWritten(ExampleAdj, ExampleNames, ExampleScc, 4, 0, 1, State([true, false, true, false, false], [[], [2], [], [], []], [0, 2], [["a", "e", "a"], ["a", "e", "d", "a"], ["a", "c", "e", "a"], ["a", "c", "e", "d", "a"]])) == Outcome(State([true, false, false, false, false], [[], [], [], [], []], [0, 2], [["a", "e", "a"], ["a", "e", "d", "a"], ["a", "c", "e", "a"], ["a", "c", "e", "d", "a"], ["a", "c", "b", "a"]]), true)
  {
    assert SetBlocked([true, false, true, false, false], 1, true) == [true, true, true, false, false];
    assert [0, 2] + [1] == [0, 2, 1];
    assert [0, 2, 1] + [0] == [0, 2, 1, 0];
    Step10();
    assert [["a", "e", "a"], ["a", "e", "d", "a"], ["a", "c", "e", "a"], ["a", "c", "e", "d", "a"]] + [["a", "c", "b", "a"]] == [["a", "e", "a"], ["a", "e", "d", "a"], ["a", "c", "e", "a"], ["a", "c", "e", "d", "a"], ["a", "c", "b", "a"]];
    assert ScanAsWritten(ExampleAdj, ExampleNames, ExampleScc, 4, 0, 1, State([true, true, true, false, false], [[], [2], [], [], []], [0, 2, 1], [["a", "e", "a"], ["a", "e", "d", "a"], ["a", "c", "e", "a"], ["a", "c", "e", "d", "a"], ["a", "c", "b", "a"]]), 1, true) == Outcome(State([true, true, true, false, false], [[], [2], [], [], []], [0, 2, 1], [["a", "e", "a"], ["a", "e", "d", "a"], ["a", "c", "e", "a"], ["a", "c", "e", "d", "a"], ["a", "c", "b", "a"]]), true);
    assert ScanAsWritten(ExampleAdj, ExampleNames, ExampleScc, 4, 0, 1, State([true, true, true, false, false], [[], [2], [], [], []], [0, 2, 1], [["a", "e", "a"], ["a", "e", "d", "a"], ["a", "c", "e", "a"], ["a", "c", "e", "d", "a"]]), 0, false) == Outcome(State([true, true, true, false, false], [[], [2], [], [], []], [0, 2, 1], [["a", "e", "a"], ["a", "e", "d", "a"], ["a", "c", "e", "a"], ["a", "c", "e", "d", "a"], ["a", "c", "b", "a"]]), true);
    Step11();
  }

  /** The as-written circuit at node `e` with a stack of 3. */
  lemma Trace7()
    ensures CircuitAsWritten(ExampleAdj, ExampleNames, ExampleScc, 4, 0, 4, State([true, false, true, false, false], [[], [], [], [], []], [0, 2, 2], [["a", "e", "a"], ["a", "e", "d", "a"], ["a", "c", "e", "a"], ["a", "c", "e", "d", "a"], ["a", "c", "b", "a"]])) == Outcome(State([true, false, true, false, false], [[], [], [], [], []], [0, 2, 2], [["a", "e", "a"], ["a", "e", "d", "a"], ["a", "c", "e", "a"], ["a", "c", "e", "d", "a"], ["a", "c", "b", "a"], ["a", "c", "c", "e", "a"]]), true)
  {
    assert SetBlocked([true, false, true, false, false], 4, true) == [true, false, true, false, true];
    assert [0, 2, 2] + [4] == [0, 2, 2, 4];
    assert [0, 2, 2, 4] + [0] == [0, 2, 2, 4, 0];
    Step12();
    assert [["a", "e", "a"], ["a", "e", "d", "a"], ["a", "c", "e", "a"], ["a", "c", "e", "d", "a"], ["a", "c", "b", "a"]] + [["a", "c", "c", "e", "a"]] == [["a", "e", "a"], ["a", "e", "d", "a"], ["a", "c", "e", "a"], ["a", "c", "e", "d", "a"], ["a", "c", "b", "a"], ["a", "c", "c", "e", "a"]];
    assert ScanAsWritten(ExampleAdj, ExampleNames, ExampleScc, 4, 0, 4, State([true, false, true, false, true], [[], [], [], [], []], [0, 2, 2, 4], [["a", "e", "a"], ["a", "e", "d", "a"], ["a", "c", "e", "a"], ["a", "c", "e", "d", "a"], ["a", "c", "b", "a"], ["a", "c", "c", "e", "a"]]), 2, true) == Outcome(State([true, false, true, false, true], [[], [], [], [], []], [0, 2, 2, 4], [["a", "e", "a"], ["a", "e", "d", "a"], ["a", "c", "e", "a"], ["a", "c", "e", "d", "a"], ["a", "c", "b", "a"], ["a", "c", "c", "e", "a"]]), true);
    assert ScanAsWritten(ExampleAdj, ExampleNames, ExampleScc, 4, 0, 4, State([true, false, true, false, true], [[], [], [], [], []], [0, 2, 2, 4], [["a", "e", "a"], ["a", "e", "d", "a"], ["a", "c", "e", "a"], ["a", "c", "e", "d", "a"], ["a", "c", "b", "a"], ["a", "c", "c", "e", "a"]]), 1, true) == Outcome(State([true, false, true, false, true], [[], [], [], [], []], [0, 2, 2, 4], [["a", "e", "a"], ["a", "e", "d", "a"], ["a", "c", "e", "a"], ["a", "c", "e", "d", "a"], ["a", "c", "b", "a"], ["a", "c", "c", "e", "a"]]), true);
    assert ScanAsWritten(ExampleAdj, ExampleNames, ExampleScc, 4, 0, 4, State([true, false, true, false, true], [[], [], [], [], []], [0, 2, 2, 4], [["a", "e", "a"], ["a", "e", "d", "a"], ["a", "c", "e", "a"], ["a", "c", "e", "d", "a"], ["a", "c", "b", "a"]]), 0, false) == Outcome(State([true, false, true, false, true], [[], [], [], [], []], [0, 2, 2, 4], [["a", "e", "a"], ["a", "e", "d", "a"], ["a", "c", "e", "a"], ["a", "c", "e", "d", "a"], ["a", "c", "b", "a"], ["a", "c", "c", "e", "a"]]), true);
    Step13();
  }

  /** The as-written circuit at node `b` with a stack of 3. */
  lemma Trace8()
    ensures CircuitAsWritten(ExampleAdj, ExampleNames, ExampleScc, 4, 0, 1, State([true, false, true, false, false], [[], [], [], [], []], [0, 2, 2], [["a", "e", "a"], ["a", "e", "d", "a"], ["a", "c", "e", "a"], ["a", "c", "e", "d", "a"], ["a", "c", "b", "a"], ["a", "c", "c", "e", "a"]])) == Outcome(State([true, false, true, false, false], [[], [], [], [], []], [0, 2, 2], [["a", "e", "a"], ["a", "e", "d", "a"], ["a", "c", "e", "a"], ["a", "c", "e", "d", "a"], ["a", "c", "b", "a"], ["a", "c", "c", "e", "a"], ["a", "c", "c", "b", "a"]]), true)
  {
    assert SetBlocked([true, false, true, false, false], 1, true) == [true, true, true, false, false];
    assert [0, 2, 2] + [1] == [0, 2, 2, 1];
    assert [0, 2, 2, 1] + [0] == [0, 2, 2, 1, 0];
    Step14();
    assert [["a", "e", "a"], ["a", "e", "d", "a"], ["a", "c", "e", "a"], ["a", "c", "e", "d", "a"], ["a", "c", "b", "a"], ["a", "c", "c", "e", "a"]] + [["a", "c", "c", "b", "a"]] == [["a", "e", "a"], ["a", "e", "d", "a"], ["a", "c", "e", "a"], ["a", "c", "e", "d", "a"], ["a", "c", "b", "a"], ["a", "c", "c", "e", "a"], ["a", "c", "c", "b", "a"]];
    assert ScanAsWritten(ExampleAdj, ExampleNames, ExampleScc, 4, 0, 1, State([true, true, true, false, false], [[], [], [], [], []], [0, 2, 2, 1], [["a", "e", "a"], ["a", "e", "d", "a"], ["a", "c", "e", "a"], ["a", "c", "e", "d", "a"], ["a", "c", "b", "a"], ["a", "c", "c", "e", "a"], ["a", "c", "c", "b", "a"]]), 1, true) == Outcome(State([true, true, true, false, false], [[], [], [], [], []], [0, 2, 2, 1], [["a", "e", "a"], ["a", "e", "d", "a"], ["a", "c", "e", "a"], ["a", "c", "e", "d", "a"], ["a", "c", "b", "a"], ["a", "c", "c", "e", "a"], ["a", "c", "c", "b", "a"]]), true);
    assert ScanAsWritten(ExampleAdj, ExampleNames, ExampleScc, 4, 0, 1, State([true, true, true, false, false], [[], [], [], [], []], [0, 2, 2, 1], [["a", "e", "a"], ["a", "e", "d", "a"], ["a", "c", "e", "a"], ["a", "c", "e", "d", "a"], ["a", "c", "b", "a"], ["a", "c", "c", "e", "a"]]), 0, false) == Outcome(State([true, true, true, false, false], [[], [], [], [], []], [0, 2, 2, 1], [["a", "e", "a"], ["a", "e", "d", "a"], ["a", "c", "e", "a"], ["a", "c", "e", "d", "a"], ["a", "c", "b", "a"], ["a", "c", "c", "e", "a"], ["a", "c", "c", "b", "a"]]), true);
    Step15();
  }

  /** The as-written circuit at node `c` with a stack of 2. */
  lemma Trace9()
    ensures CircuitAsWritten(ExampleAdj, ExampleNames, ExampleScc, 4, 0, 2, State([true, false, false, false, false], [[], [], [], [], []], [0, 2], [["a", "e", "a"], ["a", "e", "d", "a"], ["a", "c", "e", "a"], ["a", "c", "e", "d", "a"], ["a", "c", "b", "a"]])) == Outcome(State([true, false, false, false, false], [[], [], [], [], []], [0, 2], [["a", "e", "a"], ["a", "e", "d", "a"], ["a", "c", "e", "a"], ["a", "c", "e", "d", "a"], ["a", "c", "b", "a"], ["a", "c", "c", "e", "a"], ["a", "c", "c", "b", "a"]]), true)
  {
    assert SetBlocked([true, false, false, false, false], 2, true) == [true, false, true, false, false];
    assert [0, 2] + [2] == [0, 2, 2];
    Trace7();
    Trace8();
    assert ScanAsWritten(ExampleAdj, ExampleNames, ExampleScc, 4, 0, 2, State([true, false, true, false, false], [[], [], [], [], []], [0, 2, 2], [["a", "e", "a"], ["a", "e", "d", "a"], ["a", "c", "e", "a"], ["a", "c", "e", "d", "a"], ["a", "c", "b", "a"], ["a", "c", "c", "e", "a"], ["a", "c", "c", "b", "a"]]), 3, true) == Outcome(State([true, false, true, false, false], [[], [], [], [], []], [0, 2, 2], [["a", "e", "a"], ["a", "e", "d", "a"], ["a", "c", "e", "a"], ["a", "c", "e", "d", "a"], ["a", "c", "b", "a"], ["a", "c", "c", "e", "a"], ["a", "c", "c", "b", "a"]]), true);
    assert ScanAsWritten(ExampleAdj, ExampleNames, ExampleScc, 4, 0, 2, State([true, false, true, false, false], [[], [], [], [], []], [0, 2, 2], [["a", "e", "a"], ["a", "e", "d", "a"], ["a", "c", "e", "a"], ["a", "c", "e", "d", "a"], ["a", "c", "b", "a"], ["a", "c", "c", "e", "a"], ["a", "c", "c", "b", "a"]]), 2, true) == Outcome(State([true, false, true, false, false], [[], [], [], [], []], [0, 2, 2], [["a", "e", "a"], ["a", "e", "d", "a"], ["a", "c", "e", "a"], ["a", "c", "e", "d", "a"], ["a", "c", "b", "a"], ["a", "c", "c", "e", "a"], ["a", "c", "c", "b", "a"]]), true);
    assert ScanAsWritten(ExampleAdj, ExampleNames, ExampleScc, 4, 0, 2, State([true, false, true, false, false], [[], [], [], [], []], [0, 2, 2], [["a", "e", "a"], ["a", "e", "d", "a"], ["a", "c", "e", "a"], ["a", "c", "e", "d", "a"], ["a", "c", "b", "a"], ["a", "c", "c", "e", "a"]]), 1, true) == Outcome(State([true, false, true, false, false], [[], [], [], [], []], [0, 2, 2], [["a", "e", "a"], ["a", "e", "d", "a"], ["a", "c", "e", "a"], ["a", "c", "e", "d", "a"], ["a", "c", "b", "a"], ["a", "c", "c", "e", "a"], ["a", "c", "c", "b", "a"]]), true);
    assert ScanAsWritten(ExampleAdj, ExampleNames, ExampleScc, 4, 0, 2, State([true, false, true, false, false], [[], [], [], [], []], [0, 2, 2], [["a", "e", "a"], ["a", "e", "d", "a"], ["a", "c", "e", "a"], ["a", "c", "e", "d", "a"], ["a", "c", "b", "a"]]), 0, false) == Outcome(State([true, false, true, false, false], [[], [], [], [], []], [0, 2, 2], [["a", "e", "a"], ["a", "e", "d", "a"], ["a", "c", "e", "a"], ["a", "c", "e", "d", "a"], ["a", "c", "b", "a"], ["a", "c", "c", "e", "a"], ["a", "c", "c", "b", "a"]]), true);
    Step16();
  }

  /** The as-written circuit at node `c` with a stack of 1. */
  lemma Trace10()
    ensures CircuitAsWritten(ExampleAdj, ExampleNames, ExampleScc, 4, 0, 2, State([true, false, false, false, false], [[], [2], [], [], []], [0], [["a", "e", "a"], ["a", "e", "d", "a"]])) == Outcome(State([true, false, false, false, false], [[], [], [], [], []], [0], [["a", "e", "a"], ["a", "e", "d", "a"], ["a", "c", "e", "a"], ["a", "c", "e", "d", "a"], ["a", "c", "b", "a"], ["a", "c", "c", "e", "a"], ["a", "c", "c", "b", "a"]]), true)
  {
    assert SetBlocked([true, false, false, false, false], 2, true) == [true, false, true, false, false];
    assert [0] + [2] == [0, 2];
    Trace5();
    Trace6();
    Trace9();
    assert ScanAsWritten(ExampleAdj, ExampleNames, ExampleScc, 4, 0, 2, State([true, false, false, false, false], [[], [], [], [], []], [0, 2], [["a", "e", "a"], ["a", "e", "d", "a"], ["a", "c", "e", "a"], ["a", "c", "e", "d", "a"], ["a", "c", "b", "a"], ["a", "c", "c", "e", "a"], ["a", "c", "c", "b", "a"]]), 3, true) == Outcome(State([true, false, false, false, false], [[], [], [], [], []], [0, 2], [["a", "e", "a"], ["a", "e", "d", "a"], ["a", "c", "e", "a"], ["a", "c", "e", "d", "a"], ["a", "c", "b", "a"], ["a", "c", "c", "e", "a"], ["a", "c", "c", "b", "a"]]), true);
    assert ScanAsWritten(ExampleAdj, ExampleNames, ExampleScc, 4, 0, 2, State([true, false, false, false, false], [[], [], [], [], []], [0, 2], [["a", "e", "a"], ["a", "e", "d", "a"], ["a", "c", "e", "a"], ["a", "c", "e", "d", "a"], ["a", "c", "b", "a"]]), 2, true) == Outcome(State([true, false, false, false, false], [[], [], [], [], []], [0, 2], [["a", "e", "a"], ["a", "e", "d", "a"], ["a", "c", "e", "a"], ["a", "c", "e", "d", "a"], ["a", "c", "b", "a"], ["a", "c", "c", "e", "a"], ["a", "c", "c", "b", "a"]]), true);
    assert ScanAsWritten(ExampleAdj, ExampleNames, ExampleScc, 4, 0, 2, State([true, false, true, false, false], [[], [2], [], [], []], [0, 2], [["a", "e", "a"], ["a", "e", "d", "a"], ["a", "c", "e", "a"], ["a", "c", "e", "d", "a"]]), 1, true) == Outcome(State([true, false, false, false, false], [[], [], [], [], []], [0, 2], [["a", "e", "a"], ["a", "e", "d", "a"], ["a", "c", "e", "a"], ["a", "c", "e", "d", "a"], ["a", "c", "b", "a"], ["a", "c", "c", "e", "a"], ["a", "c", "c", "b", "a"]]), true);
    assert ScanAsWritten(ExampleAdj, ExampleNames, ExampleScc, 4, 0, 2, State([true, false, true, false, false], [[], [2], [], [], []], [0, 2], [["a", "e", "a"], ["a", "e", "d", "a"]]), 0, false) == Outcome(State([true, false, false, false, false], [[], [], [], [], []], [0, 2], [["a", "e", "a"], ["a", "e", "d", "a"], ["a", "c", "e", "a"], ["a", "c", "e", "d", "a"], ["a", "c", "b", "a"], ["a", "c", "c", "e", "a"], ["a", "c", "c", "b", "a"]]), true);
    Step17();
  }

  /** The as-written circuit at node `a` with a stack of 0. */
  lemma Trace11()
    ensures CircuitAsWritten(ExampleAdj, ExampleNames, ExampleScc, 4, 0, 0, State([false, false, false, false, false], [[], [], [], [], []], [], [])) == Outcome(State([false, false, false, false, false], [[], [], [], [], []], [], [["a", "e", "a"], ["a", "e", "d", "a"], ["a", "c", "e", "a"], ["a", "c", "e", "d", "a"], ["a", "c", "b", "a"], ["a", "c", "c", "e", "a"], ["a", "c", "c", "b", "a"]]), true)
  {
    assert SetBlocked([false, false, false, false, false], 0, true) == [true, false, false, false, false];
    assert [] + [0] == [0];
    Trace3();
    Trace10();
    assert ScanAsWritten(ExampleAdj, ExampleNames, ExampleScc, 4, 0, 0, State([true, false, false, false, false], [[], [], [], [], []], [0], [["a", "e", "a"], ["a", "e", "d", "a"], ["a", "c", "e", "a"], ["a", "c", "e", "d", "a"], ["a", "c", "b", "a"], ["a", "c", "c", "e", "a"], ["a", "c", "c", "b", "a"]]), 2, true) == Outcome(State([true, false, false, false, false], [[], [], [], [], []], [0], [["a", "e", "a"], ["a", "e", "d", "a"], ["a", "c", "e", "a"], ["a", "c", "e", "d", "a"], ["a", "c", "b", "a"], ["a", "c", "c", "e", "a"], ["a", "c", "c", "b", "a"]]), true);
    assert ScanAsWritten(ExampleAdj, ExampleNames, ExampleScc, 4, 0, 0, State([true, false, false, false, false], [[], [2], [], [], []], [0], [["a", "e", "a"], ["a", "e", "d", "a"]]), 1, true) == Outcome(State([true, false, false, false, false], [[], [], [], [], []], [0], [["a", "e", "a"], ["a", "e", "d", "a"], ["a", "c", "e", "a"], ["a", "c", "e", "d", "a"], ["a", "c", "b", "a"], ["a", "c", "c", "e", "a"], ["a", "c", "c", "b", "a"]]), true);
    assert ScanAsWritten(ExampleAdj, ExampleNames, ExampleScc, 4, 0, 0, State([true, false, false, false, false], [[], [], [], [], []], [0], []), 0, false) == Outcome(State([true, false, false, false, false], [[], [], [], [], []], [0], [["a", "e", "a"], ["a", "e", "d", "a"], ["a", "c", "e", "a"], ["a", "c", "e", "d", "a"], ["a", "c", "b", "a"], ["a", "c", "c", "e", "a"], ["a", "c", "c", "b", "a"]]), true);
    Step18();
  }

  // The single computations the traces rely on: the names of each reported
  // cycle and each update of the blocked flags and the blocked map.

  lemma Step1()
    ensures Names(ExampleNames, [0, 4, 0]) == ["a", "e", "a"]
  {
    var r := Names(ExampleNames, [0, 4, 0]);
    assert r[0] == "a" && r[1] == "e" && r[2] == "a";
  }

  lemma Step2()
    ensures Names(ExampleNames, [0, 4, 3, 0]) == ["a", "e", "d", "a"]
  {
    var r := Names(ExampleNames, [0, 4, 3, 0]);
    assert r[0] == "a" && r[1] == "e" && r[2] == "d" && r[3] == "a";
  }

  lemma Step3()
    ensures Blockers([4, 1, 2], ExampleScc, 2, [[], [], [], [], []]) == [[], [2], [2], [], [2]]
  {
    assert [] + [2] == [2];
    assert SetAt([[], [], [], [], []], 4, [] + [2]) == [[], [], [], [], [2]];
    assert [] + [2] == [2];
    assert SetAt([[], [], [], [], [2]], 1, [] + [2]) == [[], [2], [], [], [2]];
    assert [] + [2] == [2];
    assert SetAt([[], [2], [], [], [2]], 2, [] + [2]) == [[], [2], [2], [], [2]];
    assert Blockers([], ExampleScc, 2, [[], [2], [2], [], [2]]) == [[], [2], [2], [], [2]];
    assert Blockers([2], ExampleScc, 2, [[], [2], [], [], [2]]) == [[], [2], [2], [], [2]];
    assert Blockers([1, 2], ExampleScc, 2, [[], [], [], [], [2]]) == [[], [2], [2], [], [2]];
  }

  lemma Step4()
    ensures Unblock(State([true, false, true, true, true], [[], [2], [2], [], [2]], [0, 4, 3], [["a", "e", "a"], ["a", "e", "d", "a"]]), 3) == State([true, false, true, false, true], [[], [2], [2], [], [2]], [0, 4, 3], [["a", "e", "a"], ["a", "e", "d", "a"]])
  {
    assert SetBlocked([true, false, true, true, true], 3, false) == [true, false, true, false, true];
    assert UnblockEach(State([true, false, true, false, true], [[], [2], [2], [], [2]], [0, 4, 3], [["a", "e", "a"], ["a", "e", "d", "a"]]), 3, []) == State([true, false, true, false, true], [[], [2], [2], [], [2]], [0, 4, 3], [["a", "e", "a"], ["a", "e", "d", "a"]]);
  }

  lemma Step5()
    ensures Unblock(State([true, false, true, false, true], [[], [2], [2], [], [2]], [0, 4], [["a", "e", "a"], ["a", "e", "d", "a"]]), 4) == State([true, false, false, false, false], [[], [2], [], [], []], [0, 4], [["a", "e", "a"], ["a", "e", "d", "a"]])
  {
    assert SetBlocked([true, false, true, false, true], 4, false) == [true, false, true, false, false];
    assert SetAt([[], [2], [2], [], [2]], 4, Remove([2], 2)) == [[], [2], [2], [], []];
    assert SetBlocked([true, false, true, false, false], 2, false) == [true, false, false, false, false];
    assert SetAt([[], [2], [2], [], []], 2, Remove([2], 2)) == [[], [2], [], [], []];
    assert UnblockEach(State([true, false, false, false, false], [[], [2], [], [], []], [0, 4], [["a", "e", "a"], ["a", "e", "d", "a"]]), 2, []) == State([true, false, false, false, false], [[], [2], [], [], []], [0, 4], [["a", "e", "a"], ["a", "e", "d", "a"]]);
    assert UnblockEach(State([true, false, false, false, false], [[], [2], [2], [], []], [0, 4], [["a", "e", "a"], ["a", "e", "d", "a"]]), 2, [2]) == State([true, false, false, false, false], [[], [2], [], [], []], [0, 4], [["a", "e", "a"], ["a", "e", "d", "a"]]);
    assert Unblock(State([true, false, true, false, false], [[], [2], [2], [], []], [0, 4], [["a", "e", "a"], ["a", "e", "d", "a"]]), 2) == State([true, false, false, false, false], [[], [2], [], [], []], [0, 4], [["a", "e", "a"], ["a", "e", "d", "a"]]);
    assert UnblockEach(State([true, false, false, false, false], [[], [2], [], [], []], [0, 4], [["a", "e", "a"], ["a", "e", "d", "a"]]), 4, []) == State([true, false, false, false, false], [[], [2], [], [], []], [0, 4], [["a", "e", "a"], ["a", "e", "d", "a"]]);
    assert UnblockEach(State([true, false, true, false, false], [[], [2], [2], [], [2]], [0, 4], [["a", "e", "a"], ["a", "e", "d", "a"]]), 4, [2]) == State([true, false, false, false, false], [[], [2], [], [], []], [0, 4], [["a", "e", "a"], ["a", "e", "d", "a"]]);
  }

  lemma Step6()
    ensures Names(ExampleNames, [0, 2, 4, 0]) == ["a", "c", "e", "a"]
  {
    var r := Names(ExampleNames, [0, 2, 4, 0]);
    assert r[0] == "a" && r[1] == "c" && r[2] == "e" && r[3] == "a";
  }

  lemma Step7()
    ensures Names(ExampleNames, [0, 2, 4, 3, 0]) == ["a", "c", "e", "d", "a"]
  {
    var r := Names(ExampleNames, [0, 2, 4, 3, 0]);
    assert r[0] == "a" && r[1] == "c" && r[2] == "e" && r[3] == "d" && r[4] == "a";
  }

  lemma Step8()
    ensures Unblock(State([true, false, true, true, true], [[], [2], [], [], []], [0, 2, 4, 3], [["a", "e", "a"], ["a", "e", "d", "a"], ["a", "c", "e", "a"], ["a", "c", "e", "d", "a"]]), 3) == State([true, false, true, false, true], [[], [2], [], [], []], [0, 2, 4, 3], [["a", "e", "a"], ["a", "e", "d", "a"], ["a", "c", "e", "a"], ["a", "c", "e", "d", "a"]])
  {
    assert SetBlocked([true, false, true, true, true], 3, false) == [true, false, true, false, true];
    assert UnblockEach(State([true, false, true, false, true], [[], [2], [], [], []], [0, 2, 4, 3], [["a", "e", "a"], ["a", "e", "d", "a"], ["a", "c", "e", "a"], ["a", "c", "e", "d", "a"]]), 3, []) == State([true, false, true, false, true], [[], [2], [], [], []], [0, 2, 4, 3], [["a", "e", "a"], ["a", "e", "d", "a"], ["a", "c", "e", "a"], ["a", "c", "e", "d", "a"]]);
  }

  lemma Step9()
    ensures Unblock(State([true, false, true, false, true], [[], [2], [], [], []], [0, 2, 4], [["a", "e", "a"], ["a", "e", "d", "a"], ["a", "c", "e", "a"], ["a", "c", "e", "d", "a"]]), 4) == State([true, false, true, false, false], [[], [2], [], [], []], [0, 2, 4], [["a", "e", "a"], ["a", "e", "d", "a"], ["a", "c", "e", "a"], ["a", "c", "e", "d", "a"]])
  {
    assert SetBlocked([true, false, true, false, true], 4, false) == [true, false, true, false, false];
    assert UnblockEach(State([true, false, true, false, false], [[], [2], [], [], []], [0, 2, 4], [["a", "e", "a"], ["a", "e", "d", "a"], ["a", "c", "e", "a"], ["a", "c", "e", "d", "a"]]), 4, []) == State([true, false, true, false, false], [[], [2], [], [], []], [0, 2, 4], [["a", "e", "a"], ["a", "e", "d", "a"], ["a", "c", "e", "a"], ["a", "c", "e", "d", "a"]]);
  }

  lemma Step10()
    ensures Names(ExampleNames, [0, 2, 1, 0]) == ["a", "c", "b", "a"]
  {
    var r := Names(ExampleNames, [0, 2, 1, 0]);
    assert r[0] == "a" && r[1] == "c" && r[2] == "b" && r[3] == "a";
  }

  lemma Step11()
    ensures Unblock(State([true, true, true, false, false], [[], [2], [], [], []], [0, 2, 1], [["a", "e", "a"], ["a", "e", "d", "a"], ["a", "c", "e", "a"], ["a", "c", "e", "d", "a"], ["a", "c", "b", "a"]]), 1) == State([true, false, false, false, false], [[], [], [], [], []], [0, 2, 1], [["a", "e", "a"], ["a", "e", "d", "a"], ["a", "c", "e", "a"], ["a", "c", "e", "d", "a"], ["a", "c", "b", "a"]])
  {
    assert SetBlocked([true, true, true, false, false], 1, false) == [true, false, true, false, false];
    assert SetAt([[], [2], [], [], []], 1, Remove([2], 2)) == [[], [], [], [], []];
    assert SetBlocked([true, false, true, false, false], 2, false) == [true, false, false, false, false];
    assert UnblockEach(State([true, false, false, false, false], [[], [], [], [], []], [0, 2, 1], [["a", "e", "a"], ["a", "e", "d", "a"], ["a", "c", "e", "a"], ["a", "c", "e", "d", "a"], ["a", "c", "b", "a"]]), 2, []) == State([true, false, false, false, false], [[], [], [], [], []], [0, 2, 1], [["a", "e", "a"], ["a", "e", "d", "a"], ["a", "c", "e", "a"], ["a", "c", "e", "d", "a"], ["a", "c", "b", "a"]]);
    assert Unblock(State([true, false, true, false, false], [[], [], [], [], []], [0, 2, 1], [["a", "e", "a"], ["a", "e", "d", "a"], ["a", "c", "e", "a"], ["a", "c", "e", "d", "a"], ["a", "c", "b", "a"]]), 2) == State([true, false, false, false, false], [[], [], [], [], []], [0, 2, 1], [["a", "e", "a"], ["a", "e", "d", "a"], ["a", "c", "e", "a"], ["a", "c", "e", "d", "a"], ["a", "c", "b", "a"]]);
    assert UnblockEach(State([true, false, false, false, false], [[], [], [], [], []], [0, 2, 1], [["a", "e", "a"], ["a", "e", "d", "a"], ["a", "c", "e", "a"], ["a", "c", "e", "d", "a"], ["a", "c", "b", "a"]]), 1, []) == State([true, false, false, false, false], [[], [], [], [], []], [0, 2, 1], [["a", "e", "a"], ["a", "e", "d", "a"], ["a", "c", "e", "a"], ["a", "c", "e", "d", "a"], ["a", "c", "b", "a"]]);
    assert UnblockEach(State([true, false, true, false, false], [[], [2], [], [], []], [0, 2, 1], [["a", "e", "a"], ["a", "e", "d", "a"], ["a", "c", "e", "a"], ["a", "c", "e", "d", "a"], ["a", "c", "b", "a"]]), 1, [2]) == State([true, false, false, false, false], [[], [], [], [], []], [0, 2, 1], [["a", "e", "a"], ["a", "e", "d", "a"], ["a", "c", "e", "a"], ["a", "c", "e", "d", "a"], ["a", "c", "b", "a"]]);
  }

  lemma Step12()
    ensures Names(ExampleNames, [0, 2, 2, 4, 0]) == ["a", "c", "c", "e", "a"]
  {
    var r := Names(ExampleNames, [0, 2, 2, 4, 0]);
    assert r[0] == "a" && r[1] == "c" && r[2] == "c" && r[3] == "e" && r[4] == "a";
  }

  lemma Step13()
    ensures Unblock(State([true, false, true, false, true], [[], [], [], [], []], [0, 2, 2, 4], [["a", "e", "a"], ["a", "e", "d", "a"], ["a", "c", "e", "a"], ["a", "c", "e", "d", "a"], ["a", "c", "b", "a"], ["a", "c", "c", "e", "a"]]), 4) == State([true, false, true, false, false], [[], [], [], [], []], [0, 2, 2, 4], [["a", "e", "a"], ["a", "e", "d", "a"], ["a", "c", "e", "a"], ["a", "c", "e", "d", "a"], ["a", "c", "b", "a"], ["a", "c", "c", "e", "a"]])
  {
    assert SetBlocked([true, false, true, false, true], 4, false) == [true, false, true, false, false];
    assert UnblockEach(State([true, false, true, false, false], [[], [], [], [], []], [0, 2, 2, 4], [["a", "e", "a"], ["a", "e", "d", "a"], ["a", "c", "e", "a"], ["a", "c", "e", "d", "a"], ["a", "c", "b", "a"], ["a", "c", "c", "e", "a"]]), 4, []) == State([true, false, true, false, false], [[], [], [], [], []], [0, 2, 2, 4], [["a", "e", "a"], ["a", "e", "d", "a"], ["a", "c", "e", "a"], ["a", "c", "e", "d", "a"], ["a", "c", "b", "a"], ["a", "c", "c", "e", "a"]]);
  }

  lemma Step14()
    ensures Names(ExampleNames, [0, 2, 2, 1, 0]) == ["a", "c", "c", "b", "a"]
  {
    var r := Names(ExampleNames, [0, 2, 2, 1, 0]);
    assert r[0] == "a" && r[1] == "c" && r[2] == "c" && r[3] == "b" && r[4] == "a";
  }

  lemma Step15()
    ensures Unblock(State([true, true, true, false, false], [[], [], [], [], []], [0, 2, 2, 1], [["a", "e", "a"], ["a", "e", "d", "a"], ["a", "c", "e", "a"], ["a", "c", "e", "d", "a"], ["a", "c", "b", "a"], ["a", "c", "c", "e", "a"], ["a", "c", "c", "b", "a"]]), 1) == State([true, false, true, false, false], [[], [], [], [], []], [0, 2, 2, 1], [["a", "e", "a"], ["a", "e", "d", "a"], ["a", "c", "e", "a"], ["a", "c", "e", "d", "a"], ["a", "c", "b", "a"], ["a", "c", "c", "e", "a"], ["a", "c", "c", "b", "a"]])
  {
    assert SetBlocked([true, true, true, false, false], 1, false) == [true, false, true, false, false];
    assert UnblockEach(State([true, false, true, false, false], [[], [], [], [], []], [0, 2, 2, 1], [["a", "e", "a"], ["a", "e", "d", "a"], ["a", "c", "e", "a"], ["a", "c", "e", "d", "a"], ["a", "c", "b", "a"], ["a", "c", "c", "e", "a"], ["a", "c", "c", "b", "a"]]), 1, []) == State([true, false, true, false, false], [[], [], [], [], []], [0, 2, 2, 1], [["a", "e", "a"], ["a", "e", "d", "a"], ["a", "c", "e", "a"], ["a", "c", "e", "d", "a"], ["a", "c", "b", "a"], ["a", "c", "c", "e", "a"], ["a", "c", "c", "b", "a"]]);
  }

  lemma Step16()
    ensures Unblock(State([true, false, true, false, false], [[], [], [], [], []], [0, 2, 2], [["a", "e", "a"], ["a", "e", "d", "a"], ["a", "c", "e", "a"], ["a", "c", "e", "d", "a"], ["a", "c", "b", "a"], ["a", "c", "c", "e", "a"], ["a", "c", "c", "b", "a"]]), 2) == State([true, false, false, false, false], [[], [], [], [], []], [0, 2, 2], [["a", "e", "a"], ["a", "e", "d", "a"], ["a", "c", "e", "a"], ["a", "c", "e", "d", "a"], ["a", "c", "b", "a"], ["a", "c", "c", "e", "a"], ["a", "c", "c", "b", "a"]])
  {
    assert SetBlocked([true, false, true, false, false], 2, false) == [true, false, false, false, false];
    assert UnblockEach(State([true, false, false, false, false], [[], [], [], [], []], [0, 2, 2], [["a", "e", "a"], ["a", "e", "d", "a"], ["a", "c", "e", "a"], ["a", "c", "e", "d", "a"], ["a", "c", "b", "a"], ["a", "c", "c", "e", "a"], ["a", "c", "c", "b", "a"]]), 2, []) == State([true, false, false, false, false], [[], [], [], [], []], [0, 2, 2], [["a", "e", "a"], ["a", "e", "d", "a"], ["a", "c", "e", "a"], ["a", "c", "e", "d", "a"], ["a", "c", "b", "a"], ["a", "c", "c", "e", "a"], ["a", "c", "c", "b", "a"]]);
  }

  lemma Step17()
    ensures Unblock(State([true, false, false, false, false], [[], [], [], [], []], [0, 2], [["a", "e", "a"], ["a", "e", "d", "a"], ["a", "c", "e", "a"], ["a", "c", "e", "d", "a"], ["a", "c", "b", "a"], ["a", "c", "c", "e", "a"], ["a", "c", "c", "b", "a"]]), 2) == State([true, false, false, false, false], [[], [], [], [], []], [0, 2], [["a", "e", "a"], ["a", "e", "d", "a"], ["a", "c", "e", "a"], ["a", "c", "e", "d", "a"], ["a", "c", "b", "a"], ["a", "c", "c", "e", "a"], ["a", "c", "c", "b", "a"]])
  {
    assert SetBlocked([true, false, false, false, false], 2, false) == [true, false, false, false, false];
    assert UnblockEach(State([true, false, false, false, false], [[], [], [], [], []], [0, 2], [["a", "e", "a"], ["a", "e", "d", "a"], ["a", "c", "e", "a"], ["a", "c", "e", "d", "a"], ["a", "c", "b", "a"], ["a", "c", "c", "e", "a"], ["a", "c", "c", "b", "a"]]), 2, []) == State([true, false, false, false, false], [[], [], [], [], []], [0, 2], [["a", "e", "a"], ["a", "e", "d", "a"], ["a", "c", "e", "a"], ["a", "c", "e", "d", "a"], ["a", "c", "b", "a"], ["a", "c", "c", "e", "a"], ["a", "c", "c", "b", "a"]]);
  }

  lemma Step18()
    ensures Unblock(State([true, false, false, false, false], [[], [], [], [], []], [0], [["a", "e", "a"], ["a", "e", "d", "a"], ["a", "c", "e", "a"], ["a", "c", "e", "d", "a"], ["a", "c", "b", "a"], ["a", "c", "c", "e", "a"], ["a", "c", "c", "b", "a"]]), 0) == State([false, false, false, false, false], [[], [], [], [], []], [0], [["a", "e", "a"], ["a", "e", "d", "a"], ["a", "c", "e", "a"], ["a", "c", "e", "d", "a"], ["a", "c", "b", "a"], ["a", "c", "c", "e", "a"], ["a", "c", "c", "b", "a"]])
  {
    assert SetBlocked([true, false, false, false, false], 0, false) == [false, false, false, false, false];
    assert UnblockEach(State([false, false, false, false, false], [[], [], [], [], []], [0], [["a", "e", "a"], ["a", "e", "d", "a"], ["a", "c", "e", "a"], ["a", "c", "e", "d", "a"], ["a", "c", "b", "a"], ["a", "c", "c", "e", "a"], ["a", "c", "c", "b", "a"]]), 0, []) == State([false, false, false, false, false], [[], [], [], [], []], [0], [["a", "e", "a"], ["a", "e", "d", "a"], ["a", "c", "e", "a"], ["a", "c", "e", "d", "a"], ["a", "c", "b", "a"], ["a", "c", "c", "e", "a"], ["a", "c", "c", "b", "a"]]);
  }

  /**
   With the cap at 4, the as-written search from `a` over the whole graph
   reports `a → c → c → e → a`, which repeats `c` and so is no elementary
   cycle.
   */
  lemma AsWrittenRepeatsModule()
    ensures var r := CircuitAsWritten(ExampleAdj, ExampleNames, ExampleScc, 4, 0, 0, Initial(5)).st.cycles;
      ["a", "c", "c", "e", "a"] in r && !ElementaryCycle(ExampleGraph, 4, ["a", "c", "c", "e", "a"])
  {
    assert Initial(5) == State([false, false, false, false, false], [[], [], [], [], []], [], []);
    Trace11();
    assert ["a", "c", "c", "e", "a"][..4] == ["a", "c", "c", "e"];
    assert !NoDup(["a", "c", "c", "e"]) by {
      assert ["a", "c", "c", "e"][1] == ["a", "c", "c", "e"][2];
    }
  }

  /** The example's index form: row `i` of the index lists the positions of the neighbours of the `i`-th name. */
  lemma ExampleIndexed()
    ensures Indexed(ExampleGraph, ExampleNames, ExampleAdj)
  {
    assert Adj(ExampleGraph, "a") == ["e", "c"] && Adj(ExampleGraph, "b") == ["a"];
    assert Adj(ExampleGraph, "c") == ["e", "b", "c"] && Adj(ExampleGraph, "d") == ["a", "c"];
    assert Adj(ExampleGraph, "e") == ["a", "d"];
  }

  /** The example's names are distinct and sorted. */
  lemma ExampleSorted()
    ensures NoDup(ExampleNames) && Sorted(ExampleNames, Less)
  {
    forall i, j | 0 <= i < j < 5 ensures !Less(ExampleNames[j], ExampleNames[i]) && ExampleNames[i] != ExampleNames[j] {
      assert ExampleNames[i][0] < ExampleNames[j][0];
    }
  }

  /** The example meets the corrected search's setting from `a`: index form, distinct sorted names. */
  lemma ExampleSetting()
    ensures Setting(ExampleGraph, ExampleNames, ExampleAdj, ExampleScc, 0)
  {
    ExampleIndexed();
    ExampleSorted();
  }

  /** On the same input the corrected search reports elementary cycles only. */
  lemma CorrectedIsElementary()
    ensures forall c :: c in Circuit(ExampleAdj, ExampleNames, ExampleScc, 4, 0, 0, Initial(5)).st.cycles ==>
      ElementaryCycle(ExampleGraph, 4, c)
  {
    ExampleSetting();
    CircuitSound(ExampleGraph, ExampleNames, ExampleAdj, ExampleScc, 4, 0, 0, Initial(5));
  }
}
