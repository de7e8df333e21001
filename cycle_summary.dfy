/**
 `summarizeCycles` of `cmd/cycles.go`: how many cycles there are, how many
 of each length, the distinct two-module cycles, and the modules that take
 part in the most cycles. A cycle is a chain that ends where it started, so
 its length is one less than the number of names in it.

 The specification functions below recurse on the last cycle of a list, the
 order in which the loop of the source takes them.
 */
module CycleSummary {
  import opened Seqs
  import opened Strings

  datatype Participant = Participant(modulePath: string, cycleCount: int)

  datatype Summary = Summary(
    totalCycles: int,
    byLength: map<string, int>,
    twoNodeCycles: seq<seq<string>>,
    topParticipants: seq<Participant>)

  /** A cycle the summary looks at: at least one edge. */
  predicate Counted(c: seq<string>)
  {
    |c| >= 2
  }

  /** The modules of a cycle, without the closing repeat of the first one. */
  function Visits(c: seq<string>): (r: seq<string>)
    requires Counted(c)
    ensures |r| == |c| - 1 && r <= c
  {
    c[..|c| - 1]
  }

  /** The number of counted cycles with `n` edges. */
  function CountLength(cs: seq<seq<string>>, n: int): (r: nat)
    ensures r <= |cs|
  {
    if cs == [] then 0
    else
      var c := cs[|cs| - 1];
      CountLength(cs[..|cs| - 1], n) + (if Counted(c) && |c| - 1 == n then 1 else 0)
  }

  // ---------------------------------------------------------------------------
  // The tally by length, keyed by the decimal text of the length.

  function CountKey(cs: seq<seq<string>>, k: string): nat
  {
    if cs == [] then 0
    else
      var c := cs[|cs| - 1];
      CountKey(cs[..|cs| - 1], k) + (if Counted(c) && Itoa(|c| - 1) == k then 1 else 0)
  }

  function LengthKeys(cs: seq<seq<string>>): set<string>
  {
    if cs == [] then {}
    else
      var c := cs[|cs| - 1];
      LengthKeys(cs[..|cs| - 1]) + (if Counted(c) then {Itoa(|c| - 1)} else {})
  }

  function ByLength(cs: seq<seq<string>>): map<string, int>
  {
    map k | k in LengthKeys(cs) :: CountKey(cs, k)
  }

  /** `m[k]` with Go's zero for a missing key. */
  function Get(m: map<string, int>, k: string): int
  {
    if k in m then m[k] else 0
  }

  lemma {:induction false} CountKeyAbsent(cs: seq<seq<string>>, k: string)
    requires k !in LengthKeys(cs)
    ensures CountKey(cs, k) == 0
    decreases |cs|
  {
    if cs != [] { CountKeyAbsent(cs[..|cs| - 1], k); }
  }

  lemma CountKeySnoc(cs: seq<seq<string>>, c: seq<string>, k: string)
    ensures CountKey(cs + [c], k) == CountKey(cs, k) + (if Counted(c) && Itoa(|c| - 1) == k then 1 else 0)
    ensures LengthKeys(cs + [c]) == LengthKeys(cs) + (if Counted(c) then {Itoa(|c| - 1)} else {})
  {
    assert (cs + [c])[..|cs|] == cs;
  }

  /** One more cycle adds one to the entry of its length and changes no other. */
  lemma ByLengthSnoc(cs: seq<seq<string>>, c: seq<string>)
    ensures ByLength(cs + [c]) ==
      if Counted(c) then ByLength(cs)[Itoa(|c| - 1) := Get(ByLength(cs), Itoa(|c| - 1)) + 1]
      else ByLength(cs)
  {
    if Counted(c) { ByLengthBump(cs, c); } else { ByLengthSkip(cs, c); }
  }

  lemma ByLengthSkip(cs: seq<seq<string>>, c: seq<string>)
    requires !Counted(c)
    ensures ByLength(cs + [c]) == ByLength(cs)
  {
    var after, before := ByLength(cs + [c]), ByLength(cs);
    CountKeySnoc(cs, c, "");
    assert after.Keys == before.Keys;
    forall k | k in after ensures after[k] == before[k] {
      CountKeySnoc(cs, c, k);
    }
    MapsEqual(after, before);
  }

  lemma ByLengthBump(cs: seq<seq<string>>, c: seq<string>)
    requires Counted(c)
    ensures ByLength(cs + [c]) == ByLength(cs)[Itoa(|c| - 1) := Get(ByLength(cs), Itoa(|c| - 1)) + 1]
  {
    var key := Itoa(|c| - 1);
    var after, before := ByLength(cs + [c]), ByLength(cs);
    var expected := before[key := Get(before, key) + 1];
    CountKeySnoc(cs, c, "");
    assert after.Keys == expected.Keys;
    forall k | k in after ensures after[k] == expected[k] {
      CountKeySnoc(cs, c, k);
      if k !in LengthKeys(cs) { CountKeyAbsent(cs, k); }
    }
    MapsEqual(after, expected);
  }

  lemma MapsEqual(a: map<string, int>, b: map<string, int>)
    requires a.Keys == b.Keys && forall k :: k in a ==> a[k] == b[k]
    ensures a == b
  {
  }

  /**
   The entry for `n` edges is the number of cycles with `n` edges, and there
   is an entry exactly when there is such a cycle.
   */
  lemma {:induction false} ByLengthCounts(cs: seq<seq<string>>, n: nat)
    ensures Itoa(n) in ByLength(cs) <==> CountLength(cs, n) > 0
    ensures Get(ByLength(cs), Itoa(n)) == CountLength(cs, n)
    decreases |cs|
  {
    if cs != [] {
      var init, c := cs[..|cs| - 1], cs[|cs| - 1];
      ByLengthCounts(init, n);
      if Counted(c) && Itoa(|c| - 1) == Itoa(n) { ItoaInjective(|c| - 1, n); }
      if Counted(c) && |c| - 1 == n {
        assert Itoa(n) in LengthKeys(cs);
      }
      if Itoa(n) !in LengthKeys(init) { CountKeyAbsent(init, Itoa(n)); }
    }
  }

  /** Every key is the length of some counted cycle. */
  lemma {:induction false} ByLengthKeys(cs: seq<seq<string>>, k: string)
    requires k in ByLength(cs)
    ensures exists i :: 0 <= i < |cs| && Counted(cs[i]) && k == Itoa(|cs[i]| - 1)
    decreases |cs|
  {
    var init, c := cs[..|cs| - 1], cs[|cs| - 1];
    if Counted(c) && k == Itoa(|c| - 1) {
      assert cs[|cs| - 1] == c;
    } else {
      ByLengthKeys(init, k);
      var i :| 0 <= i < |init| && Counted(init[i]) && k == Itoa(|init[i]| - 1);
      assert cs[i] == init[i];
    }
  }

  // ---------------------------------------------------------------------------
  // Participation: each module is counted once per cycle it is on.

  function NameSet(s: seq<string>): set<string>
  {
    set x | x in s
  }

  /** The number of counted cycles that visit `m`. */
  function Appears(cs: seq<seq<string>>, m: string): (r: nat)
    ensures r <= |cs|
  {
    if cs == [] then 0
    else
      var c := cs[|cs| - 1];
      Appears(cs[..|cs| - 1], m) + (if Counted(c) && m in Visits(c) then 1 else 0)
  }

  /** The modules on some counted cycle. */
  function Parts(cs: seq<seq<string>>): set<string>
  {
    if cs == [] then {}
    else
      var c := cs[|cs| - 1];
      Parts(cs[..|cs| - 1]) + (if Counted(c) then NameSet(Visits(c)) else {})
  }

  function Counts(cs: seq<seq<string>>): map<string, int>
  {
    map m | m in Parts(cs) :: Appears(cs, m)
  }

  /** A module takes part exactly when some cycle visits it. */
  lemma {:induction false} PartsAppear(cs: seq<seq<string>>, m: string)
    ensures m in Parts(cs) <==> Appears(cs, m) > 0
    ensures m in Parts(cs) <==> exists i :: 0 <= i < |cs| && Counted(cs[i]) && m in Visits(cs[i])
    decreases |cs|
  {
    if cs != [] {
      var init, c := cs[..|cs| - 1], cs[|cs| - 1];
      PartsAppear(init, m);
      if exists i :: 0 <= i < |init| && Counted(init[i]) && m in Visits(init[i]) {
        var i :| 0 <= i < |init| && Counted(init[i]) && m in Visits(init[i]);
        assert cs[i] == init[i];
      }
      if exists i :: 0 <= i < |cs| && Counted(cs[i]) && m in Visits(cs[i]) {
        var i :| 0 <= i < |cs| && Counted(cs[i]) && m in Visits(cs[i]);
        if i < |init| { assert init[i] == cs[i]; }
      }
    }
  }

  /** One more cycle adds one to the count of each module it visits, however often. */
  lemma CountsSnoc(cs: seq<seq<string>>, c: seq<string>)
    requires Counted(c)
    ensures Counts(cs + [c]) ==
      map m | m in Counts(cs).Keys + NameSet(Visits(c)) :: Get(Counts(cs), m) + (if m in Visits(c) then 1 else 0)
  {
    assert (cs + [c])[..|cs|] == cs;
    forall m | m in NameSet(Visits(c)) && m !in Parts(cs) ensures Appears(cs, m) == 0 {
      PartsAppear(cs, m);
    }
  }

  // ---------------------------------------------------------------------------
  // The distinct two-module cycles, each as its pair of names in order.

  function Pair(c: seq<string>): (p: seq<string>)
    requires Counted(c)
    ensures |p| == 2 && !Less(p[1], p[0])
    ensures (p[0] == c[0] && p[1] == c[1]) || (p[0] == c[1] && p[1] == c[0])
  {
    if Less(c[1], c[0]) then LessAsymmetric(c[1], c[0]); [c[1], c[0]] else [c[0], c[1]]
  }

  function Key(p: seq<string>): string
    requires |p| == 2
  {
    p[0] + "|" + p[1]
  }

  predicate TwoNodeCycle(c: seq<string>)
  {
    |c| == 3
  }

  function SeenKeys(cs: seq<seq<string>>): set<string>
  {
    if cs == [] then {}
    else
      var c := cs[|cs| - 1];
      SeenKeys(cs[..|cs| - 1]) + (if TwoNodeCycle(c) then {Key(Pair(c))} else {})
  }

  /** The pairs in the order the loop first meets their keys. */
  function TwoNode(cs: seq<seq<string>>): (r: seq<seq<string>>)
    ensures forall p :: p in r ==> |p| == 2
  {
    if cs == [] then []
    else
      var init, c := cs[..|cs| - 1], cs[|cs| - 1];
      if TwoNodeCycle(c) && Key(Pair(c)) !in SeenKeys(init) then TwoNode(init) + [Pair(c)]
      else TwoNode(init)
  }

  /** The keys seen so far are exactly the keys of the pairs listed so far. */
  lemma {:induction false} SeenKeysListed(cs: seq<seq<string>>)
    ensures forall k :: k in SeenKeys(cs) <==> exists p :: p in TwoNode(cs) && Key(p) == k
    decreases |cs|
  {
    if cs != [] {
      var init, c := cs[..|cs| - 1], cs[|cs| - 1];
      SeenKeysListed(init);
      if TwoNodeCycle(c) {
        var p := Pair(c);
        assert p in TwoNode(cs) || p !in TwoNode(cs);
        if Key(p) !in SeenKeys(init) {
          assert TwoNode(cs) == TwoNode(init) + [p];
        }
      }
    }
  }

  /**
   Every listed pair is in order and comes from a two-module cycle, and no
   key, hence no pair, is listed twice.
   */
  lemma {:induction false} TwoNodeSound(cs: seq<seq<string>>)
    ensures NoDup(TwoNode(cs))
    ensures forall p :: p in TwoNode(cs) ==> !Less(p[1], p[0])
    ensures forall p :: p in TwoNode(cs) ==>
      exists i :: 0 <= i < |cs| && TwoNodeCycle(cs[i]) && p == Pair(cs[i])
    decreases |cs|
  {
    if cs != [] {
      var init, c := cs[..|cs| - 1], cs[|cs| - 1];
      TwoNodeSound(init);
      SeenKeysListed(init);
      forall p | p in TwoNode(init)
        ensures exists i :: 0 <= i < |cs| && TwoNodeCycle(cs[i]) && p == Pair(cs[i])
      {
        var i :| 0 <= i < |init| && TwoNodeCycle(init[i]) && p == Pair(init[i]);
        assert cs[i] == init[i];
      }
      if TwoNodeCycle(c) && Key(Pair(c)) !in SeenKeys(init) {
        assert cs[|cs| - 1] == c;
        NoDupSnoc(TwoNode(init), Pair(c));
      }
    }
  }

  /** No module path holds the separator of the keys. */
  predicate NoBar(s: string)
  {
    forall i :: 0 <= i < |s| ==> s[i] != '|'
  }

  /** The position of the first `|` in `s`, or `|s|` when there is none. */
  function BarAt(s: string): (r: nat)
    ensures r <= |s|
  {
    if s == [] || s[0] == '|' then 0 else 1 + BarAt(s[1..])
  }

  lemma {:induction false} BarAfter(a: string, b: string)
    requires NoBar(a)
    ensures BarAt(a + "|" + b) == |a|
    decreases |a|
  {
    if a != [] {
      assert (a + "|" + b)[1..] == a[1..] + "|" + b;
      BarAfter(a[1..], b);
    }
  }

  lemma KeyInjective(p: seq<string>, q: seq<string>)
    requires |p| == 2 && |q| == 2 && NoBar(p[0]) && NoBar(q[0])
    requires Key(p) == Key(q)
    ensures p == q
  {
    BarAfter(p[0], p[1]);
    BarAfter(q[0], q[1]);
    assert p[0] == Key(p)[..|p[0]|] == Key(q)[..|q[0]|] == q[0];
    assert p[1] == Key(p)[|p[0]| + 1..] == Key(q)[|q[0]| + 1..] == q[1];
  }

  /**
   Every two-module cycle has its pair listed, provided that no module on a
   two-module cycle has a `|` in its path (module paths never do).
   */
  lemma TwoNodeComplete(cs: seq<seq<string>>, i: int)
    requires 0 <= i < |cs| && TwoNodeCycle(cs[i])
    requires forall j :: 0 <= j < |cs| && TwoNodeCycle(cs[j]) ==> NoBar(cs[j][0]) && NoBar(cs[j][1])
    ensures Pair(cs[i]) in TwoNode(cs)
  {
    var c := cs[i];
    KeyListed(cs, i);
    SeenKeysListed(cs);
    TwoNodeSound(cs);
    var p :| p in TwoNode(cs) && Key(p) == Key(Pair(c));
    var j :| 0 <= j < |cs| && TwoNodeCycle(cs[j]) && p == Pair(cs[j]);
    KeyInjective(p, Pair(c));
  }

  lemma {:induction false} KeyListed(cs: seq<seq<string>>, i: int)
    requires 0 <= i < |cs| && TwoNodeCycle(cs[i])
    ensures Key(Pair(cs[i])) in SeenKeys(cs)
    decreases |cs|
  {
    if i < |cs| - 1 {
      var init := cs[..|cs| - 1];
      assert init[i] == cs[i];
      KeyListed(init, i);
    }
  }

  // ---------------------------------------------------------------------------
  // The two orders of the output.

  /** Pairs by first name, then by second. */
  predicate PairLess(p: seq<string>, q: seq<string>)
  {
    |p| >= 2 && |q| >= 2 && (if p[0] == q[0] then Less(p[1], q[1]) else Less(p[0], q[0]))
  }

  /** Participants by count, highest first, then by module path. */
  predicate RankLess(a: Participant, b: Participant)
  {
    if a.cycleCount == b.cycleCount then Less(a.modulePath, b.modulePath) else a.cycleCount > b.cycleCount
  }

  lemma PairLessIsStrict()
    ensures StrictOrder(PairLess)
  {
    forall p ensures !PairLess(p, p) {
      if |p| >= 2 { LessIrreflexive(p[1]); }
    }
    forall p, q, r | PairLess(p, q) && PairLess(q, r) ensures PairLess(p, r) {
      if p[0] == q[0] && q[0] == r[0] {
        LessTransitive(p[1], q[1], r[1]);
      } else if p[0] != q[0] && q[0] != r[0] {
        LessTransitive(p[0], q[0], r[0]);
        LessIrreflexive(p[0]);
      }
    }
  }

  lemma RankLessIsStrict()
    ensures StrictOrder(RankLess)
  {
    forall a ensures !RankLess(a, a) { LessIrreflexive(a.modulePath); }
    forall a, b, c | RankLess(a, b) && RankLess(b, c) ensures RankLess(a, c) {
      if a.cycleCount == b.cycleCount == c.cycleCount {
        LessTransitive(a.modulePath, b.modulePath, c.modulePath);
      }
    }
  }

  /** One participant per module of `order`, with its count. */
  function Listing(order: seq<string>, counts: map<string, int>): (r: seq<Participant>)
    ensures |r| == |order|
    ensures forall i :: 0 <= i < |order| ==> r[i] == Participant(order[i], Get(counts, order[i]))
  {
    seq(|order|, i requires 0 <= i < |order| => Participant(order[i], Get(counts, order[i])))
  }

  /**
   The summary of `cycles`, where `order` is the order in which the map of
   counts is walked; Go leaves that order unspecified.
   */
  function Summarize(cycles: seq<seq<string>>, topN: nat, order: seq<string>): (r: Summary)
    ensures r.totalCycles == |cycles|
    ensures |r.topParticipants| <= topN && |r.topParticipants| <= |order|
  {
    Summary(
      |cycles|,
      ByLength(cycles),
      SortBy(TwoNode(cycles), PairLess),
      Take(SortBy(Listing(order, Counts(cycles)), RankLess), topN))
  }

  /** `order` lists each participating module once. */
  ghost predicate ListsParts(cycles: seq<seq<string>>, order: seq<string>)
  {
    NoDup(order) && forall m :: m in order <==> m in Parts(cycles)
  }

  // ---------------------------------------------------------------------------
  // The imperative summary.

  /** The loop over the modules of one cycle, counting each one once. */
  method CountModules(counts: map<string, int>, visits: seq<string>) returns (r: map<string, int>)
    ensures r == map m | m in counts.Keys + NameSet(visits) :: Get(counts, m) + (if m in visits then 1 else 0)
  {
    r := counts;
    var seenInCycle: set<string> := {};
    for j := 0 to |visits|
      invariant seenInCycle == NameSet(visits[..j])
      invariant r.Keys == counts.Keys + seenInCycle
      invariant forall m :: m in r ==> r[m] == Get(counts, m) + (if m in seenInCycle then 1 else 0)
    {
      var name := visits[j];
      SliceSnoc(visits, j);
      if name !in seenInCycle {
        r := r[name := Get(r, name) + 1];
        seenInCycle := seenInCycle + {name};
      }
    }
    assert visits[..|visits|] == visits;
    assert forall m :: m in visits <==> m in seenInCycle;
  }

  /** One more cycle adds its key, and its pair when the key is new, exactly when it has two modules. */
  lemma TwoNodeSnoc(cs: seq<seq<string>>, c: seq<string>)
    ensures SeenKeys(cs + [c]) == SeenKeys(cs) + (if TwoNodeCycle(c) then {Key(Pair(c))} else {})
    ensures TwoNode(cs + [c]) ==
      if TwoNodeCycle(c) && Key(Pair(c)) !in SeenKeys(cs) then TwoNode(cs) + [Pair(c)] else TwoNode(cs)
  {
    assert (cs + [c])[..|cs|] == cs;
  }

  /** A cycle without an edge changes no participation count. */
  lemma CountsSkip(cs: seq<seq<string>>, c: seq<string>)
    requires !Counted(c)
    ensures Counts(cs + [c]) == Counts(cs)
  {
    assert (cs + [c])[..|cs|] == cs;
    forall m ensures Appears(cs + [c], m) == Appears(cs, m) { }
  }

  /** The two-module part of the loop body: a pair is listed when its key is met first. */
  method TallyPair(ghost done: seq<seq<string>>, cycle: seq<string>,
                   twoNodeSeen: set<string>, twoNodeCycles: seq<seq<string>>)
    returns (twoNodeSeen': set<string>, twoNodeCycles': seq<seq<string>>)
    requires twoNodeSeen == SeenKeys(done) && twoNodeCycles == TwoNode(done)
    ensures twoNodeSeen' == SeenKeys(done + [cycle]) && twoNodeCycles' == TwoNode(done + [cycle])
  {
    TwoNodeSnoc(done, cycle);
    twoNodeSeen', twoNodeCycles' := twoNodeSeen, twoNodeCycles;
    if |cycle| == 3 {
      var a, b := cycle[0], cycle[1];
      if Less(b, a) {
        a, b := b, a;
      }
      var pairKey := a + "|" + b;
      assert [a, b] == Pair(cycle) && pairKey == Key(Pair(cycle));
      if pairKey !in twoNodeSeen' {
        twoNodeSeen' := twoNodeSeen' + {pairKey};
        twoNodeCycles' := twoNodeCycles' + [[a, b]];
      }
    }
  }

  /** The body of the loop over the cycles, for one cycle. */
  method Tally(ghost done: seq<seq<string>>, cycle: seq<string>,
               byLength: map<string, int>, twoNodeSeen: set<string>,
               twoNodeCycles: seq<seq<string>>, participantCounts: map<string, int>)
    returns (byLength': map<string, int>, twoNodeSeen': set<string>,
             twoNodeCycles': seq<seq<string>>, participantCounts': map<string, int>)
    requires byLength == ByLength(done) && participantCounts == Counts(done)
    requires twoNodeSeen == SeenKeys(done) && twoNodeCycles == TwoNode(done)
    ensures byLength' == ByLength(done + [cycle]) && participantCounts' == Counts(done + [cycle])
    ensures twoNodeSeen' == SeenKeys(done + [cycle]) && twoNodeCycles' == TwoNode(done + [cycle])
  {
    if |cycle| < 2 {
      ByLengthSnoc(done, cycle);
      CountsSkip(done, cycle);
      TwoNodeSnoc(done, cycle);
      return byLength, twoNodeSeen, twoNodeCycles, participantCounts;
    }
    var cycleLen := |cycle| - 1;
    var key := Itoa(cycleLen);
    byLength' := byLength[key := Get(byLength, key) + 1];
    ByLengthSnoc(done, cycle);
    CountsSnoc(done, cycle);
    participantCounts' := CountModules(participantCounts, cycle[..|cycle| - 1]);
    twoNodeSeen', twoNodeCycles' := TallyPair(done, cycle, twoNodeSeen, twoNodeCycles);
  }

  /** The loop over the cycles: the tallies of all of them. */
  method TallyAll(cycles: seq<seq<string>>)
    returns (byLength: map<string, int>, twoNodeCycles: seq<seq<string>>, participantCounts: map<string, int>)
    ensures byLength == ByLength(cycles) && twoNodeCycles == TwoNode(cycles)
    ensures participantCounts == Counts(cycles)
  {
    byLength := map[];
    var twoNodeSeen: set<string> := {};
    twoNodeCycles := [];
    participantCounts := map[];
    for i := 0 to |cycles|
      invariant byLength == ByLength(cycles[..i]) && participantCounts == Counts(cycles[..i])
      invariant twoNodeSeen == SeenKeys(cycles[..i]) && twoNodeCycles == TwoNode(cycles[..i])
    {
      SliceSnoc(cycles, i);
      byLength, twoNodeSeen, twoNodeCycles, participantCounts :=
        Tally(cycles[..i], cycles[i], byLength, twoNodeSeen, twoNodeCycles, participantCounts);
    }
    assert cycles[..|cycles|] == cycles;
  }

  /** The walk over the map of counts, in the order `order`. */
  method ListParticipants(participantCounts: map<string, int>, order: seq<string>)
    returns (topParticipants: seq<Participant>)
    requires forall m :: m in order ==> m in participantCounts
    ensures topParticipants == Listing(order, participantCounts)
  {
    topParticipants := [];
    for k := 0 to |order|
      invariant topParticipants == Listing(order[..k], participantCounts)
    {
      var name := order[k];
      topParticipants := topParticipants + [Participant(name, participantCounts[name])];
    }
    assert order[..|order|] == order;
  }

  /**
   `summarizeCycles(cycles, topN)`. The source slices the ranking with
   `[:topN]`, which fails for a negative `topN`; `order` is the order of
   the walk over the map of counts.
   */
  method SummarizeCycles(cycles: seq<seq<string>>, topN: int, order: seq<string>) returns (s: Summary)
    requires topN >= 0 && ListsParts(cycles, order)
    ensures s == Summarize(cycles, topN, order)
  {
    var byLength, twoNodeCycles, participantCounts := TallyAll(cycles);
    twoNodeCycles := SortBy(twoNodeCycles, PairLess);
    var topParticipants := ListParticipants(participantCounts, order);
    topParticipants := SortBy(topParticipants, RankLess);
    if |topParticipants| > topN {
      topParticipants := topParticipants[..topN];
    }
    s := Summary(|cycles|, byLength, twoNodeCycles, topParticipants);
  }

  // ---------------------------------------------------------------------------
  // What the summary promises.

  /** The two-module cycles come out in order, without repeats, each from a cycle. */
  lemma TwoNodeOutput(cycles: seq<seq<string>>, topN: nat, order: seq<string>)
    ensures var out := Summarize(cycles, topN, order).twoNodeCycles;
      && Sorted(out, PairLess) && NoDup(out)
      && (forall p :: p in out ==> |p| == 2 && !Less(p[1], p[0]))
      && (forall p :: p in out ==> exists i :: 0 <= i < |cycles| && TwoNodeCycle(cycles[i]) && p == Pair(cycles[i]))
  {
    PairLessIsStrict();
    TwoNodeSound(cycles);
    SortBySorted(TwoNode(cycles), PairLess);
    SortByNoDup(TwoNode(cycles), PairLess);
    SortByMembers(TwoNode(cycles), PairLess);
  }

  /** The whole ranking, before it is cut to `topN`. */
  function Ranking(cycles: seq<seq<string>>, order: seq<string>): seq<Participant>
  {
    SortBy(Listing(order, Counts(cycles)), RankLess)
  }

  /**
   The participants come out ranked, and there are `topN` of them, or all
   the modules that take part when there are fewer.
   */
  lemma RankingShape(cycles: seq<seq<string>>, topN: nat, order: seq<string>)
    requires ListsParts(cycles, order)
    ensures var top := Summarize(cycles, topN, order).topParticipants;
      && top <= Ranking(cycles, order)
      && Sorted(top, RankLess)
      && |top| == (if topN < |Parts(cycles)| then topN else |Parts(cycles)|)
  {
    var full := Ranking(cycles, order);
    var top := Take(full, topN);
    assert top == Summarize(cycles, topN, order).topParticipants;
    RankLessIsStrict();
    SortBySorted(Listing(order, Counts(cycles)), RankLess);
    SortedPrefix(full, top, RankLess);
    RankingLength(cycles, order);
  }

  /** The whole ranking lists each participating module once. */
  lemma RankingLength(cycles: seq<seq<string>>, order: seq<string>)
    requires ListsParts(cycles, order)
    ensures |Ranking(cycles, order)| == |Parts(cycles)|
  {
    NoDupCardinality(order);
    assert NameSet(order) == Parts(cycles);
  }

  /** Each listed participant is a different module, with the number of cycles it is on. */
  lemma RankingEntries(cycles: seq<seq<string>>, topN: nat, order: seq<string>)
    requires ListsParts(cycles, order)
    ensures var top := Summarize(cycles, topN, order).topParticipants;
      && (forall i, j :: 0 <= i < j < |top| ==> top[i].modulePath != top[j].modulePath)
      && (forall p :: p in top ==> p.modulePath in Parts(cycles) && p.cycleCount == Appears(cycles, p.modulePath))
  {
    var listing := Listing(order, Counts(cycles));
    var full := Ranking(cycles, order);
    var top := Take(full, topN);
    SortByMembers(listing, RankLess);
    ModulesDistinct(order, Counts(cycles));
    SortByNoDup(listing, RankLess);
    forall i, j | 0 <= i < j < |top| ensures top[i].modulePath != top[j].modulePath {
      assert full[i] != full[j];
      assert full[i] in listing && full[j] in listing;
    }
    forall p | p in top ensures p.modulePath in Parts(cycles) && p.cycleCount == Appears(cycles, p.modulePath) {
      assert p in full;
      ListingMember(order, Counts(cycles), p);
    }
  }

  /** No module that takes part but is cut off ranks above one that is listed. */
  lemma RankingCutoff(cycles: seq<seq<string>>, topN: nat, order: seq<string>, m: string)
    requires ListsParts(cycles, order) && m in Parts(cycles)
    requires forall p :: p in Summarize(cycles, topN, order).topParticipants ==> p.modulePath != m
    ensures forall p :: p in Summarize(cycles, topN, order).topParticipants ==>
      !RankLess(Participant(m, Appears(cycles, m)), p)
  {
    var listing := Listing(order, Counts(cycles));
    var full := Ranking(cycles, order);
    var top := Take(full, topN);
    var q := Participant(m, Appears(cycles, m));
    RankLessIsStrict();
    SortBySorted(listing, RankLess);
    SortByMembers(listing, RankLess);
    ListingMember(order, Counts(cycles), q);
    var j :| 0 <= j < |full| && full[j] == q;
    IndexIsMember(top, j);
    forall p | p in top ensures !RankLess(q, p) {
      var i :| 0 <= i < |top| && top[i] == p;
      assert full[i] == p;
    }
  }

  /** The first participant listed is outranked by no module that takes part. */
  lemma RankingLeader(cycles: seq<seq<string>>, topN: nat, order: seq<string>, m: string)
    requires ListsParts(cycles, order) && m in Parts(cycles) && topN > 0
    ensures var top := Summarize(cycles, topN, order).topParticipants;
      |top| > 0 && !RankLess(Participant(m, Appears(cycles, m)), top[0])
  {
    var listing := Listing(order, Counts(cycles));
    var full := Ranking(cycles, order);
    var q := Participant(m, Appears(cycles, m));
    RankLessIsStrict();
    SortBySorted(listing, RankLess);
    SortByMembers(listing, RankLess);
    ListingMember(order, Counts(cycles), q);
    var j :| 0 <= j < |full| && full[j] == q;
  }

  /** A listing of distinct modules has no repeated participant. */
  lemma ModulesDistinct(order: seq<string>, counts: map<string, int>)
    requires NoDup(order)
    ensures NoDup(Listing(order, counts))
    ensures forall p, q :: p in Listing(order, counts) && q in Listing(order, counts) && p != q ==> p.modulePath != q.modulePath
  {
  }

  /** The whole ranking does not depend on the order in which the counts are walked. */
  lemma RankingIndependent(cycles: seq<seq<string>>, topN: nat, o1: seq<string>, o2: seq<string>)
    requires ListsParts(cycles, o1) && ListsParts(cycles, o2)
    ensures Summarize(cycles, topN, o1) == Summarize(cycles, topN, o2)
  {
    var counts := Counts(cycles);
    var l1, l2 := Listing(o1, counts), Listing(o2, counts);
    var s1, s2 := SortBy(l1, RankLess), SortBy(l2, RankLess);
    RankLessIsStrict();
    SortBySorted(l1, RankLess);
    SortBySorted(l2, RankLess);
    SortByMembers(l1, RankLess);
    SortByMembers(l2, RankLess);
    ModulesDistinct(o1, counts);
    ModulesDistinct(o2, counts);
    SortByNoDup(l1, RankLess);
    SortByNoDup(l2, RankLess);
    forall p ensures p in s1 <==> p in s2 {
      ListingMember(o1, counts, p);
      ListingMember(o2, counts, p);
    }
    forall p, q | p in s1 && q in s1 && p != q ensures RankLess(p, q) || RankLess(q, p) {
      LessTrichotomy(p.modulePath, q.modulePath);
    }
    SortedUnique(s1, s2, RankLess);
  }

  lemma ListingMember(order: seq<string>, counts: map<string, int>, p: Participant)
    ensures p in Listing(order, counts) <==> p.modulePath in order && p.cycleCount == Get(counts, p.modulePath)
  {
    if p.modulePath in order && p.cycleCount == Get(counts, p.modulePath) {
      var k :| 0 <= k < |order| && order[k] == p.modulePath;
      assert Listing(order, counts)[k] == p;
    }
  }

  // ---------------------------------------------------------------------------
  // The cases of `cmd/cycles_summary_test.go`, whatever the order of the walk.

  const Mixed: seq<seq<string>> := [["A", "B", "A"], ["B", "C", "B"], ["A", "C", "D", "A"]]
  const Reversed: seq<seq<string>> := [["A", "B", "A"], ["B", "A", "B"], ["A", "B", "C", "A"]]
  const Disjoint: seq<seq<string>> := [["A", "B", "A"], ["C", "D", "C"], ["E", "F", "E"]]

  /** The prefixes of a list of three, for the cases below. */
  lemma Prefixes(cs: seq<seq<string>>)
    requires |cs| == 3
    ensures cs[..2] == [cs[0], cs[1]] && cs[..2][..1] == [cs[0]] && cs[..2][..1][..0] == []
  {
  }

  lemma NameSetOf(a: string, b: string, c: string)
    ensures NameSet([a, b]) == {a, b} && NameSet([a, b, c]) == {a, b, c}
  {
    assert forall x :: x in [a, b] <==> x == a || x == b;
    assert forall x :: x in [a, b, c] <==> x == a || x == b || x == c;
  }

  lemma MixedParts()
    ensures Parts(Mixed) == {"A", "B", "C", "D"}
    ensures Appears(Mixed, "A") == 2 && Appears(Mixed, "B") == 2
    ensures Appears(Mixed, "C") == 2 && Appears(Mixed, "D") == 1
  {
    var c0, c1, c2 := Mixed[0], Mixed[1], Mixed[2];
    Prefixes(Mixed);
    assert Visits(c0) == ["A", "B"] && Visits(c1) == ["B", "C"] && Visits(c2) == ["A", "C", "D"];
    NameSetOf("A", "B", "");
    NameSetOf("B", "C", "");
    NameSetOf("A", "C", "D");
    assert Parts(Mixed[..2][..1]) == {"A", "B"};
    assert Parts(Mixed[..2]) == {"A", "B", "C"};
  }

  lemma MixedLengths()
    ensures Get(ByLength(Mixed), "2") == 2 && Get(ByLength(Mixed), "3") == 1
  {
    var cs := Mixed;
    Prefixes(cs);
    ByLengthCounts(cs, 2);
    ByLengthCounts(cs, 3);
    assert Itoa(2) == "2" && Itoa(3) == "3";
    assert CountLength(cs[..2][..1], 2) == 1 && CountLength(cs[..2], 2) == 2;
    assert CountLength(cs[..2], 3) == 0;
  }

  lemma MixedPairs()
    ensures |TwoNode(Mixed)| == 2
  {
    var cs := Mixed;
    var c0, c1 := cs[0], cs[1];
    Prefixes(cs);
    assert Pair(c0) == ["A", "B"] && Pair(c1) == ["B", "C"];
    assert Key(Pair(c0)) == "A|B" && Key(Pair(c1)) == "B|C";
    assert SeenKeys(cs[..2][..1]) == {"A|B"};
    assert "B|C"[0] != "A|B"[0];
    assert TwoNode(cs[..2][..1]) == [Pair(c0)];
    assert TwoNode(cs[..2]) == [Pair(c0), Pair(c1)];
  }

  lemma MixedTally()
    ensures Get(ByLength(Mixed), "2") == 2 && Get(ByLength(Mixed), "3") == 1
    ensures |TwoNode(Mixed)| == 2
  {
    MixedLengths();
    MixedPairs();
  }

  /** Of the four participants of `Mixed`, none ranks above ("A", 2). */
  lemma MixedFront(t: Participant)
    requires t.modulePath in Parts(Mixed) && t.cycleCount == Appears(Mixed, t.modulePath)
    requires !RankLess(Participant("A", 2), t)
    ensures t == Participant("A", 2)
  {
    MixedParts();
    assert Less("A", "B") && Less("A", "C");
  }

  lemma MixedLeader(order: seq<string>)
    requires ListsParts(Mixed, order)
    ensures var top := Summarize(Mixed, 10, order).topParticipants;
      |top| > 0 && top[0] == Participant("A", 2)
  {
    MixedParts();
    RankingEntries(Mixed, 10, order);
    RankingLeader(Mixed, 10, order, "A");
    var top := Summarize(Mixed, 10, order).topParticipants;
    assert top[0] in top;
    MixedFront(top[0]);
  }

  /** Three cycles, two of two modules and one of three; "A" is on two of them and leads. */
  lemma SummarizeMixed(order: seq<string>)
    requires ListsParts(Mixed, order)
    ensures var s := Summarize(Mixed, 10, order);
      && s.totalCycles == 3
      && Get(s.byLength, "2") == 2 && Get(s.byLength, "3") == 1
      && |s.twoNodeCycles| == 2
      && |s.topParticipants| > 0 && s.topParticipants[0] == Participant("A", 2)
  {
    MixedTally();
    MixedLeader(order);
  }

  /** The same pair met in both directions is listed once. */
  lemma SummarizeReversed(order: seq<string>)
    requires ListsParts(Reversed, order)
    ensures var s := Summarize(Reversed, 10, order);
      && s.totalCycles == 3
      && Get(s.byLength, "2") == 2 && Get(s.byLength, "3") == 1
      && |s.twoNodeCycles| == 1
  {
    var cs := Reversed;
    var c0, c1 := cs[0], cs[1];
    Prefixes(cs);
    ByLengthCounts(cs, 2);
    ByLengthCounts(cs, 3);
    assert Itoa(2) == "2" && Itoa(3) == "3";
    assert CountLength(cs[..2][..1], 2) == 1 && CountLength(cs[..2], 2) == 2;
    assert CountLength(cs[..2], 3) == 0;
    assert Less("A", "B");
    assert Pair(c0) == ["A", "B"] && Pair(c1) == ["A", "B"];
    assert SeenKeys(cs[..2][..1]) == {Key(Pair(c0))};
    assert TwoNode(cs[..2][..1]) == [Pair(c0)];
    assert TwoNode(cs[..2]) == [Pair(c0)];
  }

  lemma DisjointParts()
    ensures {"A", "B", "C"} <= Parts(Disjoint)
  {
    var cs := Disjoint;
    Prefixes(cs);
    assert Visits(cs[0]) == ["A", "B"] && Visits(cs[1]) == ["C", "D"];
    NameSetOf("A", "B", "");
    NameSetOf("C", "D", "");
    assert "A" in Parts(cs[..2][..1]) && "B" in Parts(cs[..2][..1]);
    assert "C" in Parts(cs[..2]);
  }

  /** Six modules take part; a cut of two keeps two. */
  lemma SummarizeDisjoint(order: seq<string>)
    requires ListsParts(Disjoint, order)
    ensures |Summarize(Disjoint, 2, order).topParticipants| == 2
  {
    DisjointParts();
    var some := {"A", "B", "C"};
    assert "A"[0] != "B"[0] && "A"[0] != "C"[0] && "B"[0] != "C"[0];
    assert |some| == 3;
    assert |Parts(Disjoint)| == |some| + |Parts(Disjoint) - some|;
    RankingShape(Disjoint, 2, order);
  }
}
