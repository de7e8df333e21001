/**
 The graph builder of `cmd/utils.go`: it parses the text printed by
 `go mod graph` into a versioned requirement graph, fixes one effective
 version per module name by a breadth-first pass from the root modules,
 and collapses the result into the name graph with its direct and
 transitive dependency lists.
 */
module Utils {
  import opened Strings
  import opened Seqs
  import opened Graphs

  /** A module path with its version; the version is empty when absent. */
  datatype Module = Module(name: string, version: string)

  /** The overview every command reads. */
  datatype DependencyOverview = DependencyOverview(
    graph: Graph,
    directDepList: seq<string>,
    transDepList: seq<string>,
    mainModules: seq<string>)

  /** `contains`: linear membership test on a string slice. */
  function Contains(s: seq<string>, str: string): (b: bool)
    ensures b <==> str in s
  {
    if s == [] then false else s[0] == str || Contains(s[1..], str)
  }

  /** `isSliceSame`: same length and the same element at every index. */
  function IsSliceSame(a: seq<string>, b: seq<string>): (r: bool)
    ensures r <==> a == b
  {
    if |a| != |b| then false
    else if a == [] then true
    else
      assert a == [a[0]] + a[1..] && b == [b[0]] + b[1..];
      a[0] == b[0] && IsSliceSame(a[1..], b[1..])
  }

  /** `sliceContains`: some chain of `val` is element-wise equal to `key`. */
  function SliceContains(val: seq<seq<string>>, key: seq<string>): (r: bool)
    ensures r <==> key in val
  {
    if val == [] then false else IsSliceSame(val[0], key) || SliceContains(val[1..], key)
  }

  /** `parseModule`: split `path@version` at the first `@`. */
  function ParseModule(s: string): (m: Module)
    ensures '@' !in m.name
    ensures '@' in s ==> m.name + "@" + m.version == s
    ensures '@' !in s ==> m == Module(s, "")
  {
    var i := Index(s, "@");
    if i < 0 then
      NotInIfNoIndex(s, '@');
      Module(s, "")
    else
      NoCharBeforeIndex(s, '@', i);
      OccursAtChar(s, '@', i);
      assert s == s[..i] + "@" + s[i + 1..];
      Module(s[..i], s[i + 1..])
  }

  /** Parsing a printed `name@version` gives the name and version back. */
  lemma ParseModuleRoundTrip(name: string, version: string)
    requires '@' !in name
    ensures ParseModule(name + "@" + version) == Module(name, version)
  {
    var s := name + "@" + version;
    OccursAtChar(s, '@', |name|);
    forall j | 0 <= j < |name| ensures !OccursAt(s, "@", j) {
      OccursAtChar(s, '@', j);
      assert s[j] == name[j];
    }
    assert s[..|name|] == name && s[|name| + 1..] == version;
  }

  /**
   The deduplicated union `getAllDeps` builds: the direct entries first,
   then the transitive ones that are not direct, each once.
   */
  method GetAllDeps(directDeps: seq<string>, transDeps: seq<string>) returns (allDeps: seq<string>)
    ensures allDeps == Dedup(directDeps + transDeps)
  {
    allDeps := [];
    for i := 0 to |directDeps|
      invariant allDeps == Dedup(directDeps[..i])
    {
      assert directDeps[..i + 1] == directDeps[..i] + [directDeps[i]];
      DedupSnoc(directDeps[..i], directDeps[i]);
      if !Contains(allDeps, directDeps[i]) {
        allDeps := allDeps + [directDeps[i]];
      }
    }
    assert directDeps[..|directDeps|] == directDeps;
    assert directDeps + transDeps[..0] == directDeps;
    for i := 0 to |transDeps|
      invariant allDeps == Dedup(directDeps + transDeps[..i])
    {
      assert directDeps + transDeps[..i + 1] == (directDeps + transDeps[..i]) + [transDeps[i]];
      DedupSnoc(directDeps + transDeps[..i], transDeps[i]);
      if !Contains(allDeps, transDeps[i]) {
        allDeps := allDeps + [transDeps[i]];
      }
    }
    assert transDeps[..|transDeps|] == transDeps;
  }

  /** What `getAllDeps` promises: every dependency once, direct entries first. */
  lemma AllDepsProperties(directDeps: seq<string>, transDeps: seq<string>)
    ensures NoDup(Dedup(directDeps + transDeps))
    ensures forall d :: d in Dedup(directDeps + transDeps) <==> d in directDeps || d in transDeps
    ensures Dedup(directDeps) <= Dedup(directDeps + transDeps)
    ensures |Dedup(directDeps + transDeps)| == |set d | d in directDeps + transDeps|
  {
    DedupPrefix(directDeps, transDeps);
    DedupCardinality(directDeps + transDeps);
  }

  /** One `lhs rhs` requirement line of `go mod graph`, parsed. */
  datatype Requirement = Requirement(from: Module, to: Module)

  /** The `go` and `toolchain…` pseudo-modules, which are never roots. */
  predicate SkippedName(name: string)
  {
    name == "go" || HasPrefix(name, "toolchain")
  }

  /**
   A line the scanner loop can read without an index error: it has a
   first field, and a second one unless its module is skipped.
   */
  predicate LineOk(line: string)
  {
    var w := Fields(line);
    |w| >= 1 && (SkippedName(ParseModule(w[0]).name) || |w| >= 2)
  }

  predicate LinesOk(lines: seq<string>)
  {
    forall k :: 0 <= k < |lines| ==> LineOk(lines[k])
  }

  /** The requirement one line contributes: none when its left module is skipped. */
  function LineRecord(line: string): (r: seq<Requirement>)
    requires LineOk(line)
    ensures |r| <= 1
    ensures forall k :: 0 <= k < |r| ==> !SkippedName(r[k].from.name)
  {
    var w := Fields(line);
    var lhs := ParseModule(w[0]);
    if SkippedName(lhs.name) then [] else [Requirement(lhs, ParseModule(w[1]))]
  }

  /**
   The requirements of the lines whose left module is not skipped, in
   order. A line that `LineOk` rejects makes the Go code panic; every
   caller here requires `LinesOk`, so such lines never reach this
   function's second branch.
   */
  function Records(lines: seq<string>): (r: seq<Requirement>)
    ensures forall k :: 0 <= k < |r| ==> !SkippedName(r[k].from.name)
    ensures |r| <= |lines|
  {
    if lines == [] then []
    else
      var last := lines[|lines| - 1];
      Records(lines[..|lines| - 1]) + (if LineOk(last) then LineRecord(last) else [])
  }

  /** Reading one more line; a skipped one adds no root, main module nor edge. */
  lemma RecordsSnoc(lines: seq<string>, line: string)
    requires LineOk(line)
    ensures Records(lines + [line]) == Records(lines) + LineRecord(line)
  {
    assert (lines + [line])[..|lines|] == lines;
  }

  /** Reading line `i` after the lines before it. */
  lemma RecordsPrefix(lines: seq<string>, i: int)
    requires 0 <= i < |lines| && LineOk(lines[i])
    ensures Records(lines[..i + 1]) == Records(lines[..i]) + LineRecord(lines[i])
  {
    assert lines[..i + 1] == lines[..i] + [lines[i]];
    RecordsSnoc(lines[..i], lines[i]);
  }

  /** `versionedGraph[m]`, empty for a missing key. */
  function Requires(vg: map<Module, seq<Module>>, m: Module): seq<Module>
  {
    if m in vg then vg[m] else []
  }

  /** The versioned graph the scanner loop builds, in line order. */
  function VersionedGraph(recs: seq<Requirement>): (vg: map<Module, seq<Module>>)
    ensures forall m :: m in vg ==> |vg[m]| > 0
  {
    if recs == [] then map[]
    else
      var g := VersionedGraph(recs[..|recs| - 1]);
      var r := recs[|recs| - 1];
      g[r.from := Requires(g, r.from) + [r.to]]
  }

  /** The keys of the versioned graph are the left modules read. */
  lemma {:induction false} VersionedGraphKeys(recs: seq<Requirement>)
    ensures forall l :: l in VersionedGraph(recs) <==> exists k :: 0 <= k < |recs| && recs[k].from == l
    decreases |recs|
  {
    if recs != [] {
      var prev := recs[..|recs| - 1];
      VersionedGraphKeys(prev);
      forall l ensures l in VersionedGraph(recs) <==> exists k :: 0 <= k < |recs| && recs[k].from == l {
        if l in VersionedGraph(prev) {
          var k :| 0 <= k < |prev| && prev[k].from == l;
          assert recs[k].from == l;
        }
        if exists k :: 0 <= k < |recs| && recs[k].from == l {
          var k :| 0 <= k < |recs| && recs[k].from == l;
          if k < |prev| { assert prev[k].from == l; }
        }
      }
    }
  }

  /** The versioned graph has exactly the requirements that were read. */
  lemma {:induction false} VersionedGraphEdges(recs: seq<Requirement>)
    ensures forall l, t :: t in Requires(VersionedGraph(recs), l) <==> Requirement(l, t) in recs
    decreases |recs|
  {
    if recs != [] {
      var prev := recs[..|recs| - 1];
      VersionedGraphEdges(prev);
      assert recs == prev + [recs[|recs| - 1]];
    }
  }

  function Lhs(recs: seq<Requirement>): (r: seq<Module>)
    ensures |r| == |recs| && forall k :: 0 <= k < |recs| ==> r[k] == recs[k].from
  {
    if recs == [] then [] else Lhs(recs[..|recs| - 1]) + [recs[|recs| - 1].from]
  }

  /**
   The left modules that become roots: the first one read, whatever the
   main-module argument says, and then every one whose name the argument
   lists.
   */
  function RootCandidates(recs: seq<Requirement>, mainModules: seq<string>): seq<Module>
  {
    if recs == [] then []
    else
      var lhs := recs[|recs| - 1].from;
      RootCandidates(recs[..|recs| - 1], mainModules)
        + (if |recs| == 1 || lhs.name in mainModules then [lhs] else [])
  }

  lemma {:induction false} RootCandidatesSpec(recs: seq<Requirement>, mainModules: seq<string>)
    ensures forall m :: m in RootCandidates(recs, mainModules) <==>
      |recs| > 0 && (m == recs[0].from || (m in Lhs(recs) && m.name in mainModules))
    ensures |recs| > 0 ==> |RootCandidates(recs, mainModules)| > 0 && RootCandidates(recs, mainModules)[0] == recs[0].from
    decreases |recs|
  {
    if |recs| > 1 {
      var prev := recs[..|recs| - 1];
      RootCandidatesSpec(prev, mainModules);
      assert Lhs(recs) == Lhs(prev) + [recs[|recs| - 1].from];
      assert prev[0] == recs[0];
    }
  }

  /** The main modules of the result: the argument, or the first left module read. */
  function MainModulesOf(recs: seq<Requirement>, mainModules: seq<string>): seq<string>
  {
    if |mainModules| == 0 && |recs| > 0 then [recs[0].from.name] else mainModules
  }

  /** How each prefix-defined result grows by one requirement. */
  lemma ScanSnoc(recs: seq<Requirement>, r: Requirement, mainModules: seq<string>)
    ensures var recs' := recs + [r];
      && Lhs(recs') == Lhs(recs) + [r.from]
      && VersionedGraph(recs') == VersionedGraph(recs)[r.from := Requires(VersionedGraph(recs), r.from) + [r.to]]
      && RootCandidates(recs', mainModules) == RootCandidates(recs, mainModules)
           + (if recs == [] || r.from.name in mainModules then [r.from] else [])
      && MainModulesOf(recs', mainModules) ==
           (if |mainModules| == 0 && recs == [] then [r.from.name] else MainModulesOf(recs, mainModules))
  {
    var recs' := recs + [r];
    assert recs'[..|recs'| - 1] == recs && recs'[|recs'| - 1] == r;
    assert Lhs(recs') == Lhs(recs) + [r.from];
    assert VersionedGraph(recs') == VersionedGraph(recs)[r.from := Requires(VersionedGraph(recs), r.from) + [r.to]];
    assert RootCandidates(recs', mainModules) == RootCandidates(recs, mainModules)
      + (if recs == [] || r.from.name in mainModules then [r.from] else []);
    if recs != [] { assert recs'[0] == recs[0]; }
  }

  /** The state the scanner loop keeps after reading the requirements `recs`. */
  ghost predicate ScanState(recs: seq<Requirement>, mainModules: seq<string>,
    roots: seq<Module>, seen: set<Module>, mains: seq<string>, lhss: seq<Module>, vg: map<Module, seq<Module>>)
  {
    && roots == Dedup(RootCandidates(recs, mainModules))
    && (forall m :: m in seen <==> m in roots)
    && mains == MainModulesOf(recs, mainModules)
    && lhss == Dedup(Lhs(recs))
    && vg == VersionedGraph(recs)
    && (forall m :: m in vg <==> m in lhss)
  }

  lemma RootsStep(recs: seq<Requirement>, mainModules: seq<string>, roots: seq<Module>, seen: set<Module>, lhs: Module, rhs: Module)
    requires roots == Dedup(RootCandidates(recs, mainModules))
    requires forall m :: m in seen <==> m in roots
    ensures var addRoot := (|roots| == 0 || lhs.name in mainModules) && lhs !in seen;
      (if addRoot then roots + [lhs] else roots) == Dedup(RootCandidates(recs + [Requirement(lhs, rhs)], mainModules))
  {
    ScanSnoc(recs, Requirement(lhs, rhs), mainModules);
    if recs != [] { RootCandidatesSpec(recs, mainModules); }
    assert |roots| == 0 <==> recs == [];
    var c := RootCandidates(recs, mainModules);
    DedupSnoc(c, lhs);
    assert c + [] == c;
    assert lhs in seen <==> lhs in c;
  }

  lemma LhssStep(recs: seq<Requirement>, lhss: seq<Module>, vg: map<Module, seq<Module>>, lhs: Module, rhs: Module,
    lhss': seq<Module>, vg': map<Module, seq<Module>>)
    requires lhss == Dedup(Lhs(recs))
    requires vg == VersionedGraph(recs)
    requires forall m :: m in vg <==> m in lhss
    requires lhss' == if |Requires(vg, lhs)| == 0 then lhss + [lhs] else lhss
    requires vg' == vg[lhs := Requires(vg, lhs) + [rhs]]
    ensures lhss' == Dedup(Lhs(recs + [Requirement(lhs, rhs)]))
    ensures vg' == VersionedGraph(recs + [Requirement(lhs, rhs)])
    ensures forall m :: m in vg' <==> m in lhss'
  {
    ScanSnoc(recs, Requirement(lhs, rhs), []);
    DedupSnoc(Lhs(recs), lhs);
  }

  /** One iteration of the scanner loop on a line that is not skipped. */
  lemma ScanStep(recs: seq<Requirement>, mainModules: seq<string>,
    roots: seq<Module>, seen: set<Module>, mains: seq<string>, lhss: seq<Module>, vg: map<Module, seq<Module>>,
    lhs: Module, rhs: Module,
    roots': seq<Module>, seen': set<Module>, mains': seq<string>, lhss': seq<Module>, vg': map<Module, seq<Module>>)
    requires ScanState(recs, mainModules, roots, seen, mains, lhss, vg)
    requires var addRoot := (|roots| == 0 || lhs.name in mainModules) && lhs !in seen;
      && roots' == (if addRoot then roots + [lhs] else roots)
      && seen' == (if addRoot then seen + {lhs} else seen)
    requires mains' == if |mains| == 0 then mains + [lhs.name] else mains
    requires lhss' == if |Requires(vg, lhs)| == 0 then lhss + [lhs] else lhss
    requires vg' == vg[lhs := Requires(vg, lhs) + [rhs]]
    ensures ScanState(recs + [Requirement(lhs, rhs)], mainModules, roots', seen', mains', lhss', vg')
  {
    var recs' := recs + [Requirement(lhs, rhs)];
    RootsStep(recs, mainModules, roots, seen, lhs, rhs);
    assert roots' == Dedup(RootCandidates(recs', mainModules));
    assert forall m :: m in seen' <==> m in roots';
    LhssStep(recs, lhss, vg, lhs, rhs, lhss', vg');
    ScanSnoc(recs, Requirement(lhs, rhs), mainModules);
    assert |mains| == 0 <==> |mainModules| == 0 && recs == [];
    assert mains' == MainModulesOf(recs', mainModules);
  }

  /** The body of the scanner loop: read one `lhs rhs` line. */
  method ScanLine(line: string, mainModules: seq<string>, ghost recs: seq<Requirement>,
    roots: seq<Module>, seen: set<Module>, mains: seq<string>, lhss: seq<Module>, vg: map<Module, seq<Module>>)
    returns (roots': seq<Module>, seen': set<Module>, mains': seq<string>, lhss': seq<Module>, vg': map<Module, seq<Module>>)
    requires LineOk(line)
    requires ScanState(recs, mainModules, roots, seen, mains, lhss, vg)
    ensures ScanState(recs + LineRecord(line), mainModules, roots', seen', mains', lhss', vg')
  {
    roots', seen', mains', lhss', vg' := roots, seen, mains, lhss, vg;
    var words := Fields(line);
    var lhs := ParseModule(words[0]);
    if lhs.name == "go" || HasPrefix(lhs.name, "toolchain") {
      assert recs + LineRecord(line) == recs;
      return;
    }
    var rhs := ParseModule(words[1]);
    if |roots| == 0 || Contains(mainModules, lhs.name) {
      if lhs !in seen {
        roots' := roots + [lhs];
        seen' := seen + {lhs};
      }
    }
    if |mains| == 0 {
      mains' := mains + [lhs.name];
    }
    if |Requires(vg, lhs)| == 0 {
      lhss' := lhss + [lhs];
    }
    vg' := vg[lhs := Requires(vg, lhs) + [rhs]];
    ScanStep(recs, mainModules, roots, seen, mains, lhss, vg, lhs, rhs, roots', seen', mains', lhss', vg');
  }

  /** Before the first line: no roots, no requiring modules, an empty versioned graph. */
  lemma ScanInit(mainModules: seq<string>)
    ensures ScanState([], mainModules, [], {}, mainModules, [], map[])
  {
    assert Dedup<Module>([]) == [];
  }

  /**
   The scanner loop of `generateGraph`: roots (`versionedMainModules`),
   the main modules, the left modules in first-seen order and the
   versioned graph.
   */
  method ScanGraph(lines: seq<string>, mainModules: seq<string>)
    returns (roots: seq<Module>, mains: seq<string>, lhss: seq<Module>, vg: map<Module, seq<Module>>)
    requires LinesOk(lines)
    ensures roots == Dedup(RootCandidates(Records(lines), mainModules))
    ensures mains == MainModulesOf(Records(lines), mainModules)
    ensures lhss == Dedup(Lhs(Records(lines)))
    ensures vg == VersionedGraph(Records(lines))
  {
    roots, mains, lhss, vg := [], mainModules, [], map[];
    var seen: set<Module> := {};
    ghost var recs: seq<Requirement> := [];
    ScanInit(mainModules);
    assert Records(lines[..0]) == [];
    for i := 0 to |lines|
      invariant recs == Records(lines[..i])
      invariant ScanState(recs, mainModules, roots, seen, mains, lhss, vg)
    {
      var line := lines[i];
      assert LineOk(line);
      RecordsPrefix(lines, i);
      roots, seen, mains, lhss, vg := ScanLine(line, mainModules, recs, roots, seen, mains, lhss, vg);
      recs := recs + LineRecord(line);
    }
    assert lines[..|lines|] == lines;
  }

  /** The requirements of the roots, root by root, in order. */
  function RootRequirements(roots: seq<Module>, vg: map<Module, seq<Module>>): seq<Module>
  {
    if roots == [] then []
    else RootRequirements(roots[..|roots| - 1], vg) + Requires(vg, roots[|roots| - 1])
  }

  /**
   `ev` maps each name to the greatest non-empty version (in Go's
   string order) that the modules `ms` require, and has no other keys.
   */
  ghost predicate GreatestVersions(ev: map<string, string>, ms: seq<Module>)
  {
    && (forall n :: n in ev ==> ev[n] != "" && Module(n, ev[n]) in ms)
    && (forall m :: m in ms && m.version != "" ==> m.name in ev && LessEq(m.version, ev[m.name]))
  }

  /** The table of greatest versions is determined by the requirements. */
  lemma GreatestVersionsUnique(ev1: map<string, string>, ev2: map<string, string>, ms: seq<Module>)
    requires GreatestVersions(ev1, ms) && GreatestVersions(ev2, ms)
    ensures ev1 == ev2
  {
    forall n | n in ev1 ensures n in ev2 && ev1[n] == ev2[n] {
      assert Module(n, ev1[n]) in ms;
      var v1, v2 := ev1[n], ev2[n];
      assert Module(n, v2) in ms;
      if v1 != v2 { LessAsymmetric(v1, v2); }
    }
    forall n | n in ev2 ensures n in ev1 {
      assert Module(n, ev2[n]) in ms;
    }
  }

  /** One comparison of the initial effective-version loop. */
  lemma RaiseVersionStep(ev: map<string, string>, ms: seq<Module>, m: Module)
    requires GreatestVersions(ev, ms)
    ensures GreatestVersions(
      if Less(if m.name in ev then ev[m.name] else "", m.version) then ev[m.name := m.version] else ev,
      ms + [m])
  {
    var cur := if m.name in ev then ev[m.name] else "";
    if Less(cur, m.version) {
      var ev' := ev[m.name := m.version];
      forall m' | m' in ms + [m] && m'.version != "" ensures m'.name in ev' && LessEq(m'.version, ev'[m'.name]) {
        if m' != m && m'.name == m.name {
          assert m' in ms;
          LessEqTransitive(m'.version, cur, m.version);
        }
      }
      assert m.version != "";
    } else {
      NotLess(cur, m.version);
      if m.version != "" {
        assert cur != "";
      }
    }
  }

  /** The version table after raising `ev` to the version of `m` when that is newer (lines 201-203). */
  function Raise(ev: map<string, string>, m: Module): map<string, string>
  {
    if Less(if m.name in ev then ev[m.name] else "", m.version) then ev[m.name := m.version] else ev
  }

  /** The table the loop of lines 199-206 builds from the requirements `ms`, read in order. */
  function Greatest(ms: seq<Module>): map<string, string>
  {
    if ms == [] then map[] else Raise(Greatest(ms[..|ms| - 1]), ms[|ms| - 1])
  }

  /** The table built by the loop holds the greatest required versions. */
  lemma {:induction false} GreatestIsGreatest(ms: seq<Module>)
    ensures GreatestVersions(Greatest(ms), ms)
    decreases |ms|
  {
    if ms != [] {
      var prev := ms[..|ms| - 1];
      GreatestIsGreatest(prev);
      RaiseVersionStep(Greatest(prev), prev, ms[|ms| - 1]);
      assert prev + [ms[|ms| - 1]] == ms;
    }
  }

  lemma GreatestSnoc(ms: seq<Module>, m: Module)
    ensures Greatest(ms + [m]) == Raise(Greatest(ms), m)
  {
    assert (ms + [m])[..|ms|] == ms;
  }

  /** The inner loop of lines 200-204: raise the table over the requirements of one root. */
  method RaiseAll(ev: map<string, string>, ghost before: seq<Module>, reqs: seq<Module>) returns (ev': map<string, string>)
    requires ev == Greatest(before)
    ensures ev' == Greatest(before + reqs)
  {
    ev' := ev;
    assert before + reqs[..0] == before;
    for j := 0 to |reqs|
      invariant ev' == Greatest(before + reqs[..j])
    {
      var m := reqs[j];
      GreatestSnoc(before + reqs[..j], m);
      assert before + reqs[..j + 1] == (before + reqs[..j]) + [m];
      ev' := Raise(ev', m);
    }
    assert reqs[..|reqs|] == reqs;
  }

  lemma RootRequirementsSnoc(roots: seq<Module>, i: int, vg: map<Module, seq<Module>>)
    requires 0 <= i < |roots|
    ensures RootRequirements(roots[..i + 1], vg) == RootRequirements(roots[..i], vg) + Requires(vg, roots[i])
  {
    assert roots[..i + 1][..i] == roots[..i];
  }

  /**
   Lines 199-206 of `generateGraph`: each module required by a root
   starts with the greatest version the roots require.
   */
  method InitialEffectiveVersions(roots: seq<Module>, vg: map<Module, seq<Module>>) returns (ev: map<string, string>)
    ensures ev == Greatest(RootRequirements(roots, vg))
    ensures GreatestVersions(ev, RootRequirements(roots, vg))
  {
    ev := map[];
    for i := 0 to |roots|
      invariant ev == Greatest(RootRequirements(roots[..i], vg))
    {
      RootRequirementsSnoc(roots, i, vg);
      ev := RaiseAll(ev, RootRequirements(roots[..i], vg), Requires(vg, roots[i]));
    }
    assert roots[..|roots|] == roots;
    GreatestIsGreatest(RootRequirements(roots, vg));
  }

  /** An entry of the breadth-first queue `toVisit`. */
  datatype QueueEdge = QueueEdge(from: Module, to: Module)

  /** Go's zero `module{}`: the `from` of a root's queue entry. */
  const NoModule := Module("", "")

  /** Every module name the breadth-first pass can meet. */
  ghost function ReachUniverse(roots: seq<Module>, vg: map<Module, seq<Module>>): set<string>
  {
    (set r | r in roots :: r.name) + (set l, m | l in vg && m in vg[l] :: m.name)
  }

  /** The queue holds names of the universe, which bounds the reached names. */
  ghost predicate QueueBounded(u: set<string>, toVisit: seq<QueueEdge>, reachable: map<string, Module>)
  {
    (forall q :: q in toVisit ==> q.to.name in u) && reachable.Keys <= u
  }

  /** The effective versions only grow, and only for reached names. */
  ghost predicate VersionsGrow(ev0: map<string, string>, reachable: map<string, Module>, ev: map<string, string>)
  {
    && ev.Keys == ev0.Keys + reachable.Keys
    && (forall n :: n in ev0 ==> LessEq(ev0[n], ev[n]))
    && (forall n :: n in ev0 && n !in reachable ==> ev[n] == ev0[n])
  }

  /** Each reached name is expanded exactly once, at its effective version. */
  ghost predicate ExpandedOnce(reachable: map<string, Module>, ev: map<string, string>, expanded: seq<Module>)
  {
    && (forall i, j :: 0 <= i < j < |expanded| ==> expanded[i].name != expanded[j].name)
    && (forall e :: e in expanded ==> e.name in reachable && e.name in ev && ev[e.name] == e.version)
    && (forall n :: n in reachable ==> n in ev && Module(n, ev[n]) in expanded)
  }

  /** What is not reached yet is still queued. */
  ghost predicate Pending(roots: seq<Module>, vg: map<Module, seq<Module>>, toVisit: seq<QueueEdge>,
    reachable: map<string, Module>, expanded: seq<Module>)
  {
    && (forall r :: r in roots ==> r.name in reachable || QueueEdge(NoModule, r) in toVisit)
    && (forall e, m :: e in expanded && m in Requires(vg, e) ==> m.name in reachable || QueueEdge(e, m) in toVisit)
  }

  /** Every queue entry and every reached name comes from a root or an expanded requirement. */
  ghost predicate Justified(roots: seq<Module>, vg: map<Module, seq<Module>>, toVisit: seq<QueueEdge>,
    reachable: map<string, Module>, expanded: seq<Module>)
  {
    && (forall q :: q in toVisit ==> (q.from == NoModule && q.to in roots) || (q.from in expanded && q.to in Requires(vg, q.from)))
    && (forall n :: n in reachable ==> ReachedVia(roots, vg, expanded, n, reachable[n]))
  }

  /** `n` was reached as a root (from the zero module) or as a requirement of the expanded `from`. */
  ghost predicate ReachedVia(roots: seq<Module>, vg: map<Module, seq<Module>>, expanded: seq<Module>, n: string, from: Module)
  {
    (from == NoModule && exists r :: r in roots && r.name == n)
    || (from in expanded && exists m :: m in Requires(vg, from) && m.name == n)
  }

  /** The invariant of the breadth-first pass at lines 220-241. */
  ghost predicate ReachState(roots: seq<Module>, vg: map<Module, seq<Module>>, ev0: map<string, string>,
    toVisit: seq<QueueEdge>, reachable: map<string, Module>, ev: map<string, string>, expanded: seq<Module>)
  {
    && QueueBounded(ReachUniverse(roots, vg), toVisit, reachable)
    && VersionsGrow(ev0, reachable, ev)
    && ExpandedOnce(reachable, ev, expanded)
    && Pending(roots, vg, toVisit, reachable, expanded)
    && Justified(roots, vg, toVisit, reachable, expanded)
  }

  lemma PopFront(toVisit: seq<QueueEdge>)
    requires |toVisit| > 0
    ensures forall q :: q in toVisit ==> q == toVisit[0] || q in toVisit[1..]
  {
    forall q | q in toVisit ensures q == toVisit[0] || q in toVisit[1..] {
      var k :| 0 <= k < |toVisit| && toVisit[k] == q;
      if k > 0 { assert toVisit[1..][k - 1] == q; }
    }
  }

  lemma ReachSkip(roots: seq<Module>, vg: map<Module, seq<Module>>, ev0: map<string, string>,
    toVisit: seq<QueueEdge>, reachable: map<string, Module>, ev: map<string, string>, expanded: seq<Module>)
    requires |toVisit| > 0 && toVisit[0].to.name in reachable
    requires ReachState(roots, vg, ev0, toVisit, reachable, ev, expanded)
    ensures ReachState(roots, vg, ev0, toVisit[1..], reachable, ev, expanded)
  {
    PopFront(toVisit);
  }

  /** The entries queued for the requirements of `v`. */
  function Enqueue(v: Module, ms: seq<Module>): (r: seq<QueueEdge>)
    ensures |r| == |ms| && forall k :: 0 <= k < |ms| ==> r[k] == QueueEdge(v, ms[k])
  {
    seq(|ms|, k requires 0 <= k < |ms| => QueueEdge(v, ms[k]))
  }

  lemma EnqueueMembers(v: Module, ms: seq<Module>)
    ensures forall q :: q in Enqueue(v, ms) <==> q.from == v && q.to in ms
  {
    var added := Enqueue(v, ms);
    forall q | q in added ensures q.from == v && q.to in ms {
      var k :| 0 <= k < |added| && added[k] == q;
    }
    forall m | m in ms ensures QueueEdge(v, m) in added {
      var k :| 0 <= k < |ms| && ms[k] == m;
      assert added[k] == QueueEdge(v, m);
    }
  }

  /** The version the pass records for a newly reached module `w`. */
  predicate EffectiveStep(w: Module, ev: map<string, string>, v: Module, ev': map<string, string>)
  {
    if w.name in ev && Less(w.version, ev[w.name])
    then v == Module(w.name, ev[w.name]) && ev' == ev
    else v == w && ev' == ev[w.name := w.version]
  }

  lemma VisitVersions(ev0: map<string, string>, reachable: map<string, Module>, ev: map<string, string>,
    w: Module, from: Module, v: Module, ev': map<string, string>)
    requires w.name !in reachable
    requires VersionsGrow(ev0, reachable, ev)
    requires EffectiveStep(w, ev, v, ev')
    ensures VersionsGrow(ev0, reachable[w.name := from], ev')
  {
    forall n | n in ev0 ensures LessEq(ev0[n], ev'[n]) {
      if n == w.name && !(w.name in ev && Less(w.version, ev[w.name])) {
        if n in ev {
          NotLess(w.version, ev[n]);
          LessEqTransitive(ev0[n], ev[n], w.version);
        }
      }
    }
  }

  lemma VisitExpanded(reachable: map<string, Module>, ev: map<string, string>,
    expanded: seq<Module>, w: Module, from: Module, v: Module, ev': map<string, string>)
    requires w.name !in reachable
    requires ExpandedOnce(reachable, ev, expanded)
    requires EffectiveStep(w, ev, v, ev')
    ensures ExpandedOnce(reachable[w.name := from], ev', expanded + [v])
  {
    var reachable', expanded' := reachable[w.name := from], expanded + [v];
    assert v.name == w.name && ev'[v.name] == v.version;
    forall e | e in expanded' ensures e.name in reachable' && e.name in ev' && ev'[e.name] == e.version {
      if e != v {
        assert e in expanded;
      }
    }
    forall i, j | 0 <= i < j < |expanded'| ensures expanded'[i].name != expanded'[j].name {
      if j == |expanded| {
        assert expanded'[i] in expanded;
      }
    }
    forall n | n in reachable' ensures n in ev' && Module(n, ev'[n]) in expanded' {
      if n != w.name {
        assert Module(n, ev[n]) in expanded;
      }
    }
  }

  lemma VisitQueue(roots: seq<Module>, vg: map<Module, seq<Module>>,
    toVisit: seq<QueueEdge>, reachable: map<string, Module>, expanded: seq<Module>, v: Module)
    requires |toVisit| > 0 && toVisit[0].to.name !in reachable && v.name == toVisit[0].to.name
    requires QueueBounded(ReachUniverse(roots, vg), toVisit, reachable)
    requires Pending(roots, vg, toVisit, reachable, expanded)
    requires Justified(roots, vg, toVisit, reachable, expanded)
    ensures var toVisit' := toVisit[1..] + Enqueue(v, Requires(vg, v));
      var reachable' := reachable[v.name := toVisit[0].from];
      && QueueBounded(ReachUniverse(roots, vg), toVisit', reachable')
      && Pending(roots, vg, toVisit', reachable', expanded + [v])
      && Justified(roots, vg, toVisit', reachable', expanded + [v])
  {
    var ms := Requires(vg, v);
    var toVisit' := toVisit[1..] + Enqueue(v, ms);
    var reachable' := reachable[v.name := toVisit[0].from];
    var expanded' := expanded + [v];
    PopFront(toVisit);
    EnqueueMembers(v, ms);
    forall q | q in toVisit' ensures q.to.name in ReachUniverse(roots, vg) {
      if q !in toVisit[1..] {
        assert q.from == v && q.to in ms;
        assert v in vg;
      }
    }
    forall e, m | e in expanded' && m in Requires(vg, e) ensures m.name in reachable' || QueueEdge(e, m) in toVisit' {
      if e != v && m.name !in reachable' {
        assert QueueEdge(e, m) in toVisit[1..];
      }
    }
    forall r | r in roots ensures r.name in reachable' || QueueEdge(NoModule, r) in toVisit' {
      if r.name !in reachable' {
        assert QueueEdge(NoModule, r) in toVisit[1..];
      }
    }
    forall n | n in reachable' ensures ReachedVia(roots, vg, expanded', n, reachable'[n]) {
      if n != v.name {
        assert ReachedVia(roots, vg, expanded, n, reachable[n]);
      }
    }
  }

  lemma ReachInit(roots: seq<Module>, vg: map<Module, seq<Module>>, ev0: map<string, string>)
    ensures ReachState(roots, vg, ev0, Enqueue(NoModule, roots), map[], ev0, [])
  {
    EnqueueMembers(NoModule, roots);
  }

  lemma Shrinks(u: set<string>, before: set<string>, n: string)
    requires n in u && n !in before
    ensures |u - (before + {n})| < |u - before|
  {
    var rest := u - (before + {n});
    assert u - before == rest + {n} && n !in rest;
  }

  /** With the queue empty, the invariant gives the closure the pass promises. */
  lemma ReachDone(roots: seq<Module>, vg: map<Module, seq<Module>>, ev0: map<string, string>,
    reachable: map<string, Module>, ev: map<string, string>, expanded: seq<Module>)
    requires ReachState(roots, vg, ev0, [], reachable, ev, expanded)
    ensures forall r :: r in roots ==> r.name in reachable
    ensures forall n :: n in reachable ==> n in ev
    ensures forall n, m :: n in reachable && m in Requires(vg, Module(n, ev[n])) ==> m.name in reachable
  {
    forall n, m | n in reachable && m in Requires(vg, Module(n, ev[n])) ensures m.name in reachable {
      assert Module(n, ev[n]) in expanded;
    }
  }

  /**
   One step of the pass for a queue entry whose name is not reached yet
   (lines 226-240): record where it came from, settle its effective version
   and queue its requirements at that version.
   */
  method Visit(ghost roots: seq<Module>, vg: map<Module, seq<Module>>, ghost ev0: map<string, string>,
    toVisit: seq<QueueEdge>, reachable: map<string, Module>, ev: map<string, string>, ghost expanded: seq<Module>)
    returns (toVisit': seq<QueueEdge>, reachable': map<string, Module>, ev': map<string, string>, ghost expanded': seq<Module>)
    requires |toVisit| > 0 && toVisit[0].to.name !in reachable
    requires ReachState(roots, vg, ev0, toVisit, reachable, ev, expanded)
    ensures (toVisit', reachable', ev') == Advance(vg, toVisit, reachable, ev)
    ensures ReachState(roots, vg, ev0, toVisit', reachable', ev', expanded')
    ensures reachable'.Keys == reachable.Keys + {toVisit[0].to.name}
  {
    var from, w := toVisit[0].from, toVisit[0].to;
    reachable' := reachable[w.name := from];
    var v := w;
    ev' := ev;
    if w.name in ev && Less(w.version, ev[w.name]) {
      v := Module(w.name, ev[w.name]);
    } else {
      ev' := ev[w.name := w.version];
    }
    expanded' := expanded + [v];
    toVisit' := EnqueueAll(toVisit[1..], v, Requires(vg, v));
    VisitStep(roots, vg, ev0, toVisit, reachable, ev, expanded, w, v, toVisit', reachable', ev', expanded');
  }

  lemma VisitStep(roots: seq<Module>, vg: map<Module, seq<Module>>, ev0: map<string, string>,
    toVisit: seq<QueueEdge>, reachable: map<string, Module>, ev: map<string, string>, expanded: seq<Module>,
    w: Module, v: Module,
    toVisit': seq<QueueEdge>, reachable': map<string, Module>, ev': map<string, string>, expanded': seq<Module>)
    requires |toVisit| > 0 && w == toVisit[0].to && w.name !in reachable
    requires ReachState(roots, vg, ev0, toVisit, reachable, ev, expanded)
    requires EffectiveStep(w, ev, v, ev')
    requires reachable' == reachable[w.name := toVisit[0].from]
    requires expanded' == expanded + [v]
    requires toVisit' == toVisit[1..] + Enqueue(v, Requires(vg, v))
    ensures ReachState(roots, vg, ev0, toVisit', reachable', ev', expanded')
  {
    VisitVersions(ev0, reachable, ev, w, toVisit[0].from, v, ev');
    VisitExpanded(reachable, ev, expanded, w, toVisit[0].from, v, ev');
    VisitQueue(roots, vg, toVisit, reachable, expanded, v);
  }

  /** The loop at lines 236-239: queue every requirement of `v`. */
  method EnqueueAll(toVisit: seq<QueueEdge>, v: Module, reqs: seq<Module>) returns (r: seq<QueueEdge>)
    ensures r == toVisit + Enqueue(v, reqs)
  {
    r := toVisit;
    for j := 0 to |reqs|
      invariant r == toVisit + Enqueue(v, reqs[..j])
    {
      assert reqs[..j + 1] == reqs[..j] + [reqs[j]];
      r := r + [QueueEdge(v, reqs[j])];
    }
    assert reqs[..|reqs|] == reqs;
  }

  /**
   The step of lines 226-239 for a queue entry whose name is not reached
   yet: the queue without its front plus the requirements of the module
   at its effective version, the name recorded as reached, and the
   version table with the entry's version unless a newer one is recorded.
   */
  function Advance(vg: map<Module, seq<Module>>, toVisit: seq<QueueEdge>, reachable: map<string, Module>,
    ev: map<string, string>): (seq<QueueEdge>, map<string, Module>, map<string, string>)
    requires |toVisit| > 0
  {
    var from, w := toVisit[0].from, toVisit[0].to;
    if w.name in ev && Less(w.version, ev[w.name]) then
      var v := Module(w.name, ev[w.name]);
      (toVisit[1..] + Enqueue(v, Requires(vg, v)), reachable[w.name := from], ev)
    else
      (toVisit[1..] + Enqueue(w, Requires(vg, w)), reachable[w.name := from], ev[w.name := w.version])
  }

  /** A step keeps the queue inside the universe and reaches one more name of it. */
  lemma AdvanceBounded(roots: seq<Module>, vg: map<Module, seq<Module>>, toVisit: seq<QueueEdge>,
    reachable: map<string, Module>, ev: map<string, string>)
    requires |toVisit| > 0 && toVisit[0].to.name !in reachable
    requires QueueBounded(ReachUniverse(roots, vg), toVisit, reachable)
    ensures var n := Advance(vg, toVisit, reachable, ev);
      && QueueBounded(ReachUniverse(roots, vg), n.0, n.1)
      && |ReachUniverse(roots, vg) - n.1.Keys| < |ReachUniverse(roots, vg) - reachable.Keys|
  {
    var u := ReachUniverse(roots, vg);
    var w := toVisit[0].to;
    var v := if w.name in ev && Less(w.version, ev[w.name]) then Module(w.name, ev[w.name]) else w;
    var ms := Requires(vg, v);
    assert Advance(vg, toVisit, reachable, ev).0 == toVisit[1..] + Enqueue(v, ms);
    PopFront(toVisit);
    EnqueueMembers(v, ms);
    forall q | q in toVisit[1..] + Enqueue(v, ms) ensures q.to.name in u {
      if q !in toVisit[1..] {
        assert q.to in ms;
        assert v in vg;
      }
    }
    Shrinks(u, reachable.Keys, w.name);
  }

  /**
   The breadth-first pass of lines 220-241 as a function of the queue,
   the reached names and the version table: the reached names and the
   effective versions it ends with. A front entry whose name is reached
   is dropped; any other is settled by `Advance`.
   */
  ghost function Pass(roots: seq<Module>, vg: map<Module, seq<Module>>, toVisit: seq<QueueEdge>,
    reachable: map<string, Module>, ev: map<string, string>): (r: (map<string, Module>, map<string, string>))
    requires QueueBounded(ReachUniverse(roots, vg), toVisit, reachable)
    ensures reachable.Keys <= r.0.Keys
    decreases |ReachUniverse(roots, vg) - reachable.Keys|, |toVisit|
  {
    if toVisit == [] then (reachable, ev)
    else if toVisit[0].to.name in reachable then
      Pass(roots, vg, toVisit[1..], reachable, ev)
    else
      AdvanceBounded(roots, vg, toVisit, reachable, ev);
      var n := Advance(vg, toVisit, reachable, ev);
      Pass(roots, vg, n.0, n.1, n.2)
  }

  /**
   What the pass establishes when its queue runs dry: every root is
   reached, every reached name has an effective version, and whatever a
   reached name requires at that version is reached too.
   */
  ghost predicate ReachClosed(roots: seq<Module>, vg: map<Module, seq<Module>>, reachable: map<string, Module>, ev: map<string, string>)
  {
    && (forall r :: r in roots ==> r.name in reachable)
    && (forall n :: n in reachable ==> n in ev)
    && (forall n, m :: n in reachable && m in Requires(vg, Module(n, ev[n])) ==> m.name in reachable)
  }

  /** From any state of the invariant the pass ends closed. */
  lemma {:induction false} PassClosed(roots: seq<Module>, vg: map<Module, seq<Module>>, ev0: map<string, string>,
    toVisit: seq<QueueEdge>, reachable: map<string, Module>, ev: map<string, string>, expanded: seq<Module>)
    requires ReachState(roots, vg, ev0, toVisit, reachable, ev, expanded)
    ensures var r := Pass(roots, vg, toVisit, reachable, ev); ReachClosed(roots, vg, r.0, r.1)
    decreases |ReachUniverse(roots, vg) - reachable.Keys|, |toVisit|
  {
    if toVisit == [] {
      ReachDone(roots, vg, ev0, reachable, ev, expanded);
    } else if toVisit[0].to.name in reachable {
      ReachSkip(roots, vg, ev0, toVisit, reachable, ev, expanded);
      PassClosed(roots, vg, ev0, toVisit[1..], reachable, ev, expanded);
    } else {
      var w := toVisit[0].to;
      var v := if w.name in ev && Less(w.version, ev[w.name]) then Module(w.name, ev[w.name]) else w;
      AdvanceBounded(roots, vg, toVisit, reachable, ev);
      var n := Advance(vg, toVisit, reachable, ev);
      VisitStep(roots, vg, ev0, toVisit, reachable, ev, expanded, w, v, n.0, n.1, n.2, expanded + [v]);
      PassClosed(roots, vg, ev0, n.0, n.1, n.2, expanded + [v]);
    }
  }

  /** The pass of lines 213-241 from the roots' queue entries (lines 216-219) and the table `ev0`. */
  ghost function Reached(roots: seq<Module>, vg: map<Module, seq<Module>>, ev0: map<string, string>)
    : (r: (map<string, Module>, map<string, string>))
    ensures ReachClosed(roots, vg, r.0, r.1)
  {
    ReachInit(roots, vg, ev0);
    PassClosed(roots, vg, ev0, Enqueue(NoModule, roots), map[], ev0, []);
    Pass(roots, vg, Enqueue(NoModule, roots), map[], ev0)
  }

  /**
   The breadth-first pass of lines 213-241: from the roots, follow the
   requirements of each newly reached name at its effective version,
   raising the recorded version when the reached one is newer.
   */
  method Reach(roots: seq<Module>, vg: map<Module, seq<Module>>, ev0: map<string, string>)
    returns (reachable: map<string, Module>, ev: map<string, string>)
    ensures (reachable, ev) == Reached(roots, vg, ev0)
    ensures ReachClosed(roots, vg, reachable, ev)
  {
    reachable, ev := map[], ev0;
    ghost var expanded := [];
    var toVisit := EnqueueAll([], NoModule, roots);
    assert toVisit == Enqueue(NoModule, roots);
    ReachInit(roots, vg, ev0);
    ghost var u := ReachUniverse(roots, vg);
    while |toVisit| > 0
      invariant ReachState(roots, vg, ev0, toVisit, reachable, ev, expanded)
      invariant Pass(roots, vg, toVisit, reachable, ev) == Reached(roots, vg, ev0)
      decreases |u - reachable.Keys|, |toVisit|
    {
      if toVisit[0].to.name in reachable {
        ReachSkip(roots, vg, ev0, toVisit, reachable, ev, expanded);
        toVisit := toVisit[1..];
      } else {
        ghost var before := reachable.Keys;
        Shrinks(u, before, toVisit[0].to.name);
        toVisit, reachable, ev, expanded := Visit(roots, vg, ev0, toVisit, reachable, ev, expanded);
      }
    }
  }

  /** The name graph and dependency lists being collapsed (lines 243-276). */
  datatype Collapsed = Collapsed(graph: Graph, direct: seq<string>, trans: seq<string>)

  /** A left module is kept when it is reached and is at its effective version. */
  predicate Qualifies(l: Module, reachable: map<string, Module>, ev: map<string, string>)
  {
    l.name in reachable && !(l.name in ev && ev[l.name] != l.version)
  }

  /** The requirements of `l`, as records. */
  function Edges(l: Module, rs: seq<Module>): (r: seq<Requirement>)
    ensures |r| == |rs| && forall k :: 0 <= k < |rs| ==> r[k] == Requirement(l, rs[k])
  {
    seq(|rs|, k requires 0 <= k < |rs| => Requirement(l, rs[k]))
  }

  lemma EdgesSnoc(l: Module, rs: seq<Module>, r: Module)
    ensures Edges(l, rs + [r]) == Edges(l, rs) + [Requirement(l, r)]
  {
  }

  /** The requirements the collapse loop walks over, left module by left module. */
  function Kept(lhss: seq<Module>, vg: map<Module, seq<Module>>, reachable: map<string, Module>, ev: map<string, string>): seq<Requirement>
  {
    if lhss == [] then []
    else
      var l := lhss[|lhss| - 1];
      Kept(lhss[..|lhss| - 1], vg, reachable, ev) + (if Qualifies(l, reachable, ev) then Edges(l, Requires(vg, l)) else [])
  }

  lemma KeptSnoc(lhss: seq<Module>, l: Module, vg: map<Module, seq<Module>>, reachable: map<string, Module>, ev: map<string, string>)
    ensures Kept(lhss + [l], vg, reachable, ev)
      == Kept(lhss, vg, reachable, ev) + (if Qualifies(l, reachable, ev) then Edges(l, Requires(vg, l)) else [])
  {
    assert (lhss + [l])[..|lhss|] == lhss;
  }

  lemma KeptPrefix(lhss: seq<Module>, i: int, vg: map<Module, seq<Module>>, reachable: map<string, Module>, ev: map<string, string>)
    requires 0 <= i < |lhss|
    ensures Kept(lhss[..i + 1], vg, reachable, ev)
      == Kept(lhss[..i], vg, reachable, ev) + (if Qualifies(lhss[i], reachable, ev) then Edges(lhss[i], Requires(vg, lhss[i])) else [])
  {
    assert lhss[..i + 1] == lhss[..i] + [lhss[i]];
    KeptSnoc(lhss[..i], lhss[i], vg, reachable, ev);
  }

  lemma {:induction false} KeptMembers(lhss: seq<Module>, vg: map<Module, seq<Module>>, reachable: map<string, Module>, ev: map<string, string>)
    ensures forall e :: e in Kept(lhss, vg, reachable, ev) <==> e.from in lhss && Qualifies(e.from, reachable, ev) && e.to in Requires(vg, e.from)
  {
    if lhss != [] {
      var init, l := lhss[..|lhss| - 1], lhss[|lhss| - 1];
      KeptMembers(init, vg, reachable, ev);
      assert lhss == init + [l];
      var rs := Requires(vg, l);
      forall e ensures e in Edges(l, rs) <==> e.from == l && e.to in rs {
        if e in Edges(l, rs) {
          var k :| 0 <= k < |rs| && Edges(l, rs)[k] == e;
        }
        if e.from == l && e.to in rs {
          var k :| 0 <= k < |rs| && rs[k] == e.to;
          assert Edges(l, rs)[k] == e;
        }
      }
    }
  }

  /** `if !contains(list, x) { list = append(list, x) }` */
  function AppendNew(list: seq<string>, x: string): (r: seq<string>)
    ensures forall y :: y in r <==> y in list || y == x
    ensures NoDup(list) ==> NoDup(r)
    ensures |r| > 0
  {
    if Contains(list, x) then list else list + [x]
  }

  /** One iteration of the inner collapse loop, for the requirement `e`. */
  function AddEdge(c: Collapsed, mains: seq<string>, e: Requirement): Collapsed
  {
    var (l, r) := (e.from.name, e.to.name);
    var graph := c.graph[l := AppendNew(Adj(c.graph, l), r)];
    if Contains(mains, l) && Contains(mains, r) then Collapsed(graph, c.direct, c.trans)
    else if Contains(mains, l) then Collapsed(graph, AppendNew(c.direct, r), c.trans)
    else Collapsed(graph, c.direct, AppendNew(c.trans, r))
  }

  /** What the collapse loop builds from the requirements `es`. */
  function Fold(es: seq<Requirement>, mains: seq<string>): Collapsed
  {
    if es == [] then Collapsed(map[], [], [])
    else AddEdge(Fold(es[..|es| - 1], mains), mains, es[|es| - 1])
  }

  lemma FoldSnoc(es: seq<Requirement>, mains: seq<string>, e: Requirement)
    ensures Fold(es + [e], mains) == AddEdge(Fold(es, mains), mains, e)
  {
    assert (es + [e])[..|es|] == es;
  }

  /** The name graph: each list is duplicate-free and non-empty. */
  lemma {:induction false} FoldGraphLists(es: seq<Requirement>, mains: seq<string>)
    ensures forall n :: n in Fold(es, mains).graph ==> |Fold(es, mains).graph[n]| > 0 && NoDup(Fold(es, mains).graph[n])
  {
    if es != [] {
      var init, e := es[..|es| - 1], es[|es| - 1];
      FoldGraphLists(init, mains);
      assert es == init + [e];
    }
  }

  lemma AddEdgeGraph(c: Collapsed, mains: seq<string>, e: Requirement)
    ensures forall n :: n in AddEdge(c, mains, e).graph <==> n in c.graph || n == e.from.name
    ensures var g := AddEdge(c, mains, e).graph;
      forall n, t :: n in g && t in g[n] <==> (n in c.graph && t in c.graph[n]) || (n == e.from.name && t == e.to.name)
  {
  }

  /** The name graph: an edge per kept requirement, and a key per left module name. */
  lemma {:induction false} FoldGraph(es: seq<Requirement>, mains: seq<string>)
    ensures forall n :: n in Fold(es, mains).graph <==> exists e :: e in es && e.from.name == n
    ensures forall n, t :: n in Fold(es, mains).graph && t in Fold(es, mains).graph[n] <==> exists e :: e in es && e.from.name == n && e.to.name == t
  {
    if es != [] {
      var init, e := es[..|es| - 1], es[|es| - 1];
      FoldGraph(init, mains);
      AddEdgeGraph(Fold(init, mains), mains, e);
      assert es == init + [e];
      assert forall x :: x in es <==> x in init || x == e;
    }
  }

  /** The direct list: the names a main module requires that are not main modules themselves. */
  lemma {:induction false} FoldDirect(es: seq<Requirement>, mains: seq<string>)
    ensures NoDup(Fold(es, mains).direct)
    ensures forall t :: t in Fold(es, mains).direct <==> exists e :: e in es && e.from.name in mains && e.to.name !in mains && e.to.name == t
  {
    if es != [] {
      var init, e := es[..|es| - 1], es[|es| - 1];
      FoldDirect(init, mains);
      assert es == init + [e];
    }
  }

  /** The transitive list: the names a non-main module requires. */
  lemma {:induction false} FoldTrans(es: seq<Requirement>, mains: seq<string>)
    ensures NoDup(Fold(es, mains).trans)
    ensures forall t :: t in Fold(es, mains).trans <==> exists e :: e in es && e.from.name !in mains && e.to.name == t
  {
    if es != [] {
      var init, e := es[..|es| - 1], es[|es| - 1];
      FoldTrans(init, mains);
      assert es == init + [e];
    }
  }

  /** The body of the inner loop (lines 254-273): one requirement of a kept left module. */
  method CollapseEdge(c: Collapsed, mains: seq<string>, l: Module, r: Module) returns (c': Collapsed)
    ensures c' == AddEdge(c, mains, Requirement(l, r))
  {
    var out := Adj(c.graph, l.name);
    var graph := c.graph;
    if !Contains(out, r.name) {
      graph := graph[l.name := out + [r.name]];
    } else {
      assert l.name in graph && graph[l.name := out] == graph;
    }
    var direct, trans := c.direct, c.trans;
    if Contains(mains, l.name) && Contains(mains, r.name) {
    } else if Contains(mains, l.name) {
      if !Contains(direct, r.name) {
        direct := direct + [r.name];
      }
    } else {
      if !Contains(trans, r.name) {
        trans := trans + [r.name];
      }
    }
    c' := Collapsed(graph, direct, trans);
  }

  /** The inner loop of lines 253-274, for one kept left module. */
  method CollapseLhs(c: Collapsed, mains: seq<string>, l: Module, rs: seq<Module>, ghost es: seq<Requirement>)
    returns (c': Collapsed)
    requires c == Fold(es, mains)
    ensures c' == Fold(es + Edges(l, rs), mains)
  {
    c' := c;
    ghost var done := es;
    assert es + Edges(l, rs[..0]) == es;
    for j := 0 to |rs|
      invariant done == es + Edges(l, rs[..j])
      invariant c' == Fold(done, mains)
    {
      EdgesPrefix(es, l, rs, j);
      FoldSnoc(done, mains, Requirement(l, rs[j]));
      c' := CollapseEdge(c', mains, l, rs[j]);
      done := done + [Requirement(l, rs[j])];
    }
    assert rs[..|rs|] == rs;
  }

  lemma EdgesPrefix(es: seq<Requirement>, l: Module, rs: seq<Module>, j: int)
    requires 0 <= j < |rs|
    ensures es + Edges(l, rs[..j + 1]) == es + Edges(l, rs[..j]) + [Requirement(l, rs[j])]
  {
    assert rs[..j + 1] == rs[..j] + [rs[j]];
    EdgesSnoc(l, rs[..j], rs[j]);
  }

  /** The collapse loop of lines 243-276 over the left modules in first-seen order. */
  method Collapse(lhss: seq<Module>, vg: map<Module, seq<Module>>, reachable: map<string, Module>,
    ev: map<string, string>, mains: seq<string>) returns (c: Collapsed)
    ensures c == Fold(Kept(lhss, vg, reachable, ev), mains)
  {
    c := Collapsed(map[], [], []);
    ghost var done: seq<Requirement> := [];
    for i := 0 to |lhss|
      invariant done == Kept(lhss[..i], vg, reachable, ev)
      invariant c == Fold(done, mains)
    {
      var l := lhss[i];
      KeptPrefix(lhss, i, vg, reachable, ev);
      if !(l.name in reachable) {
        continue;
      }
      if l.name in ev && ev[l.name] != l.version {
        continue;
      }
      c := CollapseLhs(c, mains, l, Requires(vg, l), done);
      done := done + Edges(l, Requires(vg, l));
    }
    assert lhss[..|lhss|] == lhss;
  }

  /** `m` requires some version of the module named `t`. */
  ghost predicate RequiresName(vg: map<Module, seq<Module>>, m: Module, t: string)
  {
    exists r :: r in Requires(vg, m) && r.name == t
  }

  /** The name graph in terms of the versioned graph: the names each reached module requires at its effective version. */
  ghost predicate GraphOf(graph: Graph, vg: map<Module, seq<Module>>, reachable: map<string, Module>, ev: map<string, string>)
    requires forall n :: n in reachable ==> n in ev
  {
    && (forall n :: n in graph ==> |graph[n]| > 0 && NoDup(graph[n]))
    && (forall n, t :: n in graph && t in graph[n] <==> n in reachable && RequiresName(vg, Module(n, ev[n]), t))
  }

  /** The classification of lines 262-273 in terms of the name graph. */
  ghost predicate DepListsOf(graph: Graph, mains: seq<string>, direct: seq<string>, trans: seq<string>)
  {
    && NoDup(direct) && NoDup(trans)
    && (forall t :: t in direct <==> exists n :: n in graph && n in mains && t in graph[n] && t !in mains)
    && (forall t :: t in trans <==> exists n :: n in graph && n !in mains && t in graph[n])
  }

  lemma CollapseGraph(lhss: seq<Module>, vg: map<Module, seq<Module>>, reachable: map<string, Module>,
    ev: map<string, string>, mains: seq<string>)
    requires forall n :: n in reachable ==> n in ev
    requires forall l :: l in vg <==> l in lhss
    ensures GraphOf(Fold(Kept(lhss, vg, reachable, ev), mains).graph, vg, reachable, ev)
  {
    var es := Kept(lhss, vg, reachable, ev);
    KeptMembers(lhss, vg, reachable, ev);
    FoldGraph(es, mains);
    FoldGraphLists(es, mains);
    var g := Fold(es, mains).graph;
    forall n, t ensures n in g && t in g[n] <==> n in reachable && RequiresName(vg, Module(n, ev[n]), t) {
      if n in g && t in g[n] {
        var e :| e in es && e.from.name == n && e.to.name == t;
        assert e.from == Module(n, ev[n]);
      }
      if n in reachable && RequiresName(vg, Module(n, ev[n]), t) {
        var r :| r in Requires(vg, Module(n, ev[n])) && r.name == t;
        assert Requirement(Module(n, ev[n]), r) in es;
      }
    }
  }

  lemma CollapseLists(es: seq<Requirement>, mains: seq<string>)
    ensures var c := Fold(es, mains); DepListsOf(c.graph, mains, c.direct, c.trans)
  {
    FoldGraph(es, mains);
    FoldDirect(es, mains);
    FoldTrans(es, mains);
    var c := Fold(es, mains);
    forall t ensures t in c.direct <==> exists n :: n in c.graph && n in mains && t in c.graph[n] && t !in mains {
      if t in c.direct {
        var e :| e in es && e.from.name in mains && e.to.name !in mains && e.to.name == t;
        assert e.from.name in c.graph && t in c.graph[e.from.name];
      }
      if exists n :: n in c.graph && n in mains && t in c.graph[n] && t !in mains {
        var n :| n in c.graph && n in mains && t in c.graph[n] && t !in mains;
        var e :| e in es && e.from.name == n && e.to.name == t;
      }
    }
    forall t ensures t in c.trans <==> exists n :: n in c.graph && n !in mains && t in c.graph[n] {
      if t in c.trans {
        var e :| e in es && e.from.name !in mains && e.to.name == t;
        assert e.from.name in c.graph && t in c.graph[e.from.name];
      }
      if exists n :: n in c.graph && n !in mains && t in c.graph[n] {
        var n :| n in c.graph && n !in mains && t in c.graph[n];
        var e :| e in es && e.from.name == n && e.to.name == t;
      }
    }
  }

  /** The roots the scanner collects: the candidates in first-seen order, each once. */
  function Roots(recs: seq<Requirement>, mainModules: seq<string>): seq<Module>
  {
    Dedup(RootCandidates(recs, mainModules))
  }

  /**
   The reached names and effective versions of `generateGraph` on the
   requirements `recs`: the pass from the roots, started from the greatest
   versions the roots require.
   */
  ghost function Effective(recs: seq<Requirement>, mainModules: seq<string>): (r: (map<string, Module>, map<string, string>))
    ensures ReachClosed(Roots(recs, mainModules), VersionedGraph(recs), r.0, r.1)
  {
    var roots, vg := Roots(recs, mainModules), VersionedGraph(recs);
    Reached(roots, vg, Greatest(RootRequirements(roots, vg)))
  }

  /**
   The overview `generateGraph` returns for the requirements `recs`: the
   collapse of the left modules kept at the effective versions. Its graph
   lists what each reached name requires at its effective version, and
   its lists classify those names by whether a main module requires them.
   */
  ghost function Overview(recs: seq<Requirement>, mainModules: seq<string>): (dep: DependencyOverview)
    ensures var r := Effective(recs, mainModules);
      && dep.mainModules == MainModulesOf(recs, mainModules)
      && GraphOf(dep.graph, VersionedGraph(recs), r.0, r.1)
      && DepListsOf(dep.graph, dep.mainModules, dep.directDepList, dep.transDepList)
  {
    var vg := VersionedGraph(recs);
    var mains := MainModulesOf(recs, mainModules);
    var r := Effective(recs, mainModules);
    var lhss := Dedup(Lhs(recs));
    LhssKeys(recs);
    CollapseGraph(lhss, vg, r.0, r.1, mains);
    CollapseLists(Kept(lhss, vg, r.0, r.1), mains);
    var c := Fold(Kept(lhss, vg, r.0, r.1), mains);
    DependencyOverview(c.graph, c.direct, c.trans, mains)
  }

  /** The left modules the scanner remembers are exactly the keys of the versioned graph. */
  lemma LhssKeys(recs: seq<Requirement>)
    ensures forall l :: l in VersionedGraph(recs) <==> l in Dedup(Lhs(recs))
  {
    VersionedGraphKeys(recs);
    var lhs := Lhs(recs);
    forall l ensures l in VersionedGraph(recs) <==> l in lhs {
      if l in lhs {
        var k :| 0 <= k < |lhs| && lhs[k] == l;
        assert recs[k].from == l;
      }
    }
  }

  /** The roots and left modules of the one-line graph `A B`. */
  lemma OneLineRoots()
    ensures var a, b := Module("A", ""), Module("B", "");
      var recs := [Requirement(a, b)];
      && Roots(recs, []) == [a]
      && Dedup(Lhs(recs)) == [a]
      && MainModulesOf(recs, []) == ["A"]
  {
    var a, b := Module("A", ""), Module("B", "");
    var recs := [Requirement(a, b)];
    assert recs[..0] == [];
    assert RootCandidates(recs, []) == [a];
    assert [a][..0] == [];
    assert Dedup([a]) == [a];
    assert Lhs(recs) == [a];
  }

  /** The versioned graph of `A B` and its table of greatest root versions. */
  lemma OneLineVersions()
    ensures var a, b := Module("A", ""), Module("B", "");
      && VersionedGraph([Requirement(a, b)]) == map[a := [b]]
      && Greatest(RootRequirements([a], map[a := [b]])) == map[]
  {
    var a, b := Module("A", ""), Module("B", "");
    var recs := [Requirement(a, b)];
    assert recs[..0] == [];
    assert [a][..0] == [] && [b][..0] == [];
    assert RootRequirements([a], map[a := [b]]) == [b];
    assert Greatest([b]) == map[];
  }

  /** The breadth-first pass on `A B` reaches A and then B, both at the empty version. */
  lemma OneLinePass()
    ensures var a, b := Module("A", ""), Module("B", "");
      Reached([a], map[a := [b]], map[]) == (map["A" := NoModule, "B" := a], map["A" := "", "B" := ""])
  {
    var a, b := Module("A", ""), Module("B", "");
    var vg := map[a := [b]];
    var q0 := Enqueue(NoModule, [a]);
    assert q0 == [QueueEdge(NoModule, a)];
    assert Requires(vg, a) == [b] && Enqueue(a, [b]) == [QueueEdge(a, b)];
    var s1 := Advance(vg, q0, map[], map[]);
    assert q0[1..] == [] && q0[0].to == a && q0[0].from == NoModule;
    assert s1.0 == [QueueEdge(a, b)];
    assert s1.1 == map["A" := NoModule];
    assert s1.2 == map["A" := ""];
    var s2 := Advance(vg, s1.0, s1.1, s1.2);
    assert s1.0[1..] == [] && s1.0[0].to == b && s1.0[0].from == a && "B" !in s1.2;
    assert Requires(vg, b) == [] && Enqueue(b, []) == [];
    assert s2.0 == [];
    assert s2.1 == map["A" := NoModule, "B" := a];
    assert s2.2 == map["A" := "", "B" := ""];
    assert "B" !in s1.1;
    assert Pass([a], vg, q0, map[], map[]) == Pass([a], vg, s1.0, s1.1, s1.2);
    assert Pass([a], vg, s1.0, s1.1, s1.2) == Pass([a], vg, s2.0, s2.1, s2.2);
    assert Pass([a], vg, s2.0, s2.1, s2.2) == (s2.1, s2.2);
  }

  /** Both names reached at the empty version keep the single requirement. */
  lemma OneLineKept()
    ensures var a, b := Module("A", ""), Module("B", "");
      Kept([a], map[a := [b]], map["A" := NoModule, "B" := a], map["A" := "", "B" := ""]) == [Requirement(a, b)]
  {
    var a, b := Module("A", ""), Module("B", "");
    var reachable, ev := map["A" := NoModule, "B" := a], map["A" := "", "B" := ""];
    assert [a][..0] == [];
    assert Qualifies(a, reachable, ev);
    assert Requires(map[a := [b]], a) == [b];
    var es := Edges(a, [b]);
    assert |es| == 1 && es[0] == Requirement(a, b);
    assert es == [Requirement(a, b)];
  }

  /**
   The one-line graph `A B`: A is the main module by default, both names
   are reached at the empty version, and B is A's direct dependency.
   */
  lemma OneLineOverview()
    ensures Overview([Requirement(Module("A", ""), Module("B", ""))], [])
      == DependencyOverview(map["A" := ["B"]], ["B"], [], ["A"])
  {
    var a, b := Module("A", ""), Module("B", "");
    var recs := [Requirement(a, b)];
    OneLineRoots();
    OneLineVersions();
    OneLinePass();
    var r := Effective(recs, []);
    assert r == (map["A" := NoModule, "B" := a], map["A" := "", "B" := ""]);
    OneLineKept();
    assert [Requirement(a, b)][..0] == [];
    assert AppendNew([], "B") == ["B"];
    assert Contains(["A"], "A") && !Contains(["A"], "B");
    assert Fold([Requirement(a, b)], ["A"]) == Collapsed(map["A" := ["B"]], ["B"], []);
  }

  /**
   `generateGraph`: parse the `go mod graph` text, pick the effective
   versions and build the overview.
   */
  method GenerateGraph(text: string, mainModules: seq<string>) returns (dep: DependencyOverview)
    requires LinesOk(Lines(text))
    ensures dep == Overview(Records(Lines(text)), mainModules)
  {
    var lines := Lines(text);
    var roots, mains, lhss, vg := ScanGraph(lines, mainModules);
    var ev0 := InitialEffectiveVersions(roots, vg);
    var reached, versions := Reach(roots, vg, ev0);
    var c := Collapse(lhss, vg, reached, versions, mains);
    dep := DependencyOverview(c.graph, c.direct, c.trans, mains);
  }
}
