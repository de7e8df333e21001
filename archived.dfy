/**
 The offline part of `depstat archived` (`cmd/archived.go`): finding the
 GitHub `owner/repo` of a `github.com/...` module path, and the resolvers
 tried before the go-import lookup over the network.
 */
module Archived {
  import opened Strings

  /** `isAllDigits`: non-empty, and only the characters `0` to `9`. */
  predicate AllDigits(s: string)
  {
    |s| > 0 && forall i :: 0 <= i < |s| ==> '0' <= s[i] <= '9'
  }

  /** The loop of `isAllDigits`, which gives up at the first non-digit. */
  method IsAllDigits(s: string) returns (r: bool)
    ensures r == AllDigits(s)
  {
    for i := 0 to |s|
      invariant forall j :: 0 <= j < i ==> '0' <= s[j] <= '9'
    {
      if s[i] < '0' || s[i] > '9' {
        return false;
      }
    }
    return |s| > 0;
  }

  /** A major-version path element: `v` and then one or more digits. */
  predicate VersionSuffix(seg: string)
  {
    |seg| >= 2 && seg[0] == 'v' && forall i :: 1 <= i < |seg| ==> '0' <= seg[i] <= '9'
  }

  /** `extractGitHubRepo`: `owner/repo` from the second and third path elements, or "". */
  function ExtractGitHubRepo(modPath: string): (r: string)
    ensures |Split(modPath, "/")| < 3 ==> r == ""
    ensures r != "" ==> |Split(modPath, "/")| >= 3 && !VersionSuffix(Split(modPath, "/")[2])
  {
    var parts := Split(modPath, "/");
    if |parts| < 3 then ""
    else
      var owner, repo := parts[1], parts[2];
      VersionTest(repo);
      if |repo| > 1 && repo[0] == 'v' && AllDigits(repo[1..]) then ""
      else owner + "/" + repo
  }

  /** The source's test for a version element is the version-suffix predicate. */
  lemma VersionTest(repo: string)
    ensures (|repo| > 1 && repo[0] == 'v' && AllDigits(repo[1..])) <==> VersionSuffix(repo)
  {
    if VersionSuffix(repo) {
      forall i | 0 <= i < |repo[1..]| ensures '0' <= repo[1..][i] <= '9' {
        assert repo[1..][i] == repo[i + 1];
      }
    }
  }

  /**
   A path of fewer than three elements, or whose third element is a major
   version, has no repository; any other path gives its second and third
   elements, and splitting the result on `/` gives back exactly those two.
   */
  lemma ExtractCases(modPath: string)
    ensures var parts := Split(modPath, "/");
      && (|parts| < 3 ==> ExtractGitHubRepo(modPath) == "")
      && (|parts| >= 3 && VersionSuffix(parts[2]) ==> ExtractGitHubRepo(modPath) == "")
      && (|parts| >= 3 && !VersionSuffix(parts[2]) ==>
            && ExtractGitHubRepo(modPath) == parts[1] + "/" + parts[2]
            && Split(ExtractGitHubRepo(modPath), "/") == [parts[1], parts[2]])
  {
    var parts := Split(modPath, "/");
    if |parts| >= 3 {
      VersionTest(parts[2]);
      SplitParts(modPath, '/');
      var pair := [parts[1], parts[2]];
      SplitJoin(pair, '/');
      assert Join(pair, "/") == parts[1] + "/" + parts[2] by {
        assert pair[1..] == [parts[2]];
      }
    }
  }

  /**
   For the path `github.com/owner/repo/...` put together from elements
   free of `/`, the result is `owner/repo` unless `repo` is a major version.
   */
  lemma ExtractJoin(segs: seq<string>)
    requires |segs| >= 3 && forall k :: 0 <= k < |segs| ==> '/' !in segs[k]
    ensures ExtractGitHubRepo(Join(segs, "/")) ==
      if VersionSuffix(segs[2]) then "" else segs[1] + "/" + segs[2]
  {
    SplitJoin(segs, '/');
    ExtractCases(Join(segs, "/"));
  }

  // ---------------------------------------------------------------------------
  // Resolvers that need no network.

  const GolangXPrefix := "golang.org/x/"
  const SkipPrefix := "bitbucket.org/"

  /** The `golang.org/x/` mirror: `golang/` and the third path element, or "". */
  function GolangMirror(mod: string): (r: string)
    ensures r == "" <==> |Split(mod, "/")| < 3
    ensures r != "" ==> HasPrefix(r, "golang/")
  {
    var parts := Split(mod, "/");
    if |parts| >= 3 then "golang/" + parts[2] else ""
  }

  /** `golang.org/x/<repo>/...` built from elements free of `/` resolves to `golang/<repo>`. */
  lemma GolangMirrorJoin(segs: seq<string>)
    requires |segs| >= 3 && forall k :: 0 <= k < |segs| ==> '/' !in segs[k]
    ensures GolangMirror(Join(segs, "/")) == "golang/" + segs[2]
  {
    SplitJoin(segs, '/');
  }

  /** Fewer than three path elements resolve to nothing. */
  lemma GolangMirrorShort(mod: string)
    requires |Split(mod, "/")| < 3
    ensures GolangMirror(mod) == ""
  {
  }

  /** What the resolver decided without the network. */
  datatype Resolution = Resolved(repo: string) | NeedsLookup

  /**
   The first steps of `resolveOneVanityURL`: a known mirror answers, a
   known non-GitHub host answers "", and anything else is left to the
   go-import lookup (`NeedsLookup`).
   */
  function ResolveOffline(modPath: string): (r: Resolution)
    ensures HasPrefix(modPath, GolangXPrefix) ==> r == Resolved(GolangMirror(modPath))
    ensures !HasPrefix(modPath, GolangXPrefix) && HasPrefix(modPath, SkipPrefix) ==> r == Resolved("")
    ensures r == NeedsLookup <==> !HasPrefix(modPath, GolangXPrefix) && !HasPrefix(modPath, SkipPrefix)
  {
    if HasPrefix(modPath, GolangXPrefix) then Resolved(GolangMirror(modPath))
    else if HasPrefix(modPath, SkipPrefix) then Resolved("")
    else NeedsLookup
  }

  /**
   A `golang.org/x/` path always has a third element, so it always
   resolves, to `golang/` and that element.
   */
  lemma GolangXResolves(modPath: string)
    requires HasPrefix(modPath, GolangXPrefix)
    ensures |Split(modPath, "/")| >= 3
    ensures ResolveOffline(modPath) == Resolved("golang/" + Split(modPath, "/")[2])
  {
    var rest := modPath[|GolangXPrefix|..];
    assert modPath == "golang.org" + "/" + ("x" + "/" + rest);
    SplitConcat("golang.org", "x" + "/" + rest);
    SplitConcat("x", rest);
  }

  lemma SplitConcat(a: string, b: string)
    requires '/' !in a
    ensures Split(a + "/" + b, "/") == [a] + Split(b, "/")
  {
    var s := a + "/" + b;
    OccursAtChar(s, '/', |a|);
    forall j | 0 <= j < |a| ensures !OccursAt(s, "/", j) {
      OccursAtChar(s, '/', j);
      assert s[j] == a[j];
    }
    assert s[..|a|] == a && s[|a| + 1..] == b;
  }
}
