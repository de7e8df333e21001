/**
 Go string primitives used by the model: the ordering of Go's `<` on
 strings, `strings.Split`/`strings.Join`, `strings.Fields`, the line
 splitting of `bufio.Scanner`, `strings.HasPrefix`, `strings.Index`,
 single-character `strings.ReplaceAll` and `strconv.Itoa`.
 Strings are sequences of Unicode code points; comparing code points is
 the same as comparing their UTF-8 encodings byte by byte.
 */
module Strings {
  import Seqs

  /** Go's `a < b` on strings: lexicographic order on characters. */
  predicate Less(a: string, b: string)
    decreases |a|
  {
    if a == [] then b != []
    else b != [] && (a[0] < b[0] || (a[0] == b[0] && Less(a[1..], b[1..])))
  }

  predicate LessEq(a: string, b: string)
  {
    a == b || Less(a, b)
  }

  lemma {:induction false} LessIrreflexive(a: string)
    ensures !Less(a, a)
    decreases |a|
  {
    if a != [] { LessIrreflexive(a[1..]); }
  }

  lemma {:induction false} LessTransitive(a: string, b: string, c: string)
    requires Less(a, b) && Less(b, c)
    ensures Less(a, c)
    decreases |a|
  {
    if a != [] && a[0] == b[0] && b[0] == c[0] {
      LessTransitive(a[1..], b[1..], c[1..]);
    }
  }

  /** Go's string `<` is a strict order, as `sort.Strings` needs. */
  lemma LessIsStrict()
    ensures Seqs.StrictOrder(Less)
  {
    forall a ensures !Less(a, a) {
      LessIrreflexive(a);
    }
    forall a, b, c | Less(a, b) && Less(b, c) ensures Less(a, c) {
      LessTransitive(a, b, c);
    }
  }

  lemma {:induction false} LessTrichotomy(a: string, b: string)
    ensures a == b || Less(a, b) || Less(b, a)
    decreases |a|
  {
    if a != [] && b != [] && a[0] == b[0] {
      LessTrichotomy(a[1..], b[1..]);
      if a[1..] == b[1..] {
        assert a == [a[0]] + a[1..] && b == [b[0]] + b[1..];
      }
    }
  }

  lemma {:induction false} LessAsymmetric(a: string, b: string)
    requires Less(a, b)
    ensures !Less(b, a)
  {
    if Less(b, a) {
      LessTransitive(a, b, a);
      LessIrreflexive(a);
    }
  }

  /** A proper prefix is smaller. */
  lemma {:induction false} PrefixLess(a: string, b: string)
    requires |a| < |b| && b[..|a|] == a
    ensures Less(a, b)
    decreases |a|
  {
    if a != [] {
      assert b[1..][..|a| - 1] == a[1..];
      PrefixLess(a[1..], b[1..]);
    }
  }

  lemma {:induction false} LessEqTotal(a: string, b: string)
    ensures LessEq(a, b) || LessEq(b, a)
  {
    LessTrichotomy(a, b);
  }

  lemma LessEqTransitive(a: string, b: string, c: string)
    requires LessEq(a, b) && LessEq(b, c)
    ensures LessEq(a, c)
  {
    if a != b && b != c { LessTransitive(a, b, c); }
  }

  /** Not smaller means at least as large. */
  lemma NotLess(a: string, b: string)
    requires !Less(a, b)
    ensures LessEq(b, a)
  {
    LessTrichotomy(a, b);
  }

  /** The larger of two versions under Go's string order. */
  function Max(a: string, b: string): (r: string)
    ensures r == a || r == b
    ensures LessEq(a, r) && LessEq(b, r)
  {
    LessTrichotomy(a, b);
    if Less(a, b) then b else a
  }

  /** `strings.HasPrefix(s, p)`. */
  predicate HasPrefix(s: string, p: string)
  {
    |p| <= |s| && s[..|p|] == p
  }

  predicate OccursAt(s: string, sub: string, i: int)
  {
    0 <= i && i + |sub| <= |s| && s[i..i + |sub|] == sub
  }

  /** `strings.Index(s, sub)` searching from position `from`. */
  function IndexFrom(s: string, sub: string, from: nat): (r: int)
    requires from <= |s|
    ensures r == -1 || (from <= r && OccursAt(s, sub, r))
    ensures forall j :: from <= j && (r == -1 || j < r) ==> !OccursAt(s, sub, j)
    decreases |s| - from
  {
    if OccursAt(s, sub, from) then from
    else if from + |sub| >= |s| then
      assert forall j :: from < j ==> !OccursAt(s, sub, j);
      -1
    else IndexFrom(s, sub, from + 1)
  }

  /** `strings.Index(s, sub)`: the first occurrence of `sub`, or -1. */
  function Index(s: string, sub: string): (r: int)
    ensures r == -1 || OccursAt(s, sub, r)
    ensures forall j :: 0 <= j && (r == -1 || j < r) ==> !OccursAt(s, sub, j)
  {
    IndexFrom(s, sub, 0)
  }

  /** `strings.Split(s, sep)` for a non-empty separator. */
  function Split(s: string, sep: string): (r: seq<string>)
    requires |sep| > 0
    ensures |r| >= 1
    ensures Index(s, sep) == -1 ==> r == [s]
    decreases |s|
  {
    var i := Index(s, sep);
    if i < 0 then [s] else [s[..i]] + Split(s[i + |sep|..], sep)
  }

  /** `strings.Join(parts, sep)`. */
  function Join(parts: seq<string>, sep: string): string
  {
    if |parts| == 0 then ""
    else if |parts| == 1 then parts[0]
    else parts[0] + sep + Join(parts[1..], sep)
  }

  lemma JoinCons(x: string, r: seq<string>, sep: string)
    requires |r| >= 1
    ensures Join([x] + r, sep) == x + sep + Join(r, sep)
  {
    assert ([x] + r)[1..] == r;
  }

  /** Joining what `Split` produced gives back the input. */
  lemma {:induction false} JoinSplit(s: string, sep: string)
    requires |sep| > 0
    ensures Join(Split(s, sep), sep) == s
    decreases |s|
  {
    var i := Index(s, sep);
    if i >= 0 {
      var rest := s[i + |sep|..];
      var r := Split(rest, sep);
      calc {
        Join(Split(s, sep), sep);
        Join([s[..i]] + r, sep);
        { JoinCons(s[..i], r, sep); }
        s[..i] + sep + Join(r, sep);
        { JoinSplit(rest, sep); }
        s[..i] + sep + rest;
        { assert s[i..i + |sep|] == sep; }
        s[..i] + s[i..i + |sep|] + s[i + |sep|..];
        { assert s == s[..i] + s[i..i + |sep|] + s[i + |sep|..]; }
        s;
      }
    }
  }

  /** Splitting on a one-character separator inverts joining parts free of it. */
  lemma {:induction false} SplitJoin(parts: seq<string>, c: char)
    requires |parts| >= 1
    requires forall k :: 0 <= k < |parts| ==> c !in parts[k]
    ensures Split(Join(parts, [c]), [c]) == parts
    decreases |parts|
  {
    var s := Join(parts, [c]);
    if |parts| == 1 {
      NoCharNoIndex(parts[0], c);
    } else {
      var p := parts[0];
      var rest := Join(parts[1..], [c]);
      assert s == p + [c] + rest;
      OccursAtChar(s, c, |p|);
      forall j | 0 <= j < |p| ensures !OccursAt(s, [c], j) {
        OccursAtChar(s, c, j);
        assert s[j] == p[j];
      }
      assert Index(s, [c]) == |p|;
      assert s[|p| + 1..] == rest;
      SplitJoin(parts[1..], c);
      assert s[..|p|] == p;
      assert Split(s, [c]) == [p] + Split(rest, [c]);
      assert parts == [p] + parts[1..];
    }
  }

  /** No part of a split on one character contains that character. */
  lemma {:induction false} SplitParts(s: string, c: char)
    ensures forall k :: 0 <= k < |Split(s, [c])| ==> c !in Split(s, [c])[k]
    decreases |s|
  {
    var i := Index(s, [c]);
    if i < 0 {
      NotInIfNoIndex(s, c);
    } else {
      NoCharBeforeIndex(s, c, i);
      SplitParts(s[i + 1..], c);
    }
  }

  lemma OccursAtChar(s: string, c: char, i: int)
    ensures OccursAt(s, [c], i) <==> 0 <= i < |s| && s[i] == c
  {
    if 0 <= i < |s| {
      assert s[i..i + 1] == [s[i]];
    }
  }

  lemma NoCharNoIndex(s: string, c: char)
    requires c !in s
    ensures Index(s, [c]) == -1
  {
    OccursAtChar(s, c, Index(s, [c]));
  }

  /**
   `unicode.IsSpace`: the Latin-1 spaces and, above Latin-1, the
   characters with Unicode's White_Space property.
   */
  predicate IsSpace(c: char)
  {
    c == '\t' || c == '\n' || c == '\U{000B}' || c == '\U{000C}' || c == '\r' || c == ' '
    || c == '\U{0085}' || c == '\U{00A0}' || c == '\U{1680}'
    || ('\U{2000}' <= c <= '\U{200A}') || c == '\U{2028}' || c == '\U{2029}'
    || c == '\U{202F}' || c == '\U{205F}' || c == '\U{3000}'
  }

  /** The number of leading non-space characters of `s`. */
  function WordLength(s: string): (n: nat)
    ensures n <= |s|
    ensures forall k :: 0 <= k < n ==> !IsSpace(s[k])
    ensures n < |s| ==> IsSpace(s[n])
  {
    if s == [] || IsSpace(s[0]) then 0 else 1 + WordLength(s[1..])
  }

  /** `strings.Fields(s)`: the maximal runs of non-space characters. */
  function Fields(s: string): (r: seq<string>)
    ensures forall k :: 0 <= k < |r| ==> |r[k]| > 0
    ensures forall k, j :: 0 <= k < |r| && 0 <= j < |r[k]| ==> !IsSpace(r[k][j])
    decreases |s|
  {
    if s == [] then []
    else if IsSpace(s[0]) then Fields(s[1..])
    else
      var n := WordLength(s);
      [s[..n]] + Fields(s[n..])
  }

  /** A line made of two words separated by a space has exactly those two fields. */
  lemma FieldsOfPair(a: string, b: string)
    requires |a| > 0 && |b| > 0
    requires forall k :: 0 <= k < |a| ==> !IsSpace(a[k])
    requires forall k :: 0 <= k < |b| ==> !IsSpace(b[k])
    ensures Fields(a + " " + b) == [a, b]
  {
    var t := " " + b;
    var s := a + t;
    assert s == a + " " + b;
    WordLengthPrefix(s, |a|);
    WordLengthPrefix(b, |b|);
    assert s[..|a|] == a && s[|a|..] == t;
    assert t[1..] == b;
    assert b[..|b|] == b && b[|b|..] == [];
    assert Fields(b) == [b] + Fields([]);
    assert Fields(t) == Fields(b);
    assert Fields(s) == [a] + Fields(t);
  }

  lemma {:induction false} WordLengthPrefix(s: string, n: nat)
    requires n <= |s|
    requires forall k :: 0 <= k < n ==> !IsSpace(s[k])
    requires n < |s| ==> IsSpace(s[n])
    ensures WordLength(s) == n
    decreases n
  {
    if n > 0 { WordLengthPrefix(s[1..], n - 1); }
  }

  /** The line without one trailing carriage return (`bufio.ScanLines`). */
  function DropCR(s: string): (r: string)
    ensures r == s || (s == r + "\r")
  {
    if |s| > 0 && s[|s| - 1] == '\r' then s[..|s| - 1] else s
  }

  /**
   The tokens `bufio.Scanner` yields with its default `ScanLines`
   split function: the text is cut at each newline, a carriage return
   before the newline is dropped, and a final newline does not start an
   empty line.
   */
  function Lines(s: string): (r: seq<string>)
    ensures s == [] <==> r == []
    ensures forall k :: 0 <= k < |r| ==> '\n' !in r[k]
    decreases |s|
  {
    if s == [] then []
    else
      var i := Index(s, "\n");
      if i < 0 then
        assert '\n' !in s by { NotInIfNoIndex(s, '\n'); }
        [DropCR(s)]
      else
        assert '\n' !in s[..i] by { NoCharBeforeIndex(s, '\n', i); }
        [DropCR(s[..i])] + Lines(s[i + 1..])
  }

  lemma NotInIfNoIndex(s: string, c: char)
    requires Index(s, [c]) == -1
    ensures c !in s
  {
    forall j | 0 <= j < |s| ensures s[j] != c {
      OccursAtChar(s, c, j);
    }
  }

  lemma NoCharBeforeIndex(s: string, c: char, i: int)
    requires 0 <= i <= |s| && forall j :: 0 <= j < i ==> !OccursAt(s, [c], j)
    ensures c !in s[..i]
  {
    forall j | 0 <= j < i ensures s[..i][j] != c {
      OccursAtChar(s, c, j);
    }
  }

  /** `strings.ReplaceAll(s, string(c), rep)` for a one-character pattern. */
  function ReplaceChar(s: string, c: char, rep: string): string
  {
    if s == [] then []
    else (if s[0] == c then rep else [s[0]]) + ReplaceChar(s[1..], c, rep)
  }

  /** Without `c` in it, the text is unchanged. */
  lemma {:induction false} ReplaceNone(s: string, c: char, rep: string)
    requires c !in s
    ensures ReplaceChar(s, c, rep) == s
    decreases |s|
  {
    if s != [] {
      ReplaceNone(s[1..], c, rep);
      assert s == [s[0]] + s[1..];
    }
  }

  /** A character not in `rep` is in the result only if it is in `s` and is not `c`. */
  lemma {:induction false} ReplaceAbsent(s: string, c: char, rep: string, d: char)
    requires d !in rep && (d == c || d !in s)
    ensures d !in ReplaceChar(s, c, rep)
    decreases |s|
  {
    if s != [] {
      ReplaceAbsent(s[1..], c, rep, d);
      assert d !in (if s[0] == c then rep else [s[0]]);
    }
  }

  function Digit(d: nat): (c: char)
    requires d < 10
    ensures '0' <= c <= '9'
  {
    ['0', '1', '2', '3', '4', '5', '6', '7', '8', '9'][d]
  }

  /** `strconv.Itoa(n)` for a non-negative `n`. */
  function Itoa(n: nat): (r: string)
    ensures |r| >= 1
    ensures (|r| == 1) <==> n < 10
    ensures |r| > 1 ==> r[0] != '0'
    ensures forall k :: 0 <= k < |r| ==> '0' <= r[k] <= '9'
  {
    if n < 10 then [Digit(n)] else Itoa(n / 10) + [Digit(n % 10)]
  }

  lemma {:induction false} ItoaInjective(a: nat, b: nat)
    requires Itoa(a) == Itoa(b)
    ensures a == b
    decreases a
  {
    if a >= 10 && b >= 10 {
      var ra, rb := Itoa(a), Itoa(b);
      assert ra[..|ra| - 1] == Itoa(a / 10) && rb[..|rb| - 1] == Itoa(b / 10);
      ItoaInjective(a / 10, b / 10);
      assert Digit(a % 10) == ra[|ra| - 1] == Digit(b % 10);
    }
  }
}
