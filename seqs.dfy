/**
 Sequence helpers shared by the model: duplicate-free sequences and
 first-occurrence deduplication, order-preserving filters and the sort
 that stands for Go's `sort.Strings`/`sort.Slice`.
 */
module Seqs {

  predicate NoDup<T(==)>(s: seq<T>)
  {
    forall i, j :: 0 <= i < j < |s| ==> s[i] != s[j]
  }

  /** One more element of a prefix. */
  lemma SliceSnoc<T>(s: seq<T>, j: int)
    requires 0 <= j < |s|
    ensures s[..j + 1] == s[..j] + [s[j]] && s[..j + 1][..j] == s[..j]
  {
  }

  lemma NoDupSnoc<T>(s: seq<T>, x: T)
    requires NoDup(s) && x !in s
    ensures NoDup(s + [x])
  {
  }

  /** The elements of `s` in first-occurrence order, each once. */
  function Dedup<T(==,!new)>(s: seq<T>): (r: seq<T>)
    ensures NoDup(r)
    ensures forall x :: x in r <==> x in s
    decreases |s|
  {
    if s == [] then []
    else
      var d := Dedup(s[..|s| - 1]);
      var x := s[|s| - 1];
      assert forall y :: y in s <==> y in s[..|s| - 1] || y == x;
      if x in d then d else d + [x]
  }

  /** One more element: appended when new, dropped when already present. */
  lemma DedupSnoc<T(!new)>(s: seq<T>, x: T)
    ensures Dedup(s + [x]) == if x in s then Dedup(s) else Dedup(s) + [x]
  {
    assert (s + [x])[..|s|] == s;
  }

  /** Deduplicating a longer sequence only appends to the result. */
  lemma {:induction false} DedupPrefix<T(!new)>(a: seq<T>, b: seq<T>)
    ensures Dedup(a) <= Dedup(a + b)
    decreases |b|
  {
    if b == [] {
      assert a + b == a;
    } else {
      var b' := b[..|b| - 1];
      assert (a + b)[..|a + b| - 1] == a + b';
      DedupPrefix(a, b');
    }
  }

  /** A duplicate-free sequence is its own deduplication. */
  lemma {:induction false} DedupNoDup<T(!new)>(s: seq<T>)
    requires NoDup(s)
    ensures Dedup(s) == s
    decreases |s|
  {
    if s != [] {
      var s' := s[..|s| - 1];
      DedupNoDup(s');
      assert s[|s| - 1] !in s';
      assert s' + [s[|s| - 1]] == s;
    }
  }

  /** A duplicate-free sequence has as many elements as its set. */
  lemma {:induction false} NoDupCardinality<T>(s: seq<T>)
    requires NoDup(s)
    ensures |set x | x in s| == |s|
    decreases |s|
  {
    if s != [] {
      var s' := s[1..];
      NoDupCardinality(s');
      assert (set x | x in s) == (set x | x in s') + {s[0]};
      assert s[0] !in s';
    }
  }

  /** Dedup keeps exactly one copy of each distinct element. */
  lemma DedupCardinality<T(!new)>(s: seq<T>)
    ensures |Dedup(s)| == |set x | x in s|
  {
    NoDupCardinality(Dedup(s));
    assert (set x | x in Dedup(s)) == (set x | x in s);
  }

  /** The elements of `s` that satisfy `p`, in their order, duplicates kept. */
  function Filter<T(!new)>(s: seq<T>, p: T -> bool): (r: seq<T>)
    ensures |r| <= |s|
    ensures forall x :: x in r <==> x in s && p(x)
    ensures multiset(r) <= multiset(s)
    decreases |s|
  {
    if s == [] then []
    else
      var rest := Filter(s[1..], p);
      assert s == [s[0]] + s[1..];
      if p(s[0]) then [s[0]] + rest else rest
  }

  /** Filtering keeps every copy of a kept element and none of a dropped one. */
  lemma {:induction false} FilterCount<T(!new)>(s: seq<T>, p: T -> bool, x: T)
    ensures multiset(Filter(s, p))[x] == if p(x) then multiset(s)[x] else 0
    decreases |s|
  {
    if s != [] {
      FilterCount(s[1..], p, x);
      assert s == [s[0]] + s[1..];
      assert multiset(s) == multiset{s[0]} + multiset(s[1..]);
      assert Filter(s, p) == (if p(s[0]) then [s[0]] else []) + Filter(s[1..], p);
    }
  }

  /** `r` is `s` with some elements deleted, the rest kept in order. */
  predicate Subsequence<T(==)>(r: seq<T>, s: seq<T>)
    decreases |s|
  {
    if r == [] then true
    else if s == [] then false
    else if r[0] == s[0] then Subsequence(r[1..], s[1..])
    else Subsequence(r, s[1..])
  }

  lemma {:induction false} FilterSubsequence<T(!new)>(s: seq<T>, p: T -> bool)
    ensures Subsequence(Filter(s, p), s)
    decreases |s|
  {
    if s != [] {
      FilterSubsequence(s[1..], p);
      var rest := Filter(s[1..], p);
      if !p(s[0]) {
        SubsequenceSkip(rest, s);
      } else {
        assert ([s[0]] + rest)[1..] == rest;
      }
    }
  }

  /** Anything before `u` may be skipped. */
  lemma {:induction false} SubsequencePrefix<T>(t: seq<T>, s: seq<T>, u: seq<T>)
    requires Subsequence(t, u)
    ensures Subsequence(t, s + u)
    decreases |s|
  {
    if s == [] {
      assert s + u == u;
    } else {
      SubsequencePrefix(t, s[1..], u);
      assert (s + u)[1..] == s[1..] + u;
      SubsequenceSkip(t, s + u);
    }
  }

  /** Subsequences of two sequences combine into one of their concatenation. */
  lemma {:induction false} SubsequenceAppend<T>(r: seq<T>, s: seq<T>, t: seq<T>, u: seq<T>)
    requires Subsequence(r, s) && Subsequence(t, u)
    ensures Subsequence(r + t, s + u)
    decreases |s|
  {
    if r == [] {
      SubsequencePrefix(t, s, u);
      assert r + t == t;
    } else {
      assert s != [];
      assert (s + u)[1..] == s[1..] + u;
      if r[0] == s[0] {
        SubsequenceAppend(r[1..], s[1..], t, u);
        assert (r + t)[1..] == r[1..] + t;
      } else {
        SubsequenceAppend(r, s[1..], t, u);
      }
    }
  }

  lemma {:induction false} SubsequenceSkip<T>(r: seq<T>, s: seq<T>)
    requires |s| > 0 && Subsequence(r, s[1..])
    ensures Subsequence(r, s)
    decreases |s|
  {
    if r != [] && r[0] == s[0] {
      if |s| > 1 {
        SubsequenceTail(r, s[1..]);
        assert s[1..][1..] == s[2..];
        SubsequenceSkip(r[1..], s[1..]);
      } else {
        assert false;
      }
    }
  }

  lemma {:induction false} SubsequenceTail<T>(r: seq<T>, s: seq<T>)
    requires r != [] && Subsequence(r, s)
    ensures |s| > 0 && Subsequence(r[1..], s[1..])
    decreases |s|
  {
    if r[0] != s[0] {
      SubsequenceTail(r, s[1..]);
      SubsequenceSkip(r[1..], s[1..]);
    }
  }

  /** Keeping the elements that pass and those that fail splits `s` in two. */
  lemma {:induction false} FilterPartition<T(!new)>(s: seq<T>, p: T -> bool, q: T -> bool)
    requires forall x :: q(x) <==> !p(x)
    ensures multiset(Filter(s, p)) + multiset(Filter(s, q)) == multiset(s)
    ensures |Filter(s, p)| + |Filter(s, q)| == |s|
    decreases |s|
  {
    if s != [] {
      var t := s[1..];
      FilterPartition(t, p, q);
      assert s == [s[0]] + t;
    }
  }

  /** The first `n` elements, or all of them when there are fewer. */
  function Take<T>(s: seq<T>, n: nat): (r: seq<T>)
    ensures |r| == if n < |s| then n else |s|
    ensures r <= s
  {
    if n < |s| then s[..n] else s
  }

  /** `lt` is a strict order: irreflexive and transitive. */
  ghost predicate StrictOrder<T(!new)>(lt: (T, T) -> bool)
  {
    && (forall a :: !lt(a, a))
    && (forall a, b, c :: lt(a, b) && lt(b, c) ==> lt(a, c))
  }

  /** No element is strictly smaller than one before it. */
  ghost predicate Sorted<T>(s: seq<T>, lt: (T, T) -> bool)
  {
    forall i, j :: 0 <= i < j < |s| ==> !lt(s[j], s[i])
  }

  /** A prefix of a sorted list is sorted. */
  lemma SortedPrefix<T>(s: seq<T>, t: seq<T>, lt: (T, T) -> bool)
    requires Sorted(s, lt) && t <= s
    ensures Sorted(t, lt)
  {
    forall i, j | 0 <= i < j < |t| ensures !lt(t[j], t[i]) {
      assert t[i] == s[i] && t[j] == s[j];
    }
  }

  /**
   Two sorted lists without repeats that hold the same elements are equal
   when the order decides between any two different elements: however a
   sort breaks ties, there are none to break.
   */
  lemma {:induction false} SortedUnique<T(!new)>(a: seq<T>, b: seq<T>, lt: (T, T) -> bool)
    requires Sorted(a, lt) && Sorted(b, lt) && NoDup(a) && NoDup(b)
    requires forall x :: x in a <==> x in b
    requires forall x, y :: x in a && y in a && x != y ==> lt(x, y) || lt(y, x)
    ensures a == b
    decreases |a|
  {
    if a != [] {
      assert a[0] in b;
      SameHead(a, b, lt);
      forall x ensures x in a[1..] <==> x in b[1..] {
        assert x in a[1..] <==> x in a && x != a[0];
        assert x in b[1..] <==> x in b && x != b[0];
      }
      SortedUnique(a[1..], b[1..], lt);
      assert a == [a[0]] + a[1..] && b == [b[0]] + b[1..];
    } else {
      HeadIsMember(b);
    }
  }

  /** The heads of two such lists are the same element: neither is below the other. */
  lemma SameHead<T(!new)>(a: seq<T>, b: seq<T>, lt: (T, T) -> bool)
    requires Sorted(a, lt) && Sorted(b, lt) && a != [] && b != []
    requires forall x :: x in a <==> x in b
    requires forall x, y :: x in a && y in a && x != y ==> lt(x, y) || lt(y, x)
    ensures a[0] == b[0]
  {
    assert b[0] in a && a[0] in b;
    var j :| 0 <= j < |a| && a[j] == b[0];
    var k :| 0 <= k < |b| && b[k] == a[0];
  }

  /** An element at a valid index is a member. */
  lemma IndexIsMember<T>(s: seq<T>, i: int)
    ensures 0 <= i < |s| ==> s[i] in s
  {
  }

  /** A non-empty list has a member, its head. */
  lemma HeadIsMember<T>(s: seq<T>)
    ensures s != [] ==> s[0] in s
  {
  }

  /** Insert `x` before the first element it is strictly smaller than. */
  function Insert<T>(x: T, s: seq<T>, lt: (T, T) -> bool): (r: seq<T>)
    ensures multiset(r) == multiset(s) + multiset{x}
    ensures |r| == |s| + 1
    decreases |s|
  {
    if s == [] || lt(x, s[0]) then [x] + s
    else
      assert s == [s[0]] + s[1..];
      [s[0]] + Insert(x, s[1..], lt)
  }

  /**
   The sort used for Go's `sort.Strings` and `sort.Slice`. Go's sort is
   not stable; this one is, which is one of the orders Go may produce.
   */
  function SortBy<T>(s: seq<T>, lt: (T, T) -> bool): (r: seq<T>)
    ensures multiset(r) == multiset(s)
    ensures |r| == |s|
    decreases |s|
  {
    if s == [] then []
    else
      assert s == s[..|s| - 1] + [s[|s| - 1]];
      Insert(s[|s| - 1], SortBy(s[..|s| - 1], lt), lt)
  }

  lemma {:induction false} InsertSorted<T(!new)>(x: T, s: seq<T>, lt: (T, T) -> bool)
    requires StrictOrder(lt) && Sorted(s, lt)
    ensures Sorted(Insert(x, s, lt), lt)
    decreases |s|
  {
    var r := Insert(x, s, lt);
    if s == [] {
    } else if lt(x, s[0]) {
      forall i, j | 0 <= i < j < |r| ensures !lt(r[j], r[i]) {
        if i == 0 {
          assert r[j] == s[j - 1];
          assert !lt(s[j - 1], s[0]) || j - 1 == 0;
        } else {
          assert r[i] == s[i - 1] && r[j] == s[j - 1];
        }
      }
    } else {
      var t := s[1..];
      InsertSorted(x, t, lt);
      var it := Insert(x, t, lt);
      assert r == [s[0]] + it;
      assert multiset(it) == multiset(t) + multiset{x};
      forall j | 1 <= j < |r| ensures !lt(r[j], s[0]) {
        assert r[j] == it[j - 1];
        assert r[j] in multiset(it);
        if r[j] != x {
          assert r[j] in multiset(t);
          var k :| 0 <= k < |t| && t[k] == r[j];
          assert s[k + 1] == r[j];
        }
      }
    }
  }

  lemma {:induction false} SortBySorted<T(!new)>(s: seq<T>, lt: (T, T) -> bool)
    requires StrictOrder(lt)
    ensures Sorted(SortBy(s, lt), lt)
    decreases |s|
  {
    if s != [] {
      SortBySorted(s[..|s| - 1], lt);
      InsertSorted(s[|s| - 1], SortBy(s[..|s| - 1], lt), lt);
    }
  }

  /** The elements of a sorted permutation are those of the input. */
  lemma SortByMembers<T>(s: seq<T>, lt: (T, T) -> bool)
    ensures forall x :: x in SortBy(s, lt) <==> x in s
  {
    var r := SortBy(s, lt);
    forall x ensures x in r <==> x in s {
      assert x in r <==> x in multiset(r);
      assert x in s <==> x in multiset(s);
    }
  }

  /** Inserting a new element into a duplicate-free sequence keeps it duplicate-free. */
  lemma {:induction false} InsertNoDup<T(!new)>(x: T, s: seq<T>, lt: (T, T) -> bool)
    requires NoDup(s) && x !in s
    ensures NoDup(Insert(x, s, lt))
    decreases |s|
  {
    var r := Insert(x, s, lt);
    if s != [] && !lt(x, s[0]) {
      InsertNoDup(x, s[1..], lt);
      var it := Insert(x, s[1..], lt);
      assert r == [s[0]] + it;
      assert s[0] !in multiset(s[1..]) + multiset{x} by {
        assert s == [s[0]] + s[1..];
      }
      assert s[0] !in it by {
        assert s[0] in it <==> s[0] in multiset(it);
      }
    }
  }

  /** Sorting a duplicate-free sequence gives a duplicate-free sequence. */
  lemma {:induction false} SortByNoDup<T(!new)>(s: seq<T>, lt: (T, T) -> bool)
    requires NoDup(s)
    ensures NoDup(SortBy(s, lt))
    decreases |s|
  {
    if s != [] {
      var init := s[..|s| - 1];
      SortByNoDup(init, lt);
      SortByMembers(init, lt);
      InsertNoDup(s[|s| - 1], SortBy(init, lt), lt);
    }
  }

  /** The sum of `f` over the elements of `s`. */
  function SumOf<T>(s: seq<T>, f: T -> int): int
    decreases |s|
  {
    if s == [] then 0 else f(s[0]) + SumOf(s[1..], f)
  }

  lemma {:induction false} SumSnoc<T>(s: seq<T>, x: T, f: T -> int)
    ensures SumOf(s + [x], f) == SumOf(s, f) + f(x)
    decreases |s|
  {
    if s != [] {
      assert (s + [x])[1..] == s[1..] + [x];
      SumSnoc(s[1..], x, f);
    }
  }

  lemma {:induction false} SumInsert<T>(x: T, s: seq<T>, lt: (T, T) -> bool, f: T -> int)
    ensures SumOf(Insert(x, s, lt), f) == f(x) + SumOf(s, f)
    decreases |s|
  {
    if s != [] && !lt(x, s[0]) {
      SumInsert(x, s[1..], lt, f);
      assert ([s[0]] + Insert(x, s[1..], lt))[1..] == Insert(x, s[1..], lt);
    } else {
      assert ([x] + s)[1..] == s;
    }
  }

  /** Sorting does not change a sum. */
  lemma {:induction false} SumSortBy<T>(s: seq<T>, lt: (T, T) -> bool, f: T -> int)
    ensures SumOf(SortBy(s, lt), f) == SumOf(s, f)
    decreases |s|
  {
    if s != [] {
      var init, x := s[..|s| - 1], s[|s| - 1];
      var sorted := SortBy(init, lt);
      assert SortBy(s, lt) == Insert(x, sorted, lt);
      SumSortBy(init, lt, f);
      SumInsert(x, sorted, lt, f);
      SumSnoc(init, x, f);
      assert init + [x] == s;
    }
  }
}
