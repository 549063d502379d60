/** The order GetStudentIDs returns the IDs of an assignment in: Enumerable.OrderBy on the
    keys, with strings compared ordinally. */
module Lookups {
  import opened Text

  predicate Sorted(s: seq<string>) {
    forall i, j :: 0 <= i < j < |s| ==> Le(s[i], s[j])
  }

  /** x inserted into a sorted sequence before the first element it does not exceed. */
  function Insert(x: string, s: seq<string>): (r: seq<string>)
    requires Sorted(s)
    decreases |s|
    ensures Sorted(r)
    ensures multiset(r) == multiset(s) + multiset{x}
  {
    if s == [] then [x]
    else if Le(x, s[0]) then
      BelowHead(x, s);
      ConsSorted(x, s);
      [x] + s
    else
      SortedTail(s);
      var rest := Insert(x, s[1..]);
      LeTotal(x, s[0]);
      HeadBelowTail(s);
      BelowAllOf(s[0], s[1..], x, rest);
      ConsSorted(s[0], rest);
      MultisetOfTail(s);
      [s[0]] + rest
  }

  /** What is below the head of a sorted sequence is below all of it. */
  lemma BelowHead(x: string, s: seq<string>)
    requires Sorted(s) && s != [] && Le(x, s[0])
    ensures forall j :: 0 <= j < |s| ==> Le(x, s[j])
  {
    forall j | 0 <= j < |s| ensures Le(x, s[j]) {
      if j > 0 { LeTransitive(x, s[0], s[j]); }
    }
  }

  lemma HeadBelowTail(s: seq<string>)
    requires Sorted(s) && s != []
    ensures forall j :: 0 <= j < |s[1..]| ==> Le(s[0], s[1..][j])
  {
    forall j | 0 <= j < |s[1..]| ensures Le(s[0], s[1..][j]) {
      assert s[1..][j] == s[j + 1];
    }
  }

  /** A bound of every element of s and of x bounds every element of r, when r holds
      exactly the elements of s and x. */
  lemma BelowAllOf(y: string, s: seq<string>, x: string, r: seq<string>)
    requires forall j :: 0 <= j < |s| ==> Le(y, s[j])
    requires Le(y, x) && multiset(r) == multiset(s) + multiset{x}
    ensures forall j :: 0 <= j < |r| ==> Le(y, r[j])
  {
    forall j | 0 <= j < |r| ensures Le(y, r[j]) {
      assert r[j] in multiset(r);
      if r[j] != x {
        assert r[j] in multiset(s);
        var k :| 0 <= k < |s| && s[k] == r[j];
      }
    }
  }

  lemma ConsSorted(y: string, s: seq<string>)
    requires Sorted(s) && forall j :: 0 <= j < |s| ==> Le(y, s[j])
    ensures Sorted([y] + s)
  {
    var r := [y] + s;
    forall i, k | 0 <= i < k < |r| ensures Le(r[i], r[k]) {
      if i == 0 { assert r[k] == s[k - 1]; } else { assert r[i] == s[i - 1] && r[k] == s[k - 1]; }
    }
  }

  /** Insertion sort. */
  function Sort(s: seq<string>): (r: seq<string>)
    decreases |s|
    ensures Sorted(r)
    ensures multiset(r) == multiset(s)
  {
    if s == [] then []
    else
      assert s == [s[0]] + s[1..];
      Insert(s[0], Sort(s[1..]))
  }

  /** There is one sorted arrangement of a multiset of strings: the order is total, so the
      IDs come out the same whatever order the dictionary holds them in. */
  lemma {:induction false} SortedArrangementIsUnique(a: seq<string>, b: seq<string>)
    requires Sorted(a) && Sorted(b) && multiset(a) == multiset(b)
    ensures a == b
    decreases |a|
  {
    if a != [] {
      assert a[0] in multiset(b);
      HeadIsLeast(b, a[0]);
      HeadIsLeast(a, b[0]);
      LeAntisymmetric(a[0], b[0]);
      SortedTail(a);
      SortedTail(b);
      MultisetOfTail(a);
      MultisetOfTail(b);
      SortedArrangementIsUnique(a[1..], b[1..]);
      SameHeadAndTail(a, b);
    } else {
      assert |b| == |multiset(b)| == 0;
    }
  }

  lemma SameHeadAndTail(a: seq<string>, b: seq<string>)
    requires a != [] && b != [] && a[0] == b[0] && a[1..] == b[1..]
    ensures a == b
  {
    assert a == [a[0]] + a[1..];
    assert b == [b[0]] + b[1..];
  }

  /** The first element of a sorted sequence is at most every element of it. */
  lemma HeadIsLeast(s: seq<string>, x: string)
    requires Sorted(s) && x in multiset(s)
    ensures Le(s[0], x)
  {
    var i :| 0 <= i < |s| && s[i] == x;
    if i == 0 { LeReflexive(x); }
  }

  lemma SortedTail(s: seq<string>)
    requires Sorted(s) && s != []
    ensures Sorted(s[1..])
  {
    forall i, k | 0 <= i < k < |s| - 1 ensures Le(s[1..][i], s[1..][k]) {
      assert Le(s[i + 1], s[k + 1]);
    }
  }

  lemma MultisetOfTail(s: seq<string>)
    requires s != []
    ensures multiset(s[1..]) == multiset(s) - multiset{s[0]}
  {
    assert s == [s[0]] + s[1..];
  }

  /** Sorting depends only on the multiset of its input. */
  lemma SortDependsOnlyOnContents(a: seq<string>, b: seq<string>)
    requires multiset(a) == multiset(b)
    ensures Sort(a) == Sort(b)
  {
    SortedArrangementIsUnique(Sort(a), Sort(b));
  }

  /** Sorting keeps the elements, so it keeps them distinct: the IDs of a dictionary come
      out with no ID twice. */
  lemma SortKeepsDistinct(s: seq<string>)
    ensures Distinct(s) ==> Distinct(Sort(s))
  {
    var r := Sort(s);
    if Distinct(s) {
      forall i, j | 0 <= i < j < |r| ensures r[i] != r[j] {
        TwoPositions(r, i, j);
        DistinctOccursOnce(s, r[i]);
      }
    }
  }

  /** A string found at two positions occurs at least twice. */
  lemma TwoPositions(s: seq<string>, i: int, j: int)
    requires 0 <= i < j < |s|
    ensures s[i] == s[j] ==> multiset(s)[s[i]] >= 2
  {
    assert s == s[..j] + s[j..];
    assert s[..j][i] == s[i];
    assert s[j..][0] == s[j];
  }

  /** In a sequence without repeats each string occurs at most once. */
  lemma {:induction false} DistinctOccursOnce(s: seq<string>, x: string)
    requires Distinct(s)
    ensures multiset(s)[x] <= 1
    decreases |s|
  {
    if s != [] {
      var n := |s| - 1;
      assert s == s[..n] + [s[n]];
      assert Distinct(s[..n]);
      DistinctOccursOnce(s[..n], x);
      if s[n] == x {
        assert x !in s[..n];
      }
    }
  }
}
