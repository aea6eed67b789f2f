/** Order-preserving selection over sequences: the model of a pandas boolean mask,
    of a SQL `WHERE` clause over a table and of a regular-expression character
    class removal. */
module Seqs {

  /** The elements of `s` that satisfy `p`, in their original order. */
  function Filter<T>(s: seq<T>, p: T -> bool): (r: seq<T>)
    ensures |r| <= |s|
    ensures forall i :: 0 <= i < |r| ==> r[i] in s && p(r[i])
    ensures forall i :: 0 <= i < |s| && p(s[i]) ==> s[i] in r
  {
    if s == [] then [] else (if p(s[0]) then [s[0]] else []) + Filter(s[1..], p)
  }

  /** Selection distributes over concatenation, so it keeps the original order. */
  lemma {:induction false} FilterAppend<T>(a: seq<T>, b: seq<T>, p: T -> bool)
    ensures Filter(a + b, p) == Filter(a, p) + Filter(b, p)
  {
    if a == [] {
      assert a + b == b;
    } else {
      assert (a + b)[1..] == a[1..] + b;
      FilterAppend(a[1..], b, p);
    }
  }

  /** Selecting twice with the same test selects nothing more. */
  lemma {:induction false} FilterIdempotent<T>(s: seq<T>, p: T -> bool)
    ensures Filter(Filter(s, p), p) == Filter(s, p)
  {
    if s != [] {
      FilterIdempotent(s[1..], p);
      var head := if p(s[0]) then [s[0]] else [];
      FilterAppend(head, Filter(s[1..], p), p);
    }
  }

  /** A sequence whose every element passes the test is selected whole. */
  lemma {:induction false} FilterKeepsAll<T>(s: seq<T>, p: T -> bool)
    requires forall i :: 0 <= i < |s| ==> p(s[i])
    ensures Filter(s, p) == s
  {
    if s != [] {
      FilterKeepsAll(s[1..], p);
    }
  }

  /** Two different positions that pass the test give at least two selected elements. */
  lemma {:induction false} TwoHits<T>(s: seq<T>, p: T -> bool, i: nat, j: nat)
    requires i < j < |s| && p(s[i]) && p(s[j])
    ensures |Filter(s, p)| >= 2
  {
    if i == 0 {
      assert s[j] in s[1..] by { assert s[1..][j - 1] == s[j]; }
      assert s[j] in Filter(s[1..], p);
    } else {
      TwoHits(s[1..], p, i - 1, j - 1);
    }
  }

  /** Three tests no two of which hold together select disjoint parts: their sizes
      add up to at most the whole, and to the whole when every element passes one. */
  lemma {:induction false} FilterThreeWay<T>(s: seq<T>, p: T -> bool, q: T -> bool, r: T -> bool)
    requires forall i :: 0 <= i < |s| ==> !(p(s[i]) && q(s[i])) && !(p(s[i]) && r(s[i])) && !(q(s[i]) && r(s[i]))
    ensures |Filter(s, p)| + |Filter(s, q)| + |Filter(s, r)| <= |s|
    ensures (forall i :: 0 <= i < |s| ==> p(s[i]) || q(s[i]) || r(s[i])) ==>
              |Filter(s, p)| + |Filter(s, q)| + |Filter(s, r)| == |s|
  {
    if s != [] {
      FilterThreeWay(s[1..], p, q, r);
    }
  }

  /** Splitting a selection by a second test: the part that also passes it and the
      part that fails it add up to the whole selection. */
  lemma {:induction false} FilterSplit<T>(s: seq<T>, p: T -> bool, both: T -> bool, only: T -> bool, q: T -> bool)
    requires forall i :: 0 <= i < |s| ==> both(s[i]) == (p(s[i]) && q(s[i])) && only(s[i]) == (p(s[i]) && !q(s[i]))
    ensures |Filter(s, both)| + |Filter(s, only)| == |Filter(s, p)|
  {
    if s != [] {
      FilterSplit(s[1..], p, both, only, q);
    }
  }

  /** Selection with a weaker test selects at least as much. */
  lemma {:induction false} FilterMonotone<T>(s: seq<T>, p: T -> bool, q: T -> bool)
    requires forall i :: 0 <= i < |s| && p(s[i]) ==> q(s[i])
    ensures |Filter(s, p)| <= |Filter(s, q)|
  {
    if s != [] {
      FilterMonotone(s[1..], p, q);
    }
  }

  /** Selection with two tests that agree on every element gives the same result. */
  lemma {:induction false} FilterCongruent<T>(s: seq<T>, p: T -> bool, q: T -> bool)
    requires forall i :: 0 <= i < |s| ==> p(s[i]) == q(s[i])
    ensures Filter(s, p) == Filter(s, q)
  {
    if s != [] {
      FilterCongruent(s[1..], p, q);
    }
  }

  /** Nothing passes, nothing is selected. */
  lemma {:induction false} FilterNone<T>(s: seq<T>, p: T -> bool)
    requires forall i :: 0 <= i < |s| ==> !p(s[i])
    ensures Filter(s, p) == []
  {
    if s != [] {
      FilterNone(s[1..], p);
    }
  }

  /** When exactly one element passes, the selection is that element alone. */
  lemma {:induction false} FilterOnly<T>(s: seq<T>, p: T -> bool, k: nat)
    requires k < |s| && p(s[k])
    requires forall j :: 0 <= j < |s| && j != k ==> !p(s[j])
    ensures Filter(s, p) == [s[k]]
  {
    if k == 0 {
      FilterNone(s[1..], p);
    } else {
      FilterOnly(s[1..], p, k - 1);
    }
  }

  /** Selection keeps every copy of an element that passes and drops every copy of
      one that fails. */
  lemma {:induction false} FilterCount<T>(s: seq<T>, p: T -> bool, x: T)
    ensures multiset(Filter(s, p))[x] == if p(x) then multiset(s)[x] else 0
  {
    if s != [] {
      FilterCount(s[1..], p, x);
      assert s == [s[0]] + s[1..];
    }
  }

  /** Selecting from two permutations of each other gives permutations of each other. */
  lemma FilterPermutation<T>(a: seq<T>, b: seq<T>, p: T -> bool)
    requires multiset(a) == multiset(b)
    ensures multiset(Filter(a, p)) == multiset(Filter(b, p))
  {
    forall x ensures multiset(Filter(a, p))[x] == multiset(Filter(b, p))[x] {
      FilterCount(a, p, x);
      FilterCount(b, p, x);
    }
  }

  /** The position of the first element that passes the test (Python's `[0]` of a
      filtered list, SQL's `.first()`). */
  function FirstIndex<T>(s: seq<T>, p: T -> bool): (i: nat)
    requires exists k :: 0 <= k < |s| && p(s[k])
    ensures i < |s| && p(s[i])
    ensures forall j :: 0 <= j < i ==> !p(s[j])
  {
    if p(s[0]) then 0
    else
      assert exists k :: 0 <= k < |s[1..]| && p(s[1..][k]) by {
        var k :| 0 <= k < |s| && p(s[k]);
        assert s[1..][k - 1] == s[k];
      }
      1 + FirstIndex(s[1..], p)
  }

  /** The first selected element is the element at the first passing position. */
  lemma {:induction false} FilterHead<T>(s: seq<T>, p: T -> bool)
    requires exists k :: 0 <= k < |s| && p(s[k])
    ensures Filter(s, p) != [] && Filter(s, p)[0] == s[FirstIndex(s, p)]
  {
    if !p(s[0]) {
      var k :| 0 <= k < |s| && p(s[k]);
      assert s[1..][k - 1] == s[k];
      FilterHead(s[1..], p);
    }
  }

  /** Elements of `s` in the order given by a relation: every earlier element is
      related to every later one. */
  ghost predicate OrderedBy<T>(s: seq<T>, before: (T, T) -> bool)
  {
    forall i, j :: 0 <= i < j < |s| ==> before(s[i], s[j])
  }

  /** Selection keeps an ordered sequence ordered. */
  lemma {:induction false} FilterKeepsOrder<T>(s: seq<T>, p: T -> bool, before: (T, T) -> bool)
    requires OrderedBy(s, before)
    ensures OrderedBy(Filter(s, p), before)
  {
    if s != [] {
      var tail := s[1..];
      assert OrderedBy(tail, before) by {
        forall i, j | 0 <= i < j < |tail| ensures before(tail[i], tail[j]) {
          assert tail[i] == s[i + 1] && tail[j] == s[j + 1];
        }
      }
      FilterKeepsOrder(tail, p, before);
      var r := Filter(s, p);
      if p(s[0]) {
        forall i, j | 0 <= i < j < |r| ensures before(r[i], r[j]) {
          if i == 0 {
            assert r[j] in Filter(tail, p) by { assert r[j] == Filter(tail, p)[j - 1]; }
            var k :| 0 <= k < |tail| && tail[k] == r[j];
            assert s[k + 1] == r[j];
          }
        }
      }
    }
  }
}
