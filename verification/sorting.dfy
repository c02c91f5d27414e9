/** Python's `sorted`: a stable sort. It is modelled as an insertion sort that
    takes the elements in list order and places each one after every element
    already placed that it is not smaller than, which is the order a stable
    sort produces.
 */
module Sorting {

  ghost predicate Total<T(!new)>(le: (T, T) -> bool) {
    forall a, b :: le(a, b) || le(b, a)
  }

  ghost predicate Transitive<T(!new)>(le: (T, T) -> bool) {
    forall a, b, c :: le(a, b) && le(b, c) ==> le(a, c)
  }

  /** Every element is `le` every later one. */
  predicate Sorted<T>(s: seq<T>, le: (T, T) -> bool) {
    forall i, j :: 0 <= i < j < |s| ==> le(s[i], s[j])
  }

  /** Places `x` after the longest suffix of `s` whose elements are all above it. */
  function InsertSorted<T>(s: seq<T>, x: T, le: (T, T) -> bool): (r: seq<T>)
    ensures |r| == |s| + 1
    ensures multiset(r) == multiset(s) + multiset{x}
  {
    if s == [] then [x]
    else if le(s[|s| - 1], x) then s + [x]
    else
      var n := |s| - 1;
      assert s == s[..n] + [s[n]];
      InsertSorted(s[..n], x, le) + [s[n]]
  }

  /** The last element after an insertion is `x` when the previous last element
      is not above it, and the previous last element otherwise. */
  lemma InsertSortedLast<T>(s: seq<T>, x: T, le: (T, T) -> bool)
    ensures InsertSorted(s, x, le)[|s|] == if s == [] || le(s[|s| - 1], x) then x else s[|s| - 1]
  {
  }

  /** `sorted(xs)` for the order `le`: a permutation of `xs` (and, for a total
      transitive `le`, sorted: see `SortIsSorted`). */
  function Sort<T>(xs: seq<T>, le: (T, T) -> bool): (r: seq<T>)
    ensures |r| == |xs|
    ensures multiset(r) == multiset(xs)
  {
    if xs == [] then []
    else
      var n := |xs| - 1;
      assert xs == xs[..n] + [xs[n]];
      InsertSorted(Sort(xs[..n], le), xs[n], le)
  }

  lemma {:induction false} InsertSortedIsSorted<T(!new)>(s: seq<T>, x: T, le: (T, T) -> bool)
    requires Total(le) && Transitive(le)
    requires Sorted(s, le)
    ensures Sorted(InsertSorted(s, x, le), le)
  {
    if s != [] {
      var n := |s| - 1;
      if le(s[n], x) {
        var r := s + [x];
        forall i, j | 0 <= i < j < |r| ensures le(r[i], r[j]) {
          if j == n + 1 && i < n {
            assert le(s[i], s[n]);
          }
        }
      } else {
        assert le(x, s[n]);
        InsertSortedIsSorted(s[..n], x, le);
        var front := InsertSorted(s[..n], x, le);
        var r := front + [s[n]];
        forall i, j | 0 <= i < j < |r| ensures le(r[i], r[j]) {
          if j == n + 1 {
            assert r[i] in multiset(s[..n]) + multiset{x} by {
              assert r[i] in multiset(front);
            }
            if r[i] != x {
              assert r[i] in s[..n];
              var k :| 0 <= k < n && s[k] == r[i];
              assert le(s[k], s[n]);
            }
          } else {
            assert r[i] == front[i] && r[j] == front[j];
          }
        }
      }
    }
  }

  /** With a total, transitive order the result of `Sort` is sorted. */
  lemma {:induction false} SortIsSorted<T(!new)>(xs: seq<T>, le: (T, T) -> bool)
    requires Total(le) && Transitive(le)
    ensures Sorted(Sort(xs, le), le)
  {
    if xs != [] {
      var n := |xs| - 1;
      SortIsSorted(xs[..n], le);
      InsertSortedIsSorted(Sort(xs[..n], le), xs[n], le);
    }
  }

  /** No two positions hold elements that are equivalent under `le`. */
  predicate NoTies<T>(s: seq<T>, le: (T, T) -> bool) {
    forall i, j :: 0 <= i < |s| && 0 <= j < |s| && i != j ==> !(le(s[i], s[j]) && le(s[j], s[i]))
  }

  lemma TailSorted<T>(a: seq<T>, le: (T, T) -> bool)
    requires a != [] && Sorted(a, le)
    ensures Sorted(a[1..], le)
  {
    forall p, q | 0 <= p < q < |a| - 1 ensures le(a[1..][p], a[1..][q]) {
      assert a[1..][p] == a[p + 1] && a[1..][q] == a[q + 1];
    }
  }

  lemma TailNoTies<T>(a: seq<T>, le: (T, T) -> bool)
    requires a != [] && NoTies(a, le)
    ensures NoTies(a[1..], le)
  {
    forall p, q | 0 <= p < |a| - 1 && 0 <= q < |a| - 1 && p != q
      ensures !(le(a[1..][p], a[1..][q]) && le(a[1..][q], a[1..][p]))
    {
      assert a[1..][p] == a[p + 1] && a[1..][q] == a[q + 1];
    }
  }

  lemma TailMultiset<T>(a: seq<T>)
    requires a != []
    ensures multiset(a[1..]) == multiset(a) - multiset{a[0]}
  {
    assert a == [a[0]] + a[1..];
  }

  /** The first elements of two sorted arrangements of the same tie-free elements agree. */
  lemma SortedHeads<T>(a: seq<T>, b: seq<T>, le: (T, T) -> bool)
    requires a != [] && b != []
    requires Sorted(a, le) && Sorted(b, le)
    requires multiset(a) == multiset(b)
    requires NoTies(a, le)
    ensures a[0] == b[0]
  {
    assert a[0] in multiset(b) && b[0] in multiset(a) by {
      assert a[0] in multiset(a);
      assert b[0] in multiset(b);
    }
    var i :| 0 <= i < |b| && b[i] == a[0];
    var j :| 0 <= j < |a| && a[j] == b[0];
  }

  /** Two sorted arrangements of the same elements coincide when no two
      elements tie, so the sorted order does not depend on the input order. */
  lemma {:induction false} SortedUnique<T>(a: seq<T>, b: seq<T>, le: (T, T) -> bool)
    requires Sorted(a, le) && Sorted(b, le)
    requires multiset(a) == multiset(b)
    requires NoTies(a, le)
    ensures a == b
  {
    assert |a| == |multiset(a)| == |multiset(b)| == |b|;
    if a != [] {
      assert b != [];
      SortedHeads(a, b, le);
      TailMultiset(a);
      TailMultiset(b);
      TailSorted(a, le);
      TailNoTies(a, le);
      TailSorted(b, le);
      SortedUnique(a[1..], b[1..], le);
      assert a == [a[0]] + a[1..];
      assert b == [b[0]] + b[1..];
    }
  }
}
