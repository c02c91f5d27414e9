/** The idiom `dict((j, i) for i, j in enumerate(sorted(set(values))))`:
    the distinct values of a field, in ascending order, numbered 0, 1, 2, ...
    `SortedDistinct` is `sorted(set(values))`; `IndexMap` is the dictionary.
 */
module SortedIndex {

  /** Every element is smaller than every later one (so there are no repeats). */
  predicate StrictlyIncreasing(u: seq<int>) {
    forall i, j :: 0 <= i < j < |u| ==> u[i] < u[j]
  }

  /** The values of `m` are exactly 0 .. |m|-1, each taken once, in the order of the keys. */
  predicate DenseOrdered(m: map<int, nat>) {
    && (forall k :: k in m ==> m[k] < |m|)
    && (forall i :: 0 <= i < |m| ==> i in m.Values)
    && (forall a, b :: a in m && b in m && a < b ==> m[a] < m[b])
  }

  /** Adds `x` to a strictly increasing sequence, keeping it strictly increasing. */
  function Insert(u: seq<int>, x: int): (r: seq<int>)
    requires StrictlyIncreasing(u)
    ensures StrictlyIncreasing(r)
    ensures forall y :: y in r <==> y in u || y == x
  {
    if u == [] then [x]
    else if x < u[0] then [x] + u
    else if x == u[0] then u
    else
      var rest := Insert(u[1..], x);
      assert forall k :: 0 <= k < |rest| ==> u[0] < rest[k] by {
        forall k | 0 <= k < |rest| ensures u[0] < rest[k] {
          assert rest[k] in rest;
          if rest[k] in u[1..] {
            var l :| 0 <= l < |u[1..]| && u[1..][l] == rest[k];
            assert u[l + 1] == rest[k];
          }
        }
      }
      [u[0]] + rest
  }

  /** `sorted(set(xs))`: the distinct elements of `xs`, ascending. */
  function SortedDistinct(xs: seq<int>): (u: seq<int>)
    ensures StrictlyIncreasing(u)
    ensures forall y :: y in u <==> y in xs
  {
    if xs == [] then []
    else
      var n := |xs| - 1;
      assert xs == xs[..n] + [xs[n]];
      Insert(SortedDistinct(xs[..n]), xs[n])
  }

  /** A strictly increasing sequence is determined by its set of elements. */
  lemma {:induction false} StrictlyIncreasingUnique(a: seq<int>, b: seq<int>)
    requires StrictlyIncreasing(a) && StrictlyIncreasing(b)
    requires forall y :: y in a <==> y in b
    ensures a == b
  {
    if a != [] { assert a[0] in a; }
    if b != [] { assert b[0] in b; }
    if a != [] && b != [] {
      assert a[0] in a && b[0] in b;
      var i :| 0 <= i < |b| && b[i] == a[0];
      var j :| 0 <= j < |a| && a[j] == b[0];
      assert a[0] == b[0];
      forall y ensures y in a[1..] <==> y in b[1..] {
        if y in a[1..] {
          var k :| 0 <= k < |a[1..]| && a[1..][k] == y;
          assert a[k + 1] == y;
          assert y in b;
          var l :| 0 <= l < |b| && b[l] == y;
          assert l != 0;
          assert b[1..][l - 1] == y;
        }
        if y in b[1..] {
          var k :| 0 <= k < |b[1..]| && b[1..][k] == y;
          assert b[k + 1] == y;
          assert y in a;
          var l :| 0 <= l < |a| && a[l] == y;
          assert l != 0;
          assert a[1..][l - 1] == y;
        }
      }
      StrictlyIncreasingUnique(a[1..], b[1..]);
      assert a == [a[0]] + a[1..];
      assert b == [b[0]] + b[1..];
    }
  }

  /** A strictly increasing sequence has as many distinct elements as positions. */
  lemma {:induction false} DistinctCardinality(u: seq<int>)
    requires StrictlyIncreasing(u)
    ensures |set x | x in u| == |u|
  {
    if u != [] {
      DistinctCardinality(u[1..]);
      var tail := set x | x in u[1..];
      assert u[0] !in tail;
      assert (set x | x in u) == {u[0]} + tail;
    }
  }

  /** The dictionary from each distinct value of `xs` to its position in
      ascending order: the keys are exactly the values, and the numbering is
      dense, starts at 0 and follows the order of the keys. */
  function IndexMap(xs: seq<int>): (m: map<int, nat>)
    ensures m.Keys == set x | x in xs
    ensures |m| == |SortedDistinct(xs)|
    ensures DenseOrdered(m)
    ensures forall a, b :: a in m && b in m && m[a] == m[b] ==> a == b
  {
    var u := SortedDistinct(xs);
    var m := Enumerate(u);
    EnumerateDenseOrdered(u);
    m
  }

  /** `dict((j, i) for i, j in enumerate(u))` for a sequence without repeats. */
  function Enumerate(u: seq<int>): (r: map<int, nat>)
    requires StrictlyIncreasing(u)
    ensures forall k :: k in r <==> k in u
    ensures forall k :: k in r ==> r[k] < |u| && u[r[k]] == k
  {
    map i | 0 <= i < |u| :: u[i] := i
  }

  lemma EnumerateDenseOrdered(u: seq<int>)
    requires StrictlyIncreasing(u)
    ensures Enumerate(u).Keys == set x | x in u
    ensures |Enumerate(u)| == |u|
    ensures DenseOrdered(Enumerate(u))
  {
    var m := Enumerate(u);
    forall i | 0 <= i < |u| ensures u[i] in m && m[u[i]] == i {
    }
    forall k | k in m ensures exists i :: 0 <= i < |u| && u[i] == k && m[k] == i {
    }
    assert m.Keys == set x | x in u;
    DistinctCardinality(u);
    assert |m| == |m.Keys|;
    forall i | 0 <= i < |m| ensures i in m.Values {
      assert u[i] in m && m[u[i]] == i;
    }
  }

  /** The dictionary depends on `xs` only through its set of values:
      reordering or repeating values leaves it unchanged. */
  lemma {:induction false} IndexMapDependsOnValueSet(xs: seq<int>, ys: seq<int>)
    requires forall y :: y in xs <==> y in ys
    ensures IndexMap(xs) == IndexMap(ys)
  {
    StrictlyIncreasingUnique(SortedDistinct(xs), SortedDistinct(ys));
  }
}
