/** The particle side of the filament clustering tool: the records read from a
    STAR file, the class and filament numbering, and the filament-by-class
    occurrence matrix filled one particle at a time.
 */
module Clusters {
  import opened SortedIndex

  /** One particle record: its helical tube (the filament key) and its 2D class. */
  datatype Particle = Particle(tube: int, cls: int)

  /** The `(rlnHelicalTubeID, rlnClassNumber)` pairs yielded by iterating over the
      records: one pair per record, in record order. */
  function Items(ps: seq<Particle>): (r: seq<(int, int)>)
    ensures |r| == |ps|
    ensures forall k :: 0 <= k < |ps| ==> r[k] == (ps[k].tube, ps[k].cls)
  {
    if ps == [] then [] else [(ps[0].tube, ps[0].cls)] + Items(ps[1..])
  }

  function ClassNumbers(ps: seq<Particle>): (r: seq<int>)
    ensures |r| == |ps| && forall k :: 0 <= k < |ps| ==> r[k] == ps[k].cls
  {
    if ps == [] then [] else [ps[0].cls] + ClassNumbers(ps[1..])
  }

  function TubeNumbers(ps: seq<Particle>): (r: seq<int>)
    ensures |r| == |ps| && forall k :: 0 <= k < |ps| ==> r[k] == ps[k].tube
  {
    if ps == [] then [] else [ps[0].tube] + TubeNumbers(ps[1..])
  }

  lemma ClassNumbersValues(ps: seq<Particle>)
    ensures (set x | x in ClassNumbers(ps)) == set p | p in ps :: p.cls
  {
    var r := ClassNumbers(ps);
    forall x | x in r ensures x in set p | p in ps :: p.cls {
      var k :| 0 <= k < |r| && r[k] == x;
      assert ps[k] in ps;
    }
    forall p | p in ps ensures p.cls in r {
      var k :| 0 <= k < |ps| && ps[k] == p;
      assert r[k] == p.cls;
    }
  }

  lemma TubeNumbersValues(ps: seq<Particle>)
    ensures (set x | x in TubeNumbers(ps)) == set p | p in ps :: p.tube
  {
    var r := TubeNumbers(ps);
    forall x | x in r ensures x in set p | p in ps :: p.tube {
      var k :| 0 <= k < |r| && r[k] == x;
      assert ps[k] in ps;
    }
    forall p | p in ps ensures p.tube in r {
      var k :| 0 <= k < |ps| && ps[k] == p;
      assert r[k] == p.tube;
    }
  }

  /** The class dictionary: every class number that occurs, numbered densely in ascending order. */
  function ClassIds(ps: seq<Particle>): (m: map<int, nat>)
    ensures m.Keys == set p | p in ps :: p.cls
    ensures DenseOrdered(m)
    ensures forall a, b :: a in m && b in m && m[a] == m[b] ==> a == b
  {
    ClassNumbersValues(ps);
    IndexMap(ClassNumbers(ps))
  }

  /** The filament dictionary: every tube ID that occurs, numbered densely in
      ascending order. The tube ID alone is the key. */
  function FilamentIds(ps: seq<Particle>): (m: map<int, nat>)
    ensures m.Keys == set p | p in ps :: p.tube
    ensures DenseOrdered(m)
    ensures forall a, b :: a in m && b in m && m[a] == m[b] ==> a == b
  {
    TubeNumbersValues(ps);
    IndexMap(TubeNumbers(ps))
  }

  /** Both dictionaries depend on the records only through the set of class
      numbers and the set of tube IDs respectively. */
  lemma {:induction false} IdsDependOnlyOnValueSets(ps: seq<Particle>, qs: seq<Particle>)
    ensures (set p | p in ps :: p.cls) == (set q | q in qs :: q.cls) ==> ClassIds(ps) == ClassIds(qs)
    ensures (set p | p in ps :: p.tube) == (set q | q in qs :: q.tube) ==> FilamentIds(ps) == FilamentIds(qs)
  {
    ClassNumbersValues(ps);
    ClassNumbersValues(qs);
    TubeNumbersValues(ps);
    TubeNumbersValues(qs);
    if (set p | p in ps :: p.cls) == (set q | q in qs :: q.cls) {
      SameElements(ClassNumbers(ps), ClassNumbers(qs));
      IndexMapDependsOnValueSet(ClassNumbers(ps), ClassNumbers(qs));
    }
    if (set p | p in ps :: p.tube) == (set q | q in qs :: q.tube) {
      SameElements(TubeNumbers(ps), TubeNumbers(qs));
      IndexMapDependsOnValueSet(TubeNumbers(ps), TubeNumbers(qs));
    }
  }

  lemma SameElements(xs: seq<int>, ys: seq<int>)
    requires (set x | x in xs) == (set y | y in ys)
    ensures forall y :: y in xs <==> y in ys
  {
    var a, b := set x | x in xs, set y | y in ys;
    forall y ensures y in xs <==> y in ys {
      assert y in xs <==> y in a;
      assert y in ys <==> y in b;
    }
  }

  /** Reordering the records leaves both dictionaries unchanged. */
  lemma IdsIgnoreRecordOrder(ps: seq<Particle>, qs: seq<Particle>)
    requires multiset(ps) == multiset(qs)
    ensures ClassIds(ps) == ClassIds(qs)
    ensures FilamentIds(ps) == FilamentIds(qs)
  {
    assert forall p :: p in ps <==> p in qs by {
      forall p ensures p in ps <==> p in qs {
        assert p in ps <==> p in multiset(ps);
        assert p in qs <==> p in multiset(qs);
      }
    }
    IdsDependOnlyOnValueSets(ps, qs);
  }

  /** Repeating a record leaves both dictionaries unchanged. */
  lemma IdsIgnoreDuplicates(ps: seq<Particle>, k: nat)
    requires k < |ps|
    ensures ClassIds(ps + [ps[k]]) == ClassIds(ps)
    ensures FilamentIds(ps + [ps[k]]) == FilamentIds(ps)
  {
    assert forall p :: p in ps + [ps[k]] <==> p in ps;
    IdsDependOnlyOnValueSets(ps + [ps[k]], ps);
  }

  /** Every lookup made while counting is defined and lands inside the
      `len(filament_ids) x len(class_ids)` matrix. */
  lemma LookupsInBounds(ps: seq<Particle>, k: nat)
    requires k < |ps|
    ensures ps[k].tube in FilamentIds(ps) && FilamentIds(ps)[ps[k].tube] < |FilamentIds(ps)|
    ensures ps[k].cls in ClassIds(ps) && ClassIds(ps)[ps[k].cls] < |ClassIds(ps)|
  {
    assert ps[k] in ps;
  }

  // ---------------------------------------------------------------------------
  // Counting

  /** Record `p` is counted in cell `(i, j)`: its tube maps to row `i` and its class to column `j`. */
  predicate InCell(p: Particle, fids: map<int, nat>, cids: map<int, nat>, i: nat, j: nat) {
    p.tube in fids && fids[p.tube] == i && p.cls in cids && cids[p.cls] == j
  }

  /** Record `p` is counted in row `i`. */
  predicate InRow(p: Particle, fids: map<int, nat>, i: nat) {
    p.tube in fids && fids[p.tube] == i
  }

  /** The number of records of `qs` counted in cell `(i, j)`. */
  function CellCount(qs: seq<Particle>, fids: map<int, nat>, cids: map<int, nat>, i: nat, j: nat): nat {
    if qs == [] then 0
    else
      CellCount(qs[..|qs| - 1], fids, cids, i, j)
      + (if InCell(qs[|qs| - 1], fids, cids, i, j) then 1 else 0)
  }

  /** The number of records of `qs` counted in row `i`. */
  function RowCount(qs: seq<Particle>, fids: map<int, nat>, i: nat): nat {
    if qs == [] then 0
    else RowCount(qs[..|qs| - 1], fids, i) + (if InRow(qs[|qs| - 1], fids, i) then 1 else 0)
  }

  /** The number of records of `qs` with tube ID `t`. */
  function TubeCount(qs: seq<Particle>, t: int): nat {
    if qs == [] then 0
    else TubeCount(qs[..|qs| - 1], t) + (if qs[|qs| - 1].tube == t then 1 else 0)
  }

  function Sum(s: seq<nat>): nat {
    if s == [] then 0 else Sum(s[..|s| - 1]) + s[|s| - 1]
  }

  /** The sum of all entries of a matrix. */
  function Total(m: seq<seq<nat>>): nat {
    if m == [] then 0 else Total(m[..|m| - 1]) + Sum(m[|m| - 1])
  }

  /** `np.zeros((rows, cols))`. */
  function Zeros(rows: nat, cols: nat): (m: seq<seq<nat>>)
    ensures |m| == rows && forall i :: 0 <= i < rows ==> m[i] == seq(cols, _ => 0)
  {
    seq(rows, _ => seq(cols, _ => 0))
  }

  lemma {:induction false} SumZeros(n: nat)
    ensures Sum(seq(n, _ => 0)) == 0
  {
    if n > 0 {
      assert seq(n, _ => 0)[..n - 1] == seq(n - 1, _ => 0);
      SumZeros(n - 1);
    }
  }

  lemma {:induction false} TotalZeros(rows: nat, cols: nat)
    ensures Total(Zeros(rows, cols)) == 0
  {
    if rows > 0 {
      assert Zeros(rows, cols)[..rows - 1] == Zeros(rows - 1, cols);
      TotalZeros(rows - 1, cols);
      SumZeros(cols);
    }
  }

  /** Adding one to an entry adds one to the sum. */
  lemma {:induction false} SumIncrement(s: seq<nat>, j: nat)
    requires j < |s|
    ensures Sum(s[j := s[j] + 1]) == Sum(s) + 1
  {
    var t := s[j := s[j] + 1];
    if j < |s| - 1 {
      assert t[..|t| - 1] == s[..|s| - 1][j := s[j] + 1];
      SumIncrement(s[..|s| - 1], j);
    } else {
      assert t[..|t| - 1] == s[..|s| - 1];
    }
  }

  /** Replacing row `i` changes the total by the difference of the row sums. */
  lemma {:induction false} TotalUpdate(m: seq<seq<nat>>, i: nat, row: seq<nat>)
    requires i < |m|
    ensures Total(m[i := row]) + Sum(m[i]) == Total(m) + Sum(row)
  {
    var t := m[i := row];
    if i < |m| - 1 {
      assert t[..|t| - 1] == m[..|m| - 1][i := row];
      TotalUpdate(m[..|m| - 1], i, row);
    } else {
      assert t[..|t| - 1] == m[..|m| - 1];
    }
  }

  /** The state of the counting loop after the records `qs`: one row per
      filament and one column per class, each entry the number of records of
      `qs` in its cell, each row sum the number in its row, and all entries
      together `|qs|`. */
  predicate Counted(m: seq<seq<nat>>, qs: seq<Particle>, fids: map<int, nat>, cids: map<int, nat>) {
    && |m| == |fids|
    && (forall i :: 0 <= i < |m| ==> |m[i]| == |cids|)
    && (forall i, j :: 0 <= i < |m| && 0 <= j < |m[i]| ==> m[i][j] == CellCount(qs, fids, cids, i, j))
    && (forall i :: 0 <= i < |m| ==> Sum(m[i]) == RowCount(qs, fids, i))
    && Total(m) == |qs|
  }

  lemma CountedStart(fids: map<int, nat>, cids: map<int, nat>)
    ensures Counted(Zeros(|fids|, |cids|), [], fids, cids)
  {
    TotalZeros(|fids|, |cids|);
    SumZeros(|cids|);
  }

  /** One iteration of the loop body, at record `k`, keeps the counts exact. */
  lemma CountedStep(m: seq<seq<nat>>, ps: seq<Particle>, k: nat, fids: map<int, nat>, cids: map<int, nat>, i: nat, j: nat)
    requires k < |ps|
    requires Counted(m, ps[..k], fids, cids)
    requires ps[k].tube in fids && fids[ps[k].tube] == i && i < |fids|
    requires ps[k].cls in cids && cids[ps[k].cls] == j && j < |cids|
    ensures i < |m| && j < |m[i]|
    ensures Counted(m[i := m[i][j := m[i][j] + 1]], ps[..k + 1], fids, cids)
  {
    var p := ps[k];
    var row := m[i][j := m[i][j] + 1];
    var m' := m[i := row];
    var qs, qs' := ps[..k], ps[..k + 1];
    assert qs'[..|qs'| - 1] == qs;
    assert qs'[|qs'| - 1] == p;
    SumIncrement(m[i], j);
    TotalUpdate(m, i, row);
    forall a, b | 0 <= a < |m'| && 0 <= b < |m'[a]|
      ensures m'[a][b] == CellCount(qs', fids, cids, a, b)
    {
      assert InCell(p, fids, cids, a, b) <==> a == i && b == j;
    }
    forall a | 0 <= a < |m'| ensures Sum(m'[a]) == RowCount(qs', fids, a) {
      assert InRow(p, fids, a) <==> a == i;
    }
  }

  /** The counting loop: start from a zero matrix of `len(filament_ids)` rows and
      `len(class_ids)` columns and add one at `(filament_ids[f], class_ids[c])`
      for every `(f, c)` the records yield. Afterwards each entry is the number
      of records in its cell, each row sum is the number of records in its row,
      and all entries together count every record once. */
  method CountMatrix(ps: seq<Particle>) returns (m: seq<seq<nat>>)
    ensures Counted(m, ps, FilamentIds(ps), ClassIds(ps))
  {
    var fids := FilamentIds(ps);
    var cids := ClassIds(ps);
    AllLookupsInBounds(ps);
    m := Tally(ps, fids, cids);
  }

  lemma AllLookupsInBounds(ps: seq<Particle>)
    ensures forall k :: 0 <= k < |ps| ==> ps[k].tube in FilamentIds(ps) && FilamentIds(ps)[ps[k].tube] < |FilamentIds(ps)|
    ensures forall k :: 0 <= k < |ps| ==> ps[k].cls in ClassIds(ps) && ClassIds(ps)[ps[k].cls] < |ClassIds(ps)|
  {
    forall k | 0 <= k < |ps|
      ensures ps[k].tube in FilamentIds(ps) && FilamentIds(ps)[ps[k].tube] < |FilamentIds(ps)|
      ensures ps[k].cls in ClassIds(ps) && ClassIds(ps)[ps[k].cls] < |ClassIds(ps)|
    {
      LookupsInBounds(ps, k);
    }
  }

  /** The loop of `CountMatrix` for given dictionaries whose lookups all land
      inside the matrix. */
  method Tally(ps: seq<Particle>, fids: map<int, nat>, cids: map<int, nat>) returns (m: seq<seq<nat>>)
    requires forall k :: 0 <= k < |ps| ==> ps[k].tube in fids && fids[ps[k].tube] < |fids|
    requires forall k :: 0 <= k < |ps| ==> ps[k].cls in cids && cids[ps[k].cls] < |cids|
    ensures Counted(m, ps, fids, cids)
  {
    var items := Items(ps);
    m := Zeros(|fids|, |cids|);
    CountedStart(fids, cids);
    assert ps[..0] == [];
    for k := 0 to |items|
      invariant Counted(m, ps[..k], fids, cids)
    {
      var (f, c) := items[k];
      var i, j := fids[f], cids[c];
      CountedStep(m, ps, k, fids, cids, i, j);
      m := m[i := m[i][j := m[i][j] + 1]];
    }
    assert ps[..|items|] == ps;
  }

  /** A row's count is the number of records carrying the tube ID of that row. */
  lemma {:induction false} RowCountIsTubeCount(qs: seq<Particle>, fids: map<int, nat>, t: int)
    requires t in fids
    requires forall a, b :: a in fids && b in fids && fids[a] == fids[b] ==> a == b
    ensures RowCount(qs, fids, fids[t]) == TubeCount(qs, t)
  {
    if qs != [] {
      RowCountIsTubeCount(qs[..|qs| - 1], fids, t);
    }
  }

  /** A tube ID that occurs in the records is carried by at least one record. */
  lemma {:induction false} TubeCountPositive(qs: seq<Particle>, t: int)
    requires exists p :: p in qs && p.tube == t
    ensures TubeCount(qs, t) >= 1
  {
    var n := |qs| - 1;
    if qs[n].tube != t {
      var p :| p in qs && p.tube == t;
      assert qs == qs[..n] + [qs[n]];
      assert p in qs[..n];
      TubeCountPositive(qs[..n], t);
    }
  }

  /** Every row of the matrix counts at least one record, so the row
      normalisation `fc_matrix / fc_matrix.sum(axis=1)` never divides by zero. */
  lemma RowsNonEmpty(ps: seq<Particle>, i: nat)
    requires i < |FilamentIds(ps)|
    ensures RowCount(ps, FilamentIds(ps), i) >= 1
  {
    var fids := FilamentIds(ps);
    assert i in fids.Values;
    var t :| t in fids && fids[t] == i;
    RowCountIsTubeCount(ps, fids, t);
    TubeCountPositive(ps, t);
  }

  // ---------------------------------------------------------------------------
  // Row normalisation

  /** The sum of a row of fractions. */
  function SumR(s: seq<real>): real {
    if s == [] then 0.0 else SumR(s[..|s| - 1]) + s[|s| - 1]
  }

  /** `fc_matrix / fc_matrix.sum(axis=1, keepdims=True)`, in exact arithmetic:
      each entry divided by the sum of its row. */
  function Normalise(m: seq<seq<nat>>): (r: seq<seq<real>>)
    requires forall i :: 0 <= i < |m| ==> Sum(m[i]) > 0
    ensures |r| == |m| && forall i :: 0 <= i < |m| ==> |r[i]| == |m[i]|
  {
    seq(|m|, i requires 0 <= i < |m| =>
      seq(|m[i]|, j requires 0 <= j < |m[i]| => m[i][j] as real / Sum(m[i]) as real))
  }

  /** Dividing every entry of a row by `d` divides its sum by `d`. */
  lemma {:induction false} SumScaled(s: seq<nat>, d: real)
    requires d > 0.0
    ensures SumR(seq(|s|, j requires 0 <= j < |s| => s[j] as real / d)) == Sum(s) as real / d
  {
    if s != [] {
      var n := |s| - 1;
      var t := seq(|s|, j requires 0 <= j < |s| => s[j] as real / d);
      SumScaled(s[..n], d);
      assert t[..n] == seq(n, j requires 0 <= j < n => s[..n][j] as real / d);
      DivideSum(Sum(s[..n]) as real, s[n] as real, d);
    }
  }

  lemma DivideSum(a: real, b: real, d: real)
    requires d > 0.0
    ensures (a + b) / d == a / d + b / d
  {
  }

  /** No entry exceeds the sum of its row. */
  lemma {:induction false} EntryAtMostSum(s: seq<nat>, j: nat)
    requires j < |s|
    ensures s[j] <= Sum(s)
  {
    if j < |s| - 1 {
      EntryAtMostSum(s[..|s| - 1], j);
    }
  }

  /** Every normalised row is a distribution over the classes: its entries lie
      between 0 and 1 and add up to 1. */
  lemma NormalisedRows(m: seq<seq<nat>>, i: nat)
    requires forall i :: 0 <= i < |m| ==> Sum(m[i]) > 0
    requires i < |m|
    ensures SumR(Normalise(m)[i]) == 1.0
    ensures forall j :: 0 <= j < |m[i]| ==> 0.0 <= Normalise(m)[i][j] <= 1.0
    ensures forall j :: 0 <= j < |m[i]| ==> Normalise(m)[i][j] == m[i][j] as real / Sum(m[i]) as real
  {
    var d := Sum(m[i]) as real;
    SumScaled(m[i], d);
    DivideSelf(d);
    assert Normalise(m)[i] == seq(|m[i]|, j requires 0 <= j < |m[i]| => m[i][j] as real / d);
    forall j | 0 <= j < |m[i]| ensures 0.0 <= Normalise(m)[i][j] <= 1.0 {
      EntryAtMostSum(m[i], j);
      FractionBounds(m[i][j] as real, d);
    }
  }

  lemma DivideSelf(d: real)
    requires d > 0.0
    ensures d / d == 1.0
  {
  }

  lemma FractionBounds(a: real, d: real)
    requires 0.0 <= a <= d && d > 0.0
    ensures 0.0 <= a / d <= 1.0
  {
    assert a / d * d == a;
  }

  /** `n` holds, for each of the `|fids|` rows, the share of that row's records
      of `qs` that fall into each of the `|cids|` columns; no row is empty and
      every row adds up to 1. */
  predicate Fractions(n: seq<seq<real>>, qs: seq<Particle>, fids: map<int, nat>, cids: map<int, nat>) {
    && |n| == |fids|
    && (forall i :: 0 <= i < |n| ==> |n[i]| == |cids|)
    && (forall i :: 0 <= i < |n| ==> RowCount(qs, fids, i) >= 1)
    && (forall i, j :: 0 <= i < |n| && 0 <= j < |n[i]| ==>
          n[i][j] == CellCount(qs, fids, cids, i, j) as real / RowCount(qs, fids, i) as real)
    && (forall i :: 0 <= i < |n| ==> SumR(n[i]) == 1.0)
  }

  /** Normalising an exact count matrix with no empty row gives its fractions. */
  lemma FractionsOfCounts(m: seq<seq<nat>>, qs: seq<Particle>, fids: map<int, nat>, cids: map<int, nat>)
    requires Counted(m, qs, fids, cids)
    requires forall i :: 0 <= i < |m| ==> RowCount(qs, fids, i) >= 1
    ensures forall i :: 0 <= i < |m| ==> Sum(m[i]) > 0
    ensures Fractions(Normalise(m), qs, fids, cids)
  {
    forall i | 0 <= i < |m|
      ensures SumR(Normalise(m)[i]) == 1.0
      ensures forall j :: 0 <= j < |m[i]| ==>
        Normalise(m)[i][j] == CellCount(qs, fids, cids, i, j) as real / RowCount(qs, fids, i) as real
    {
      NormalisedRows(m, i);
    }
  }

  /** The matrix the clustering runs on: for each filament, the fraction of its
      records that fall into each class. */
  method ClassFractions(ps: seq<Particle>) returns (n: seq<seq<real>>)
    ensures Fractions(n, ps, FilamentIds(ps), ClassIds(ps))
  {
    var m := CountMatrix(ps);
    var fids, cids := FilamentIds(ps), ClassIds(ps);
    forall i | 0 <= i < |m| ensures RowCount(ps, fids, i) >= 1 {
      RowsNonEmpty(ps, i);
    }
    FractionsOfCounts(m, ps, fids, cids);
    n := Normalise(m);
  }
}
