/** The last-iteration collector: for every Class2D job directory of a RELION
    project, pick the newest `*_data.star` file and name its copy after the
    flattened project-relative path.
 */
module GrabLast {
  import opened Wrappers
  import opened Text
  import opened Sorting

  // ---------------------------------------------------------------------------
  // Eligibility and partition

  /** A result file: its name contains `_data.star` and does not contain `sub`. */
  predicate IsDataStar(x: string) {
    Contains(x, "_data.star") && !Contains(x, "sub")
  }

  /** A file of a continued run: its name contains `_ct`. */
  predicate IsCt(x: string) {
    Contains(x, "_ct")
  }

  predicate IsPlain(x: string) {
    !IsCt(x)
  }

  /** Python 2 `filter(p, xs)`: the elements satisfying `p`, in list order. */
  function Filter(xs: seq<string>, p: string -> bool): (r: seq<string>)
    ensures |r| <= |xs|
    ensures forall x :: x in r <==> x in xs && p(x)
  {
    if xs == [] then []
    else if p(xs[0]) then [xs[0]] + Filter(xs[1..], p)
    else Filter(xs[1..], p)
  }

  /** `filter` keeps list order: filtering a list extended by one name extends
      the result by that name exactly when it passes. */
  lemma {:induction false} FilterAppend(xs: seq<string>, x: string, p: string -> bool)
    ensures Filter(xs + [x], p) == Filter(xs, p) + (if p(x) then [x] else [])
  {
    if xs != [] {
      assert (xs + [x])[1..] == xs[1..] + [x];
      FilterAppend(xs[1..], x, p);
    }
  }

  /** The position in `xs` of the name at position `i` of `filter(p, xs)`:
      every name after it in `xs` that passes `p` comes after position `i`. */
  function FilterIndex(xs: seq<string>, p: string -> bool, i: nat): (a: nat)
    requires i < |Filter(xs, p)|
    ensures a < |xs| && xs[a] == Filter(xs, p)[i]
    ensures forall b :: a < b < |xs| && p(xs[b]) ==> xs[b] in Filter(xs, p)[i + 1..]
  {
    assert forall b :: 0 < b < |xs| ==> xs[b] == xs[1..][b - 1];
    if p(xs[0]) && i == 0 then
      assert Filter(xs, p)[1..] == Filter(xs[1..], p);
      0
    else
      var i' := if p(xs[0]) then i - 1 else i;
      assert Filter(xs, p)[i + 1..] == Filter(xs[1..], p)[i' + 1..];
      1 + FilterIndex(xs[1..], p, i')
  }

  function DataStars(files: seq<string>): seq<string> {
    Filter(files, IsDataStar)
  }

  function CtFiles(files: seq<string>): seq<string> {
    Filter(DataStars(files), IsCt)
  }

  function PlainFiles(files: seq<string>): seq<string> {
    Filter(DataStars(files), IsPlain)
  }

  /** A name is eligible exactly when `_data.star` occurs in it and `sub` does not. */
  lemma EligibleIff(files: seq<string>, x: string)
    ensures x in DataStars(files) <==>
      x in files && (exists i :: OccursAt(x, "_data.star", i)) && !(exists i :: OccursAt(x, "sub", i))
  {
    ContainsIffOccurs(x, "_data.star");
    ContainsIffOccurs(x, "sub");
  }

  /** Filtering by `p` and by its negation splits a list without loss or overlap. */
  lemma {:induction false} FilterSplits(xs: seq<string>, p: string -> bool, q: string -> bool)
    requires forall x :: q(x) == !p(x)
    ensures multiset(Filter(xs, p)) + multiset(Filter(xs, q)) == multiset(xs)
  {
    if xs != [] {
      var x, rest := xs[0], xs[1..];
      FilterSplits(rest, p, q);
      assert xs == [x] + rest;
      assert multiset(xs) == multiset{x} + multiset(rest);
      if p(x) {
        assert Filter(xs, p) == [x] + Filter(rest, p);
        assert Filter(xs, q) == Filter(rest, q);
      } else {
        assert Filter(xs, p) == Filter(rest, p);
        assert Filter(xs, q) == [x] + Filter(rest, q);
      }
    }
  }

  /** The `_ct` files and the plain files are disjoint and together are exactly
      the eligible files, each as often as it is listed. */
  lemma PartitionExact(files: seq<string>)
    ensures forall x :: x in CtFiles(files) ==> x !in PlainFiles(files)
    ensures forall x :: x in DataStars(files) <==> x in CtFiles(files) || x in PlainFiles(files)
    ensures multiset(CtFiles(files)) + multiset(PlainFiles(files)) == multiset(DataStars(files))
  {
    FilterSplits(DataStars(files), IsCt, IsPlain);
  }

  // ---------------------------------------------------------------------------
  // The sort key of a `_ct` file

  /** `1000 * int(x[x.rindex("_ct") + 3 : x.index("_it")]) + int(x[x.index("_it") + 3 : x.index("_data")])`,
      or None where one of the lookups or conversions raises ValueError. */
  function Key(x: string): Option<int> {
    var ct, it, data := RFind(x, "_ct"), Find(x, "_it"), Find(x, "_data");
    if ct.None? || it.None? || data.None? then None
    else KeyBetween(x, ct.value, it.value, data.value)
  }

  function KeyBetween(x: string, p1: nat, p2: nat, p3: nat): Option<int>
    requires p1 + 3 <= |x| && p2 + 3 <= |x| && p3 <= |x|
  {
    var major, minor := ParseInt(Slice(x, p1 + 3, p2)), ParseInt(Slice(x, p2 + 3, p3));
    if major.None? || minor.None? then None
    else Some(1000 * major.value + minor.value)
  }

  /** A name has a key only when `_ct`, `_it` and `_data` all occur in it; in
      particular only `_ct` names have one. */
  lemma KeyNeedsSeparators(x: string)
    ensures Key(x).Some? ==> IsCt(x) && Contains(x, "_it") && Contains(x, "_data")
  {
    RFindSpec(x, "_ct");
    ContainsIffOccurs(x, "_ct");
  }

  /** A name as a continued RELION run writes it: a stem without underscores,
      then `_ct`, the continuation count, `_it`, the iteration, `_data.star`. */
  function CtName(stem: string, ct: string, it: string): string {
    stem + "_ct" + ct + "_it" + it + "_data.star"
  }

  /** The underscores of such a name are exactly the ones before `ct`, `it` and `data`. */
  lemma CtNameUnderscores(stem: string, ct: string, it: string, j: int)
    requires '_' !in stem && AllDigits(ct) && AllDigits(it)
    requires 0 <= j < |CtName(stem, ct, it)|
    ensures CtName(stem, ct, it)[j] == '_' <==>
      j == |stem| || j == |stem| + 3 + |ct| || j == |stem| + 6 + |ct| + |it|
  {
    var x := CtName(stem, ct, it);
    var p1 := |stem|;
    var p2 := p1 + 3 + |ct|;
    var p3 := p2 + 3 + |it|;
    if j < p1 {
      assert x[j] == stem[j];
      assert stem[j] in stem;
    } else if j < p1 + 3 {
      assert x[j] == "_ct"[j - p1];
    } else if j < p2 {
      assert x[j] == ct[j - p1 - 3];
    } else if j < p2 + 3 {
      assert x[j] == "_it"[j - p2];
    } else if j < p3 {
      assert x[j] == it[j - p2 - 3];
    } else {
      assert x[j] == "_data.star"[j - p3];
    }
  }

  /** `sub` starting with `_` and then `c` occurs in such a name only at the
      underscore position `p` whose next character is `c`. */
  lemma CtNameOccurrence(stem: string, ct: string, it: string, sub: string, p: nat)
    requires '_' !in stem && AllDigits(ct) && AllDigits(it)
    requires |sub| >= 2 && sub[0] == '_'
    requires p == |stem| || p == |stem| + 3 + |ct| || p == |stem| + 6 + |ct| + |it|
    requires p + 1 < |CtName(stem, ct, it)| && CtName(stem, ct, it)[p + 1] == sub[1]
    ensures forall j :: OccursAt(CtName(stem, ct, it), sub, j) ==> j == p
  {
    var x := CtName(stem, ct, it);
    var p1 := |stem|;
    var p2 := p1 + 3 + |ct|;
    var p3 := p2 + 3 + |it|;
    assert x[p1 + 1] == 'c' && x[p2 + 1] == 'i' && x[p3 + 1] == 'd';
    forall j | OccursAt(x, sub, j) ensures j == p {
      assert x[j] == sub[0] && x[j + 1] == sub[1];
      CtNameUnderscores(stem, ct, it, j);
    }
  }

  lemma CtNameFindsCt(stem: string, ct: string, it: string)
    requires '_' !in stem && AllDigits(ct) && AllDigits(it)
    ensures RFind(CtName(stem, ct, it), "_ct") == Some(|stem|)
  {
    var x := CtName(stem, ct, it);
    var p := |stem|;
    assert x[p..p + 3] == "_ct";
    assert OccursAt(x, "_ct", p);
    RFindSpec(x, "_ct");
    CtNameOccurrence(stem, ct, it, "_ct", p);
  }

  lemma CtNameFindsIt(stem: string, ct: string, it: string)
    requires '_' !in stem && AllDigits(ct) && AllDigits(it)
    ensures Find(CtName(stem, ct, it), "_it") == Some(|stem| + 3 + |ct|)
  {
    var x := CtName(stem, ct, it);
    var p := |stem| + 3 + |ct|;
    assert x[p..p + 3] == "_it";
    assert OccursAt(x, "_it", p);
    FindSpec(x, "_it");
    CtNameOccurrence(stem, ct, it, "_it", p);
  }

  lemma CtNameFindsData(stem: string, ct: string, it: string)
    requires '_' !in stem && AllDigits(ct) && AllDigits(it)
    ensures Find(CtName(stem, ct, it), "_data") == Some(|stem| + 6 + |ct| + |it|)
  {
    var x := CtName(stem, ct, it);
    var p := |stem| + 6 + |ct| + |it|;
    assert x[p..p + 5] == "_data";
    assert OccursAt(x, "_data", p);
    FindSpec(x, "_data");
    CtNameOccurrence(stem, ct, it, "_data", p);
  }

  /** Once the three separators are found, the key is read between them. */
  lemma KeyAtSeparators(x: string, p1: nat, p2: nat, p3: nat)
    requires RFind(x, "_ct") == Some(p1) && Find(x, "_it") == Some(p2) && Find(x, "_data") == Some(p3)
    ensures p1 + 3 <= |x| && p2 + 3 <= |x| && p3 <= |x|
    ensures Key(x) == KeyBetween(x, p1, p2, p3)
  {
  }

  /** The key read between separators when both numbers are plain digits. */
  lemma KeyBetweenDigits(x: string, p1: nat, p2: nat, p3: nat, major: string, minor: string)
    requires p1 + 3 < p2 && p2 + 3 < p3 <= |x|
    requires x[p1 + 3..p2] == major && x[p2 + 3..p3] == minor
    requires AllDigits(major) && AllDigits(minor)
    ensures KeyBetween(x, p1, p2, p3) == Some(1000 * DigitsValue(major) + DigitsValue(minor))
  {
    ParseIntDigits(major);
    ParseIntDigits(minor);
  }

  /** The key of a well-formed continued-run name is 1000 times the
      continuation count plus the iteration. */
  lemma KeyOfCtName(stem: string, ct: string, it: string)
    requires '_' !in stem
    requires ct != [] && AllDigits(ct) && it != [] && AllDigits(it)
    ensures Key(CtName(stem, ct, it)) == Some(1000 * DigitsValue(ct) + DigitsValue(it))
  {
    var x := CtName(stem, ct, it);
    var p1 := |stem|;
    var p2 := p1 + 3 + |ct|;
    var p3 := p2 + 3 + |it|;
    CtNameFindsCt(stem, ct, it);
    CtNameFindsIt(stem, ct, it);
    CtNameFindsData(stem, ct, it);
    KeyAtSeparators(x, p1, p2, p3);
    CtNameParts(stem, ct, it);
    KeyBetweenDigits(x, p1, p2, p3, ct, it);
  }

  lemma CtNameParts(stem: string, ct: string, it: string)
    ensures var x := CtName(stem, ct, it);
      && x[|stem| + 3..|stem| + 3 + |ct|] == ct
      && x[|stem| + 6 + |ct|..|stem| + 6 + |ct| + |it|] == it
  {
  }

  /** While iterations stay below 1000, ordering by key is ordering by
      continuation count first and iteration second. */
  lemma KeyOrderIsLexicographic(ct1: nat, it1: nat, ct2: nat, it2: nat)
    requires it1 < 1000 && it2 < 1000
    ensures 1000 * ct1 + it1 <= 1000 * ct2 + it2 <==> ct1 < ct2 || (ct1 == ct2 && it1 <= it2)
  {
    if ct1 < ct2 {
      assert 1000 * ct1 + 1000 <= 1000 * ct2;
    } else if ct1 > ct2 {
      assert 1000 * ct2 + 1000 <= 1000 * ct1;
    }
  }

  /** For names of continued runs whose iterations stay below 1000, ordering
      by key is ordering by continuation count first and iteration second:
      `ct1`, `it1`, `ct2`, `it2` are the digit strings of the two names and
      `c1`, `i1`, `c2`, `i2` the numbers they spell. */
  lemma KeyOrderOfCtNames(stem1: string, ct1: string, it1: string, stem2: string, ct2: string, it2: string,
                          c1: nat, i1: nat, c2: nat, i2: nat)
    requires '_' !in stem1 && ct1 != [] && AllDigits(ct1) && it1 != [] && AllDigits(it1)
    requires '_' !in stem2 && ct2 != [] && AllDigits(ct2) && it2 != [] && AllDigits(it2)
    requires DigitsValue(ct1) == c1 && DigitsValue(it1) == i1 && DigitsValue(ct2) == c2 && DigitsValue(it2) == i2
    requires i1 < 1000 && i2 < 1000
    ensures Key(CtName(stem1, ct1, it1)).Some? && Key(CtName(stem2, ct2, it2)).Some?
    ensures Key(CtName(stem1, ct1, it1)).value <= Key(CtName(stem2, ct2, it2)).value <==>
      c1 < c2 || (c1 == c2 && i1 <= i2)
  {
    KeyOrderIsLexicographic(c1, i1, c2, i2);
    KeyOfCtName(stem1, ct1, it1);
    KeyOfCtName(stem2, ct2, it2);
  }

  /** Without that bound the key does not order the pairs: continuation 1 at
      iteration 1001 gets the same key as continuation 2 at iteration 1. */
  lemma KeyCollision(stem: string)
    requires '_' !in stem
    ensures Key(CtName(stem, "1", "1001")) == Key(CtName(stem, "2", "001")) == Some(2001)
  {
    KeyOfCt1It1001(stem);
    KeyOfCt2It1(stem);
  }

  lemma KeyOfCt1It1001(stem: string)
    requires '_' !in stem
    ensures Key(CtName(stem, "1", "1001")) == Some(2001)
  {
    assert DigitsValue("1") == 1 by { assert "1"[..0] == []; }
    assert DigitsValue("10") == 10 by { assert "10"[..1] == "1"; }
    assert DigitsValue("100") == 100 by { assert "100"[..2] == "10"; }
    assert DigitsValue("1001") == 1001 by { assert "1001"[..3] == "100"; }
    KeyOfCtName(stem, "1", "1001");
  }

  lemma KeyOfCt2It1(stem: string)
    requires '_' !in stem
    ensures Key(CtName(stem, "2", "001")) == Some(2001)
  {
    assert DigitsValue("2") == 2 by { assert "2"[..0] == []; }
    assert DigitsValue("0") == 0 by { assert "0"[..0] == []; }
    assert DigitsValue("00") == 0 by { assert "00"[..1] == "0"; }
    assert DigitsValue("001") == 1 by { assert "001"[..2] == "00"; }
    KeyOfCtName(stem, "2", "001");
  }

  /** The keys of a list, paired with the names, computed in list order;
      the first name whose key raises aborts the computation. */
  function Decorate(xs: seq<string>, key: string -> Option<int>): (r: Result<seq<(int, string)>, string>)
    ensures r.Success? <==> forall k :: 0 <= k < |xs| ==> key(xs[k]).Some?
    ensures r.Success? ==> |r.value| == |xs|
    ensures r.Success? ==> forall k :: 0 <= k < |xs| ==> r.value[k] == (key(xs[k]).value, xs[k])
    ensures r.Failure? ==> exists k :: 0 <= k < |xs| && xs[k] == r.error && key(xs[k]).None?
                                     && forall j :: 0 <= j < k ==> key(xs[j]).Some?
  {
    if xs == [] then Success([])
    else
      match key(xs[0])
      case None => Failure(xs[0])
      case Some(v) =>
        var rest :- Decorate(xs[1..], key);
        Success([(v, xs[0])] + rest)
  }

  /** The decoration `sorted(..., key=...)` computes for the `_ct` files. */
  function Keyed(xs: seq<string>): Result<seq<(int, string)>, string> {
    Decorate(xs, Key)
  }

  /** Compare decorated names by key only, as `sorted(..., key=...)` does. */
  predicate KeyLe(a: (int, string), b: (int, string)) {
    a.0 <= b.0
  }

  /** The position of the last element with the largest key. */
  function LastMaxIndex(ps: seq<(int, string)>): (r: nat)
    requires |ps| > 0
    ensures r < |ps|
    ensures forall j :: 0 <= j < |ps| ==> ps[j].0 <= ps[r].0
    ensures forall j :: r < j < |ps| ==> ps[j].0 < ps[r].0
  {
    if |ps| == 1 then 0
    else
      var n := |ps| - 1;
      var i := LastMaxIndex(ps[..n]);
      if ps[i].0 <= ps[n].0 then n else i
  }

  /** The last element of the stable sort by key is the last element, in list
      order, among those with the largest key. */
  lemma {:induction false} SortedLastIsLastMax(ps: seq<(int, string)>)
    requires |ps| > 0
    ensures Sort(ps, KeyLe)[|ps| - 1] == ps[LastMaxIndex(ps)]
  {
    var n := |ps| - 1;
    if n > 0 {
      SortedLastIsLastMax(ps[..n]);
      var s := Sort(ps[..n], KeyLe);
      InsertSortedLast(s, ps[n], KeyLe);
      var i := LastMaxIndex(ps[..n]);
      assert ps[..n][i] == ps[i];
      assert Sort(ps, KeyLe) == InsertSorted(s, ps[n], KeyLe);
    }
  }

  // ---------------------------------------------------------------------------
  // Selection

  /** The file chosen in one job directory. A non-empty `_ct` set wins and is
      ranked by `Key`, taking the last of the stable sort; otherwise the last of
      the sorted plain set; otherwise nothing. A `_ct` name whose key raises
      aborts the run, modelled as `Failure` with that name. */
  function SelectLast(files: seq<string>): (r: Result<Option<string>, string>)
    ensures r.Failure? ==> r.error in CtFiles(files) && Key(r.error).None?
  {
    var cts := CtFiles(files);
    var plains := PlainFiles(files);
    if |cts| > 0 then
      var keyed :- Keyed(cts);
      var sorted := Sort(keyed, KeyLe);
      Success(Some(sorted[|sorted| - 1].1))
    else if |plains| > 0 then
      var sorted := Sort(plains, LexLe);
      Success(Some(sorted[|sorted| - 1]))
    else
      Success(None)
  }

  lemma LexLeIsTotalOrder()
    ensures Total(LexLe) && Transitive(LexLe)
  {
    forall a, b ensures LexLe(a, b) || LexLe(b, a) {
      LexLeTotal(a, b);
    }
    forall a, b, c | LexLe(a, b) && LexLe(b, c) ensures LexLe(a, c) {
      LexLeTransitive(a, b, c);
    }
  }

  /** The run aborts exactly when some `_ct` file has a key that raises. */
  lemma SelectLastFailsIffBadKey(files: seq<string>)
    ensures SelectLast(files).Failure? <==> exists x :: x in CtFiles(files) && Key(x).None?
  {
    var cts := CtFiles(files);
    if exists x :: x in cts && Key(x).None? {
      var x :| x in cts && Key(x).None?;
      var k :| 0 <= k < |cts| && cts[k] == x;
    }
  }

  /** With `_ct` files whose keys all convert, the choice is the `_ct` file at
      the last position holding the largest key. */
  lemma SelectLastCtChoice(files: seq<string>)
    requires |CtFiles(files)| > 0
    requires Keyed(CtFiles(files)).Success?
    ensures SelectLast(files) == Success(Some(CtFiles(files)[LastMaxIndex(Keyed(CtFiles(files)).value)]))
  {
    var cts := CtFiles(files);
    var keyed := Keyed(cts).value;
    var i := LastMaxIndex(keyed);
    SortedLastIsLastMax(keyed);
    assert keyed[i].1 == cts[i];
  }

  /** When a `_ct` file exists, the choice is a `_ct` file, whatever the plain
      files are called. */
  lemma SelectLastPrefersCt(files: seq<string>)
    requires |CtFiles(files)| > 0
    requires SelectLast(files).Success?
    ensures SelectLast(files).value.Some?
    ensures var x := SelectLast(files).value.value;
      x in CtFiles(files) && IsCt(x) && IsDataStar(x) && x in files
  {
    var cts := CtFiles(files);
    SelectLastCtChoice(files);
    var i := LastMaxIndex(Keyed(cts).value);
    assert cts[i] in cts;
    assert cts[i] in DataStars(files);
  }

  /** Position `i` of `xs` holds the last of the largest keys: every name of
      `xs` has a key, none is larger than the one at `i`, and every name listed
      after `i` has a strictly smaller one. */
  predicate LastMaxKeyAt(xs: seq<string>, i: int) {
    && 0 <= i < |xs| && Key(xs[i]).Some?
    && (forall j :: 0 <= j < |xs| ==> Key(xs[j]).Some? && Key(xs[j]).value <= Key(xs[i]).value)
    && (forall j :: i < j < |xs| ==> Key(xs[j]).value < Key(xs[i]).value)
  }

  /** The chosen `_ct` file holds the last of the largest keys: among equal
      keys the last one listed wins. */
  lemma SelectLastCtIsLastMax(files: seq<string>)
    requires |CtFiles(files)| > 0
    requires SelectLast(files).Success?
    ensures SelectLast(files).value.Some?
    ensures exists i :: LastMaxKeyAt(CtFiles(files), i) && CtFiles(files)[i] == SelectLast(files).value.value
  {
    var cts := CtFiles(files);
    SelectLastCtChoice(files);
    KeyedLastMax(cts);
    var i := LastMaxIndex(Keyed(cts).value);
    assert LastMaxKeyAt(cts, i);
  }

  /** Position `a` of the listing `files` holds a name with a key, and no
      eligible `_ct` name listed after it has a key as large. */
  predicate NoLaterCtAsLarge(files: seq<string>, a: int) {
    && 0 <= a < |files| && Key(files[a]).Some?
    && forall b :: a < b < |files| && IsDataStar(files[b]) && IsCt(files[b]) ==>
         Key(files[b]).Some? && Key(files[b]).value < Key(files[a]).value
  }

  /** The tie-break in terms of the directory listing: the chosen `_ct` file
      sits at a position of `files` after which no eligible `_ct` file has a
      key as large as its own. */
  lemma SelectLastCtIsLastListed(files: seq<string>)
    requires |CtFiles(files)| > 0
    requires SelectLast(files).Success?
    ensures SelectLast(files).value.Some?
    ensures exists a :: NoLaterCtAsLarge(files, a) && files[a] == SelectLast(files).value.value
  {
    var ds, cts := DataStars(files), CtFiles(files);
    SelectLastCtIsLastMax(files);
    var x := SelectLast(files).value.value;
    var i :| LastMaxKeyAt(cts, i) && cts[i] == x;
    var c := FilterIndex(ds, IsCt, i);
    var a := FilterIndex(files, IsDataStar, c);
    forall b | a < b < |files| && IsDataStar(files[b]) && IsCt(files[b])
      ensures Key(files[b]).Some? && Key(files[b]).value < Key(x).value
    {
      assert files[b] in ds[c + 1..];
      var j :| c < j < |ds| && ds[j] == files[b];
      assert files[b] in cts[i + 1..];
      var k :| i < k < |cts| && cts[k] == files[b];
    }
    assert NoLaterCtAsLarge(files, a);
  }

  /** The position `LastMaxIndex` picks holds the last of the largest keys. */
  lemma KeyedLastMax(xs: seq<string>)
    requires |xs| > 0 && Keyed(xs).Success?
    ensures LastMaxKeyAt(xs, LastMaxIndex(Keyed(xs).value))
  {
    var keyed := Keyed(xs).value;
    var i := LastMaxIndex(keyed);
    forall j | 0 <= j < |xs| ensures Key(xs[j]).Some? && Key(xs[j]).value == keyed[j].0 {
      assert keyed[j] == (Key(xs[j]).value, xs[j]);
    }
  }

  /** Without `_ct` files, the choice is the lexicographically largest plain file. */
  lemma SelectLastPlainIsMax(files: seq<string>)
    requires |CtFiles(files)| == 0 && |PlainFiles(files)| > 0
    ensures SelectLast(files).Success? && SelectLast(files).value.Some?
    ensures var x := SelectLast(files).value.value;
      && x in PlainFiles(files) && !IsCt(x) && IsDataStar(x)
      && forall y :: y in PlainFiles(files) ==> LexLe(y, x)
  {
    var plains := PlainFiles(files);
    var sorted := Sort(plains, LexLe);
    LexLeIsTotalOrder();
    SortIsSorted(plains, LexLe);
    var x := sorted[|sorted| - 1];
    assert x in multiset(sorted);
    forall y | y in plains ensures LexLe(y, x) {
      assert y in multiset(sorted);
      var k :| 0 <= k < |sorted| && sorted[k] == y;
      if k < |sorted| - 1 {
        assert LexLe(sorted[k], sorted[|sorted| - 1]);
      } else {
        LexLeTotal(y, x);
      }
    }
    assert x in plains;
  }

  /** Whatever is chosen is an eligible file of the listing. */
  lemma SelectLastIsEligible(files: seq<string>)
    ensures SelectLast(files).Success? && SelectLast(files).value.Some? ==>
      SelectLast(files).value.value in files && IsDataStar(SelectLast(files).value.value)
  {
    if |CtFiles(files)| > 0 {
      if SelectLast(files).Success? {
        SelectLastPrefersCt(files);
      }
    } else if |PlainFiles(files)| > 0 {
      SelectLastPlainIsMax(files);
    }
  }

  /** Nothing is chosen exactly when no file is eligible. */
  lemma SelectLastNoneIffNoDataStar(files: seq<string>)
    ensures SelectLast(files) == Success(None) <==> DataStars(files) == []
  {
    PartitionExact(files);
    var d := DataStars(files);
    if d != [] {
      assert d[0] in d;
    }
  }

  // ---------------------------------------------------------------------------
  // Destination names

  /** `os.path.join(projectname, "Class2D", jobname, lastfile).replace("/", "_")`. */
  function FlatName(projectname: string, jobname: string, lastfile: string): (r: string)
    ensures '/' !in r
  {
    ReplaceSlash(Join(Join(Join(projectname, "Class2D"), jobname), lastfile))
  }

  /** `os.path.join(dirpath, FlatName(...))`: the flattened name placed directly in `dirpath`. */
  function Destination(dirpath: string, projectname: string, jobname: string, lastfile: string): (r: string)
    ensures var flat := FlatName(projectname, jobname, lastfile);
      r == (if dirpath == [] || dirpath[|dirpath| - 1] == '/' then dirpath + flat else dirpath + "/" + flat)
  {
    var flat := FlatName(projectname, jobname, lastfile);
    assert flat != [] ==> flat[0] in flat;
    Join(dirpath, flat)
  }

  lemma JoinRelative(a: string, b: string)
    requires a != [] && a[|a| - 1] != '/'
    requires b != [] && b[0] != '/'
    ensures Join(a, b) == a + "/" + b
  {
  }

  /** The three joins of `FlatName` insert one `/` each when every part is a
      non-empty relative name and the prefix does not end in `/`. */
  lemma JoinChain(projectname: string, jobname: string, lastfile: string)
    requires projectname != [] && projectname[|projectname| - 1] != '/'
    requires jobname != [] && '/' !in jobname
    requires lastfile != [] && '/' !in lastfile
    ensures Join(Join(Join(projectname, "Class2D"), jobname), lastfile)
         == projectname + "/Class2D/" + jobname + "/" + lastfile
  {
    assert jobname[0] in jobname && jobname[|jobname| - 1] in jobname;
    assert lastfile[0] in lastfile;
    var a := projectname + "/Class2D";
    JoinRelative(projectname, "Class2D");
    var b := a + "/" + jobname;
    JoinRelative(a, jobname);
    var c := b + "/" + lastfile;
    JoinRelative(b, lastfile);
  }

  /** Turning `/` into `_` in the joined path touches only the separators and
      whatever slashes the prefix holds. */
  lemma ReplaceSlashSeparators(projectname: string, jobname: string, lastfile: string)
    requires '/' !in jobname && '/' !in lastfile
    ensures ReplaceSlash(projectname + "/Class2D/" + jobname + "/" + lastfile)
         == ReplaceSlash(projectname) + "_Class2D_" + jobname + "_" + lastfile
  {
    var p := projectname + "/Class2D/";
    ReplaceSlashConcat(projectname, "/Class2D/");
    assert ReplaceSlash("/Class2D/") == "_Class2D_";
    ReplaceSlashConcat(p, jobname);
    ReplaceSlashIdentity(jobname);
    ReplaceSlashConcat(p + jobname, "/");
    assert ReplaceSlash("/") == "_";
    ReplaceSlashConcat(p + jobname + "/", lastfile);
    ReplaceSlashIdentity(lastfile);
  }

  /** For names as a directory listing produces them (non-empty, without `/`)
      and a prefix that does not end in `/`, the flattened name is the relative
      path `projectname/Class2D/jobname/lastfile` with every `/` turned into `_`. */
  lemma FlatNameShape(projectname: string, jobname: string, lastfile: string)
    requires projectname != [] && projectname[|projectname| - 1] != '/'
    requires jobname != [] && '/' !in jobname
    requires lastfile != [] && '/' !in lastfile
    ensures FlatName(projectname, jobname, lastfile)
         == ReplaceSlash(projectname) + "_Class2D_" + jobname + "_" + lastfile
  {
    JoinChain(projectname, jobname, lastfile);
    ReplaceSlashSeparators(projectname, jobname, lastfile);
  }

  // ---------------------------------------------------------------------------
  // The per-job loop

  /** One entry of the `Class2D` directory listing. */
  datatype Entry = Entry(name: string, isDir: bool, isLink: bool, files: seq<string>)

  /** What one job contributes: the destination of its chosen file, nothing
      (not a real directory, or no eligible file), or the error that aborts the run. */
  function JobOutput(e: Entry, dirpath: string, projectname: string): (r: Result<Option<string>, string>)
    ensures r.Success? && r.value.Some? ==>
      e.isDir && !e.isLink && exists f :: f in e.files && IsDataStar(f) && r.value.value == Destination(dirpath, projectname, e.name, f)
    ensures r.Failure? ==> e.isDir && !e.isLink && r.error in CtFiles(e.files) && Key(r.error).None?
  {
    if e.isDir && !e.isLink then
      SelectLastIsEligible(e.files);
      var pick :- SelectLast(e.files);
      match pick
      case None => Success(None)
      case Some(lastfile) => Success(Some(Destination(dirpath, projectname, e.name, lastfile)))
    else
      Success(None)
  }

  /** A job aborts the run exactly when it is a real directory with a `_ct`
      file whose key raises, and yields a destination exactly when it is a
      real directory that does not abort and holds an eligible file. */
  lemma JobOutputCases(e: Entry, dirpath: string, projectname: string)
    ensures JobOutput(e, dirpath, projectname).Failure? <==>
      e.isDir && !e.isLink && exists x :: x in CtFiles(e.files) && Key(x).None?
    ensures JobOutput(e, dirpath, projectname) == Success(None) <==>
      !(e.isDir && !e.isLink) || DataStars(e.files) == []
  {
    SelectLastFailsIffBadKey(e.files);
    SelectLastNoneIffNoDataStar(e.files);
  }

  /** Entry `e` aborts the run: a real directory holding a `_ct` file whose key raises. */
  predicate Aborts(e: Entry) {
    e.isDir && !e.isLink && exists x :: x in CtFiles(e.files) && Key(x).None?
  }

  /** `o` is the destination of the file chosen in entry `e`, a real directory. */
  predicate Yields(e: Entry, dirpath: string, projectname: string, o: string) {
    && e.isDir && !e.isLink
    && SelectLast(e.files).Success? && SelectLast(e.files).value.Some?
    && o == Destination(dirpath, projectname, e.name, SelectLast(e.files).value.value)
  }

  /** A job contributes `o` exactly when its entry yields `o`. */
  lemma JobOutputYields(e: Entry, dirpath: string, projectname: string, o: string)
    ensures JobOutput(e, dirpath, projectname) == Success(Some(o)) <==> Yields(e, dirpath, projectname, o)
  {
  }

  /** The result of every entry, in visiting order. */
  function Jobs(es: seq<Entry>, dirpath: string, projectname: string): (r: seq<Result<Option<string>, string>>)
    ensures |r| == |es|
    ensures forall k :: 0 <= k < |es| ==> r[k] == JobOutput(es[k], dirpath, projectname)
  {
    seq(|es|, k requires 0 <= k < |es| => JobOutput(es[k], dirpath, projectname))
  }

  /** One pass of the loop body on `outfiles`: an earlier abort stands, a job
      that aborts ends the run, a job without a result leaves `outfiles` as it
      was and a job with one appends its destination at the end. */
  function Visit(acc: Result<seq<string>, string>, job: Result<Option<string>, string>): Result<seq<string>, string> {
    match acc
    case Failure(err) => Failure(err)
    case Success(out) =>
      match job
      case Failure(err) => Failure(err)
      case Success(None) => Success(out)
      case Success(Some(d)) => Success(out + [d])
  }

  /** The `outfiles` list after the loop body has run once per job result, in order. */
  function Outfiles(jobs: seq<Result<Option<string>, string>>): Result<seq<string>, string> {
    if jobs == [] then Success([])
    else
      var n := |jobs| - 1;
      Visit(Outfiles(jobs[..n]), jobs[n])
  }

  /** The loop over the job entries. */
  function Gather(es: seq<Entry>, dirpath: string, projectname: string): Result<seq<string>, string> {
    Outfiles(Jobs(es, dirpath, projectname))
  }

  /** Reference definition: the destinations of the jobs that have one, in order. */
  function Destinations(jobs: seq<Result<Option<string>, string>>): (r: seq<string>)
    ensures |r| <= |jobs|
    ensures forall d :: d in r <==> exists k :: 0 <= k < |jobs| && jobs[k] == Success(Some(d))
  {
    if jobs == [] then []
    else
      var n := |jobs| - 1;
      var front := Destinations(jobs[..n]);
      assert forall k :: 0 <= k < n ==> jobs[..n][k] == jobs[k];
      match jobs[n]
      case Success(Some(d)) => front + [d]
      case _ => front
  }

  /** The loop aborts exactly when some job aborts. */
  lemma {:induction false} OutfilesSucceedsIff(jobs: seq<Result<Option<string>, string>>)
    ensures Outfiles(jobs).Success? <==> forall k :: 0 <= k < |jobs| ==> jobs[k].Success?
  {
    if jobs != [] {
      var n := |jobs| - 1;
      OutfilesSucceedsIff(jobs[..n]);
      assert forall k :: 0 <= k < n ==> jobs[..n][k] == jobs[k];
    }
  }

  /** An aborted loop reports the error of the first job that aborts. */
  lemma {:induction false} OutfilesFirstError(jobs: seq<Result<Option<string>, string>>)
    ensures var r := Outfiles(jobs);
      r.Failure? ==>
        exists k :: 0 <= k < |jobs| && jobs[k] == Failure(r.error) &&
          forall l :: 0 <= l < k ==> jobs[l].Success?
  {
    if jobs != [] {
      var n := |jobs| - 1;
      OutfilesFirstError(jobs[..n]);
      OutfilesSucceedsIff(jobs[..n]);
      assert forall k :: 0 <= k < n ==> jobs[..n][k] == jobs[k];
    }
  }

  /** A finished loop holds exactly the destinations of the jobs that have
      one, in visiting order. */
  lemma {:induction false} OutfilesAreDestinations(jobs: seq<Result<Option<string>, string>>)
    ensures Outfiles(jobs).Success? ==> Outfiles(jobs).value == Destinations(jobs)
  {
    if jobs != [] {
      var n := |jobs| - 1;
      OutfilesAreDestinations(jobs[..n]);
    }
  }

  /** Job directories are visited in sorted name order. */
  predicate ByName(a: Entry, b: Entry) {
    LexLe(a.name, b.name)
  }

  /** The whole loop: `sorted(os.listdir(...))` and then one visit per job. */
  function Collect(listing: seq<Entry>, dirpath: string, projectname: string): (r: Result<seq<string>, string>)
    ensures r.Success? ==> |r.value| <= |listing|
  {
    OutfilesAreDestinations(Jobs(Sort(listing, ByName), dirpath, projectname));
    Gather(Sort(listing, ByName), dirpath, projectname)
  }

  /** The loop aborts exactly when some entry of the listing aborts. */
  lemma CollectFailsIff(listing: seq<Entry>, dirpath: string, projectname: string)
    ensures Collect(listing, dirpath, projectname).Failure? <==> exists e :: e in listing && Aborts(e)
  {
    var sorted := Sort(listing, ByName);
    OutfilesSucceedsIff(Jobs(sorted, dirpath, projectname));
    JobsFail(sorted, dirpath, projectname);
    forall e ensures e in listing <==> e in sorted {
      assert e in multiset(listing) <==> e in multiset(sorted);
    }
  }

  /** The job at each position aborts exactly when its entry does. */
  lemma JobsFail(es: seq<Entry>, dirpath: string, projectname: string)
    ensures forall k :: 0 <= k < |es| ==> (Jobs(es, dirpath, projectname)[k].Failure? <==> Aborts(es[k]))
  {
    forall k | 0 <= k < |es| ensures Jobs(es, dirpath, projectname)[k].Failure? <==> Aborts(es[k]) {
      JobOutputCases(es[k], dirpath, projectname);
    }
  }

  /** Some entry of `listing` yields `o`. */
  predicate Yielded(listing: seq<Entry>, dirpath: string, projectname: string, o: string) {
    exists e :: e in listing && Yields(e, dirpath, projectname, o)
  }

  /** A finished loop holds exactly the destinations that entries of the
      listing yield. */
  lemma CollectOutputs(listing: seq<Entry>, dirpath: string, projectname: string)
    requires Collect(listing, dirpath, projectname).Success?
    ensures forall o :: o in Collect(listing, dirpath, projectname).value <==> Yielded(listing, dirpath, projectname, o)
  {
    var jobs := Jobs(Sort(listing, ByName), dirpath, projectname);
    OutfilesAreDestinations(jobs);
    forall o ensures o in Destinations(jobs) <==> Yielded(listing, dirpath, projectname, o) {
      DestinationYielded(listing, dirpath, projectname, o);
      YieldedDestination(listing, dirpath, projectname, o);
    }
  }

  lemma DestinationYielded(listing: seq<Entry>, dirpath: string, projectname: string, o: string)
    ensures o in Destinations(Jobs(Sort(listing, ByName), dirpath, projectname)) ==>
      Yielded(listing, dirpath, projectname, o)
  {
    var sorted := Sort(listing, ByName);
    var jobs := Jobs(sorted, dirpath, projectname);
    if o in Destinations(jobs) {
      var k :| 0 <= k < |jobs| && jobs[k] == Success(Some(o));
      JobOutputYields(sorted[k], dirpath, projectname, o);
      assert sorted[k] in multiset(listing) by {
        assert sorted[k] in multiset(sorted);
      }
    }
  }

  lemma YieldedDestination(listing: seq<Entry>, dirpath: string, projectname: string, o: string)
    ensures Yielded(listing, dirpath, projectname, o) ==>
      o in Destinations(Jobs(Sort(listing, ByName), dirpath, projectname))
  {
    var sorted := Sort(listing, ByName);
    if Yielded(listing, dirpath, projectname, o) {
      var e :| e in listing && Yields(e, dirpath, projectname, o);
      assert e in sorted by {
        assert e in multiset(listing);
      }
      var k :| 0 <= k < |sorted| && sorted[k] == e;
      YieldedAt(sorted, k, dirpath, projectname, o);
    }
  }

  lemma YieldedAt(es: seq<Entry>, k: nat, dirpath: string, projectname: string, o: string)
    requires k < |es| && Yields(es[k], dirpath, projectname, o)
    ensures o in Destinations(Jobs(es, dirpath, projectname))
  {
    var jobs := Jobs(es, dirpath, projectname);
    JobOutputYields(es[k], dirpath, projectname, o);
    assert jobs[k] == Success(Some(o));
  }

  /** Directory listings never repeat a name. */
  predicate UniqueNames(es: seq<Entry>) {
    forall i, j :: 0 <= i < j < |es| ==> es[i].name != es[j].name
  }

  lemma {:induction false} UniqueNamesOccurOnce(es: seq<Entry>, x: Entry)
    requires UniqueNames(es)
    ensures multiset(es)[x] <= 1
  {
    if es != [] {
      var n := |es| - 1;
      assert es == es[..n] + [es[n]];
      assert UniqueNames(es[..n]);
      UniqueNamesOccurOnce(es[..n], x);
      if es[n] == x {
        assert x !in es[..n];
      }
    }
  }

  /** Each of two positions holding `x` contributes to the count of `x`. */
  lemma PositionsCount<T>(s: seq<T>, p: nat, q: nat, x: T)
    requires p < q < |s|
    ensures multiset(s)[x] >= (if s[p] == x then 1 else 0) + (if s[q] == x then 1 else 0)
  {
    assert s == s[..q] + s[q..];
    assert s[p] == s[..q][p];
    assert s[q] == s[q..][0];
    assert multiset(s)[x] == multiset(s[..q])[x] + multiset(s[q..])[x];
    if s[p] == x {
      assert x in s[..q];
    }
    if s[q] == x {
      assert x in s[q..];
    }
  }

  /** Rearranging a listing keeps its names unique. */
  lemma UniqueNamesPermuted(es: seq<Entry>, fs: seq<Entry>)
    requires UniqueNames(es) && multiset(es) == multiset(fs)
    ensures UniqueNames(fs)
  {
    forall i, j | 0 <= i < j < |fs| ensures fs[i].name != fs[j].name {
      PositionsCount(fs, i, j, fs[i]);
      UniqueNamesOccurOnce(es, fs[i]);
      assert fs[i] != fs[j];
      assert fs[i] in multiset(es) && fs[j] in multiset(es) by {
        assert fs[i] in multiset(fs) && fs[j] in multiset(fs);
      }
      var a :| 0 <= a < |es| && es[a] == fs[i];
      var b :| 0 <= b < |es| && es[b] == fs[j];
      if a < b {
        assert es[a].name != es[b].name;
      } else {
        assert es[b].name != es[a].name;
      }
    }
  }

  /** The `outfiles` list does not depend on the order in which the operating
      system lists the job directories. */
  lemma CollectIgnoresListingOrder(l1: seq<Entry>, l2: seq<Entry>, dirpath: string, projectname: string)
    requires UniqueNames(l1) && multiset(l1) == multiset(l2)
    ensures Collect(l1, dirpath, projectname) == Collect(l2, dirpath, projectname)
  {
    var s1, s2 := Sort(l1, ByName), Sort(l2, ByName);
    assert Total(ByName) && Transitive(ByName) by {
      forall a, b ensures ByName(a, b) || ByName(b, a) {
        LexLeTotal(a.name, b.name);
      }
      forall a, b, c | ByName(a, b) && ByName(b, c) ensures ByName(a, c) {
        LexLeTransitive(a.name, b.name, c.name);
      }
    }
    SortIsSorted(l1, ByName);
    SortIsSorted(l2, ByName);
    UniqueNamesPermuted(l1, s1);
    forall i, j | 0 <= i < |s1| && 0 <= j < |s1| && i != j
      ensures !(ByName(s1[i], s1[j]) && ByName(s1[j], s1[i]))
    {
      LexLeAntisymmetric(s1[i].name, s1[j].name);
      if i < j {
        assert s1[i].name != s1[j].name;
      } else {
        assert s1[j].name != s1[i].name;
      }
    }
    SortedUnique(s1, s2, ByName);
  }

  // ---------------------------------------------------------------------------
  // Command line

  datatype Args = Args(output: Option<string>, scp: bool, prefix: Option<string>)

  const ScpNeedsOutput := "argument --scp/--ssh/-s: requires output to be specified"

  /** Where the copies go: a fresh temporary directory `tempdir` when relaying
      through scp, else the output location when one is given and non-empty,
      else the current directory. `--scp` without an output is a usage error. */
  function StagingDir(args: Args, tempdir: string): (r: Result<string, string>)
    ensures r.Failure? <==> args.scp && args.output.None?
    ensures r.Failure? ==> r.error == ScpNeedsOutput
    ensures r.Success? && args.scp ==> r.value == tempdir
    ensures !args.scp ==> r.Success? && r.value != ""
    ensures !args.scp && args.output.Some? && args.output.value != "" ==> r.value == args.output.value
    ensures !args.scp && (args.output.None? || args.output.value == "") ==> r.value == "."
  {
    if args.scp && args.output.None? then Failure(ScpNeedsOutput)
    else if args.scp then Success(tempdir)
    else if args.output.Some? && args.output.value != "" then Success(args.output.value)
    else Success(".")
  }

  /** The prefix of the flattened names: `--prefix` when given and non-empty,
      else the project directory's base name `basename`. */
  function ProjectName(args: Args, basename: string): (r: string)
    ensures args.prefix.Some? && args.prefix.value != "" ==> r == args.prefix.value
    ensures args.prefix.None? || args.prefix.value == "" ==> r == basename
  {
    if args.prefix.Some? && args.prefix.value != "" then args.prefix.value else basename
  }

  /** The whole script without its I/O: the usage check, then the loop over the
      sorted job listing. It fails exactly on the usage error or when an entry
      aborts, and otherwise returns exactly the destinations the entries yield,
      staged in `tempdir` under `--scp`. */
  function Run(args: Args, tempdir: string, basename: string, listing: seq<Entry>): (r: Result<seq<string>, string>)
    ensures args.scp && args.output.None? ==> r == Failure(ScpNeedsOutput)
    ensures r.Failure? <==> (args.scp && args.output.None?) || exists e :: e in listing && Aborts(e)
    ensures r.Success? ==> forall o :: o in r.value <==>
      Yielded(listing, StagingDir(args, tempdir).value, ProjectName(args, basename), o)
    ensures r.Success? && args.scp ==> forall o :: o in r.value <==>
      Yielded(listing, tempdir, ProjectName(args, basename), o)
  {
    var dirpath :- StagingDir(args, tempdir);
    var projectname := ProjectName(args, basename);
    CollectFailsIff(listing, dirpath, projectname);
    if Collect(listing, dirpath, projectname).Success? then
      CollectOutputs(listing, dirpath, projectname);
      Collect(listing, dirpath, projectname)
    else
      Collect(listing, dirpath, projectname)
  }
}
