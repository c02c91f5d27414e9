/** The Python 2 string operations the collector tool relies on: substring
    search (`in`, `str.index`, `str.rindex`), slicing, `int()` on a string,
    string comparison, `str.replace` of one character and `posixpath.join`.
 */
module Text {
  import opened Wrappers

  // ---------------------------------------------------------------------------
  // Substring search

  /** `sub` occurs in `s` starting at position `i`. */
  predicate OccursAt(s: string, sub: string, i: int) {
    0 <= i && i + |sub| <= |s| && s[i..i + |sub|] == sub
  }

  /** The first occurrence of `sub` at or after position `from`. */
  function FindFrom(s: string, sub: string, from: nat): (r: Option<nat>)
    decreases |s| - from
    ensures r.Some? ==> from <= r.value && r.value + |sub| <= |s|
  {
    if from + |sub| > |s| then None
    else if s[from..from + |sub|] == sub then Some(from)
    else FindFrom(s, sub, from + 1)
  }

  lemma {:induction false} FindFromSpec(s: string, sub: string, from: nat)
    decreases |s| - from
    ensures var r := FindFrom(s, sub, from);
      && (r.Some? ==> OccursAt(s, sub, r.value) && forall j :: from <= j < r.value ==> !OccursAt(s, sub, j))
      && (r.None? ==> forall j :: from <= j ==> !OccursAt(s, sub, j))
  {
    if from + |sub| <= |s| && s[from..from + |sub|] != sub {
      FindFromSpec(s, sub, from + 1);
    }
  }

  /** `s.index(sub)`: the first occurrence, or None where Python raises ValueError. */
  function Find(s: string, sub: string): (r: Option<nat>)
    ensures r.Some? ==> r.value + |sub| <= |s|
  {
    FindFrom(s, sub, 0)
  }

  /** `Find` returns the first occurrence, and fails exactly when there is none. */
  lemma FindSpec(s: string, sub: string)
    ensures var r := Find(s, sub);
      && (r.Some? ==> OccursAt(s, sub, r.value) && forall j :: 0 <= j < r.value ==> !OccursAt(s, sub, j))
      && (r.None? <==> forall j :: !OccursAt(s, sub, j))
  {
    FindFromSpec(s, sub, 0);
  }

  /** The last occurrence of `sub` starting at or before position `upto`. */
  function RFindUpTo(s: string, sub: string, upto: int): (r: Option<nat>)
    decreases upto + 1
    ensures r.Some? ==> r.value <= upto && r.value + |sub| <= |s|
  {
    if upto < 0 then None
    else if OccursAt(s, sub, upto) then Some(upto)
    else RFindUpTo(s, sub, upto - 1)
  }

  lemma {:induction false} RFindUpToSpec(s: string, sub: string, upto: int)
    decreases upto + 1
    ensures var r := RFindUpTo(s, sub, upto);
      && (r.Some? ==> OccursAt(s, sub, r.value) && forall j :: r.value < j <= upto ==> !OccursAt(s, sub, j))
      && (r.None? ==> forall j :: j <= upto ==> !OccursAt(s, sub, j))
  {
    if upto >= 0 && !OccursAt(s, sub, upto) {
      RFindUpToSpec(s, sub, upto - 1);
    }
  }

  /** `s.rindex(sub)`: the last occurrence, or None where Python raises ValueError. */
  function RFind(s: string, sub: string): (r: Option<nat>)
    ensures r.Some? ==> r.value + |sub| <= |s|
  {
    RFindUpTo(s, sub, |s| - |sub|)
  }

  /** `RFind` returns the last occurrence, and fails exactly when there is none. */
  lemma RFindSpec(s: string, sub: string)
    ensures var r := RFind(s, sub);
      && (r.Some? ==> OccursAt(s, sub, r.value) && forall j :: r.value < j ==> !OccursAt(s, sub, j))
      && (r.None? <==> forall j :: !OccursAt(s, sub, j))
  {
    RFindUpToSpec(s, sub, |s| - |sub|);
  }

  /** `sub in s`. */
  predicate Contains(s: string, sub: string) {
    Find(s, sub).Some?
  }

  lemma ContainsIffOccurs(s: string, sub: string)
    ensures Contains(s, sub) <==> exists i :: OccursAt(s, sub, i)
  {
    FindSpec(s, sub);
  }

  /** `s[a:b]` for `0 <= a, b <= |s|`: empty when `b <= a`. */
  function Slice(s: string, a: nat, b: nat): string
    requires a <= |s| && b <= |s|
  {
    if a < b then s[a..b] else []
  }

  // ---------------------------------------------------------------------------
  // int() on a string

  predicate IsDigit(c: char) {
    '0' <= c <= '9'
  }

  predicate AllDigits(s: string) {
    forall k :: 0 <= k < |s| ==> IsDigit(s[k])
  }

  /** The characters `str.strip()` removes: space, tab, newline, carriage
      return, vertical tab and form feed. */
  predicate IsSpace(c: char) {
    c == ' ' || '\t' <= c <= '\r'
  }

  /** The value of a string of decimal digits, most significant first. */
  function DigitsValue(s: string): nat
    requires AllDigits(s)
  {
    if s == [] then 0
    else DigitsValue(s[..|s| - 1]) * 10 + (s[|s| - 1] as int - '0' as int)
  }

  /** The first position at or after `i` that does not hold whitespace, or `|s|`. */
  function SkipSpaces(s: string, i: nat): (r: nat)
    requires i <= |s|
    decreases |s| - i
    ensures i <= r <= |s|
  {
    if i < |s| && IsSpace(s[i]) then SkipSpaces(s, i + 1) else i
  }

  /** The end of `s[lo..j]` once trailing whitespace is dropped. */
  function TrimEnd(s: string, lo: nat, j: nat): (r: nat)
    requires lo <= j <= |s|
    decreases j
    ensures lo <= r <= j
  {
    if j > lo && IsSpace(s[j - 1]) then TrimEnd(s, lo, j - 1) else j
  }

  /** `s.strip()`. */
  function Strip(s: string): string {
    var a := SkipSpaces(s, 0);
    s[a..TrimEnd(s, a, |s|)]
  }

  /** The value of `t` read as decimal digits, or None unless `t` is a
      non-empty string of digits. */
  function ReadDigits(t: string): Option<nat> {
    if t == [] || !IsDigit(t[|t| - 1]) then None
    else
      var d := t[|t| - 1] as int - '0' as int;
      if |t| == 1 then Some(d)
      else
        match ReadDigits(t[..|t| - 1])
        case None => None
        case Some(v) => Some(10 * v + d)
  }

  /** `ReadDigits` succeeds exactly on non-empty digit strings, with their decimal value. */
  lemma {:induction false} ReadDigitsSpec(t: string)
    ensures ReadDigits(t).Some? <==> t != [] && AllDigits(t)
    ensures ReadDigits(t).Some? ==> ReadDigits(t).value == DigitsValue(t)
  {
    if t != [] && IsDigit(t[|t| - 1]) && |t| > 1 {
      var u := t[..|t| - 1];
      ReadDigitsSpec(u);
      assert AllDigits(t) <==> AllDigits(u) by {
        assert forall k :: 0 <= k < |u| ==> u[k] == t[k];
      }
    } else if t != [] && !IsDigit(t[|t| - 1]) {
      assert !AllDigits(t);
    }
  }

  /** Python 2 `int(s)`: surrounding whitespace is ignored, an optional sign
      may precede at least one decimal digit; other forms are treated as
      raising ValueError, modelled as None. */
  function ParseInt(s: string): (r: Option<int>)
    ensures r.Some? ==> Strip(s) != [] && (IsDigit(Strip(s)[0]) || Strip(s)[0] == '+' || Strip(s)[0] == '-')
    ensures r.Some? && r.value < 0 ==> Strip(s)[0] == '-'
    ensures var t := Strip(s);
      r.Some? <==> t != [] && (AllDigits(t) || ((t[0] == '+' || t[0] == '-') && |t| > 1 && AllDigits(t[1..])))
    ensures var t := Strip(s);
      r.Some? ==> r.value == (if t[0] == '-' then -(DigitsValue(t[1..]) as int)
                              else if t[0] == '+' then DigitsValue(t[1..]) as int
                              else DigitsValue(t) as int)
  {
    var t := Strip(s);
    if t != [] && (t[0] == '+' || t[0] == '-') then
      ReadDigitsSpec(t[1..]);
      assert !IsDigit(t[0]);
      match ReadDigits(t[1..])
      case None => None
      case Some(v) =>
        var n: int := v;
        Some(if t[0] == '-' then -n else n)
    else
      ReadDigitsSpec(t);
      match ReadDigits(t)
      case None => None
      case Some(v) => Some(v)
  }

  /** A plain string of digits reads as its decimal value. */
  lemma ParseIntDigits(s: string)
    requires s != [] && AllDigits(s)
    ensures ParseInt(s) == Some(DigitsValue(s))
  {
    assert IsDigit(s[0]) && IsDigit(s[|s| - 1]);
    assert SkipSpaces(s, 0) == 0;
    assert TrimEnd(s, 0, |s|) == |s|;
    assert Strip(s) == s;
    ReadDigitsSpec(s);
  }

  /** The decimal digits of a natural number, most significant first, no leading zeros. */
  function ShowNat(n: nat): (r: string)
    ensures r != [] && AllDigits(r)
    ensures |r| > 1 ==> r[0] != '0'
  {
    if n < 10 then ['0' + n as char]
    else ShowNat(n / 10) + ['0' + (n % 10) as char]
  }

  /** Printing a number and reading it back with `int()` gives the number. */
  lemma {:induction false} ParseShowNat(n: nat)
    ensures DigitsValue(ShowNat(n)) == n
    ensures ParseInt(ShowNat(n)) == Some(n)
  {
    if n >= 10 {
      ParseShowNat(n / 10);
      var s := ShowNat(n);
      assert s[..|s| - 1] == ShowNat(n / 10);
    }
    ParseIntDigits(ShowNat(n));
  }

  // ---------------------------------------------------------------------------
  // String comparison

  /** Python's `a <= b` on strings: lexicographic by character code, a proper
      prefix sorting first. */
  predicate LexLe(a: string, b: string) {
    if a == [] then true
    else if b == [] then false
    else if a[0] != b[0] then a[0] < b[0]
    else LexLe(a[1..], b[1..])
  }

  lemma {:induction false} LexLeTotal(a: string, b: string)
    ensures LexLe(a, b) || LexLe(b, a)
  {
    if a != [] && b != [] && a[0] == b[0] {
      LexLeTotal(a[1..], b[1..]);
    }
  }

  lemma {:induction false} LexLeTransitive(a: string, b: string, c: string)
    requires LexLe(a, b) && LexLe(b, c)
    ensures LexLe(a, c)
  {
    if a != [] && b != [] && c != [] && a[0] == b[0] && b[0] == c[0] {
      LexLeTransitive(a[1..], b[1..], c[1..]);
    }
  }

  lemma {:induction false} LexLeAntisymmetric(a: string, b: string)
    ensures LexLe(a, b) && LexLe(b, a) ==> a == b
  {
    if a != [] && b != [] && LexLe(a, b) && LexLe(b, a) {
      LexLeAntisymmetric(a[1..], b[1..]);
      assert a == [a[0]] + a[1..];
      assert b == [b[0]] + b[1..];
    }
  }

  // ---------------------------------------------------------------------------
  // Paths

  /** `s.replace("/", "_")`. */
  function ReplaceSlash(s: string): (r: string)
    ensures |r| == |s|
    ensures forall k :: 0 <= k < |s| ==> r[k] == if s[k] == '/' then '_' else s[k]
  {
    if s == [] then [] else ReplaceSlash(s[..|s| - 1]) + [if s[|s| - 1] == '/' then '_' else s[|s| - 1]]
  }

  lemma ReplaceSlashConcat(a: string, b: string)
    ensures ReplaceSlash(a + b) == ReplaceSlash(a) + ReplaceSlash(b)
  {
  }

  lemma ReplaceSlashIdentity(s: string)
    requires '/' !in s
    ensures ReplaceSlash(s) == s
  {
  }

  /** `posixpath.join(a, b)`: an absolute `b` replaces `a`; otherwise `b` is
      appended, with a `/` in between unless `a` is empty or already ends in one. */
  function Join(a: string, b: string): (r: string)
    ensures (b != [] && b[0] == '/') ==> r == b
    ensures (b == [] || b[0] != '/') ==> |a| + |b| <= |r| <= |a| + 1 + |b|
    ensures (b == [] || b[0] != '/') ==> r == a + b || r == a + "/" + b
    ensures (b == [] || b[0] != '/') ==> (r == a + "/" + b <==> a != [] && a[|a| - 1] != '/')
  {
    if b != [] && b[0] == '/' then b
    else if a == [] || a[|a| - 1] == '/' then a + b
    else a + "/" + b
  }

  /** A relative `b` is appended to `a`: the result starts with `a` and ends with `b`. */
  lemma JoinKeepsParts(a: string, b: string)
    requires b == [] || b[0] != '/'
    ensures |a| + |b| <= |Join(a, b)|
    ensures Join(a, b)[..|a|] == a && Join(a, b)[|Join(a, b)| - |b|..] == b
  {
  }
}
