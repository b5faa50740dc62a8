/** String operations the dashboard relies on: Python's code-point order on
    `str` (used by `sorted` and `sort_values`), the substring test `t in s`,
    the regular expression `(\d{4})` and `sorted(set(...))`. */
module Strings {
  import opened Wrappers
  import opened Seqs

  // ---------------------------------------------------------------------------
  // Lexicographic order by code point. Dafny's `<` on sequences is the
  // proper-prefix relation, so the order Python uses is defined here.

  predicate LexLess(a: string, b: string) {
    if |a| == 0 then |b| > 0
    else if |b| == 0 then false
    else if a[0] != b[0] then a[0] < b[0]
    else LexLess(a[1..], b[1..])
  }

  lemma {:induction false} LexLessIrreflexive(a: string)
    ensures !LexLess(a, a)
  {
    if |a| > 0 { LexLessIrreflexive(a[1..]); }
  }

  lemma {:induction false} LexLessTransitive(a: string, b: string, c: string)
    requires LexLess(a, b) && LexLess(b, c)
    ensures LexLess(a, c)
  {
    if |a| > 0 && |b| > 0 && |c| > 0 && a[0] == b[0] && b[0] == c[0] {
      LexLessTransitive(a[1..], b[1..], c[1..]);
    }
  }

  lemma {:induction false} LexLessTotal(a: string, b: string)
    requires a != b
    ensures LexLess(a, b) || LexLess(b, a)
  {
    if |a| > 0 && |b| > 0 && a[0] == b[0] {
      assert a == [a[0]] + a[1..] && b == [b[0]] + b[1..];
      LexLessTotal(a[1..], b[1..]);
    }
  }

  lemma LexLessAsymmetric(a: string, b: string)
    requires LexLess(a, b)
    ensures !LexLess(b, a)
  {
    if LexLess(b, a) {
      LexLessTransitive(a, b, a);
      LexLessIrreflexive(a);
    }
  }

  // ---------------------------------------------------------------------------
  // Substring test (Python's `t in s` on strings).

  predicate OccursAt(s: string, t: string, i: int) {
    0 <= i && i + |t| <= |s| && s[i..i + |t|] == t
  }

  function Contains(s: string, t: string): (b: bool)
    ensures b <==> exists i :: OccursAt(s, t, i)
    decreases |s|
  {
    if |t| > |s| then false
    else if s[..|t|] == t then (assert OccursAt(s, t, 0); true)
    else
      ContainsShift(s, t);
      Contains(s[1..], t)
  }

  lemma ContainsShift(s: string, t: string)
    requires |t| <= |s| && s[..|t|] != t
    ensures (exists i :: OccursAt(s, t, i)) <==> (exists i :: OccursAt(s[1..], t, i))
  {
    forall i | OccursAt(s, t, i) ensures OccursAt(s[1..], t, i - 1) {
      assert i != 0;
      assert s[1..][i - 1..i - 1 + |t|] == s[i..i + |t|];
    }
    forall i | OccursAt(s[1..], t, i) ensures OccursAt(s, t, i + 1) {
      assert s[1..][i..i + |t|] == s[i + 1..i + 1 + |t|];
    }
  }

  // ---------------------------------------------------------------------------
  // The first run of four decimal digits (`str.extract(r'(\d{4})')`).

  predicate IsDigit(c: char) { '0' <= c <= '9' }

  function DigitValue(c: char): (d: int)
    requires IsDigit(c)
    ensures 0 <= d <= 9
  {
    c as int - '0' as int
  }

  predicate FourDigitsAt(s: string, i: int) {
    0 <= i && i + 4 <= |s| &&
    IsDigit(s[i]) && IsDigit(s[i + 1]) && IsDigit(s[i + 2]) && IsDigit(s[i + 3])
  }

  /** The leftmost position where four digits in a row start, if any. */
  function FirstFourDigitsAt(s: string): (r: Option<nat>)
    ensures r.Some? ==> FourDigitsAt(s, r.value)
    ensures r.Some? ==> forall k :: 0 <= k < r.value ==> !FourDigitsAt(s, k)
    ensures r.None? ==> forall k :: !FourDigitsAt(s, k)
    decreases |s|
  {
    if |s| < 4 then None
    else if FourDigitsAt(s, 0) then Some(0)
    else
      FourDigitsShift(s);
      match FirstFourDigitsAt(s[1..])
      case None => None
      case Some(k) => Some(k + 1)
  }

  lemma FourDigitsShift(s: string)
    requires |s| > 0
    ensures forall k :: 1 <= k ==> (FourDigitsAt(s, k) <==> FourDigitsAt(s[1..], k - 1))
  {
  }

  /** The decimal value of the four digits starting at `i`. */
  function FourDigitValue(s: string, i: nat): (v: int)
    requires FourDigitsAt(s, i)
    ensures 0 <= v <= 9999
  {
    1000 * DigitValue(s[i]) + 100 * DigitValue(s[i + 1]) + 10 * DigitValue(s[i + 2]) + DigitValue(s[i + 3])
  }

  /** The year named by a column header: the value of its first 4-digit run,
      or None when it has none (pandas yields NaN there). */
  function ExtractYear(column: string): (y: Option<int>)
    ensures y.None? <==> forall k :: !FourDigitsAt(column, k)
    ensures y.Some? ==> exists i :: FourDigitsAt(column, i) && y.value == FourDigitValue(column, i) &&
                                    forall k :: 0 <= k < i ==> !FourDigitsAt(column, k)
  {
    match FirstFourDigitsAt(column)
    case None => None
    case Some(i) => Some(FourDigitValue(column, i))
  }

  lemma ExtractYearExample()
    ensures ExtractYear("2022 Population") == Some(2022)
  {
    assert FourDigitsAt("2022 Population", 0);
  }

  lemma ExtractYearLongerRun()
    ensures ExtractYear("12345 Population") == Some(1234)
  {
    assert FourDigitsAt("12345 Population", 0);
  }

  // ---------------------------------------------------------------------------
  // Strictly ascending string sequences (`sorted(series.unique())`).

  predicate StrictlySorted(s: seq<string>) {
    forall i, j :: 0 <= i < j < |s| ==> LexLess(s[i], s[j])
  }

  function InsertUnique(x: string, s: seq<string>): (r: seq<string>)
    requires StrictlySorted(s)
    ensures StrictlySorted(r)
    ensures forall y :: y in r <==> y == x || y in s
  {
    if s == [] then [x]
    else if x == s[0] then s
    else if LexLess(x, s[0]) then
      InsertUniqueHead(x, s);
      [x] + s
    else
      LexLessTotal(x, s[0]);
      var rest := InsertUnique(x, s[1..]);
      InsertUniqueTail(x, s, rest);
      [s[0]] + rest
  }

  lemma InsertUniqueHead(x: string, s: seq<string>)
    requires StrictlySorted(s) && |s| > 0 && LexLess(x, s[0])
    ensures StrictlySorted([x] + s)
  {
    forall j | 0 < j < |s| ensures LexLess(x, s[j]) { LexLessTransitive(x, s[0], s[j]); }
  }

  lemma InsertUniqueTail(x: string, s: seq<string>, rest: seq<string>)
    requires StrictlySorted(s) && |s| > 0 && LexLess(s[0], x)
    requires StrictlySorted(rest) && forall y :: y in rest <==> y == x || y in s[1..]
    ensures StrictlySorted([s[0]] + rest)
  {
    forall j | 0 <= j < |rest| ensures LexLess(s[0], rest[j]) {
      assert rest[j] in rest;
    }
  }

  /** The distinct strings of `names`, ascending. */
  function SortedUnique(names: seq<string>): (r: seq<string>)
    ensures StrictlySorted(r)
    ensures forall y :: y in r <==> y in names
    ensures |r| <= |names|
  {
    if names == [] then []
    else
      var rest := SortedUnique(names[1..]);
      UniqueBound(names[0], rest);
      InsertUnique(names[0], rest)
  }

  lemma UniqueBound(x: string, s: seq<string>)
    requires StrictlySorted(s)
    ensures |InsertUnique(x, s)| <= |s| + 1
  {
    if s != [] && x != s[0] && !LexLess(x, s[0]) {
      LexLessTotal(x, s[0]);
      UniqueBound(x, s[1..]);
    }
  }

  /** A strictly ascending sequence has no duplicates. */
  lemma StrictlySortedDistinct(names: seq<string>)
    requires StrictlySorted(names)
    ensures Distinct(names)
  {
    forall i, j | 0 <= i < j < |names| ensures names[i] != names[j] {
      if names[i] == names[j] {
        LexLessIrreflexive(names[i]);
      }
    }
  }

  /** Two strictly ascending sequences with the same elements are equal. */
  lemma {:induction false} StrictlySortedUnique(a: seq<string>, b: seq<string>)
    requires StrictlySorted(a) && StrictlySorted(b)
    requires forall y :: y in a <==> y in b
    ensures a == b
  {
    assert |a| == 0 || a[0] in a;
    assert |b| == 0 || b[0] in b;
    if a != [] && b != [] {
      assert a[0] in b && b[0] in a;
      if a[0] != b[0] {
        var i :| 0 <= i < |a| && a[i] == b[0];
        var j :| 0 <= j < |b| && b[j] == a[0];
        assert LexLess(a[0], b[0]);
        assert LexLess(b[0], a[0]);
        LexLessAsymmetric(a[0], b[0]);
      }
      forall y ensures y in a[1..] <==> y in b[1..] {
        if y in a[1..] {
          var i :| 1 <= i < |a| && a[i] == y;
          LexLessIrreflexive(a[0]);
          assert y != a[0];
          assert y in b;
        }
        if y in b[1..] {
          var i :| 1 <= i < |b| && b[i] == y;
          LexLessIrreflexive(b[0]);
          assert y != b[0];
          assert y in a;
        }
      }
      StrictlySortedUnique(a[1..], b[1..]);
      assert a == [a[0]] + a[1..] && b == [b[0]] + b[1..];
    }
  }
}
