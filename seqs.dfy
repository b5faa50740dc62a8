/** Generic sequence operations that the dashboard's pandas calls are built from:
    boolean-mask filtering, sorting by a key, `nlargest`/`head`, sums, max and min. */
module Seqs {

  function Min(a: int, b: int): int { if a <= b then a else b }

  // ---------------------------------------------------------------------------
  // Filtering (a boolean mask, `df[mask]`): keeps order, keeps duplicates.

  function Filter<T(!new)>(s: seq<T>, p: T -> bool): (r: seq<T>)
    ensures |r| <= |s|
    ensures forall i :: 0 <= i < |r| ==> p(r[i])
    ensures forall x :: x in r <==> x in s && p(x)
  {
    if s == [] then [] else (if p(s[0]) then [s[0]] else []) + Filter(s[1..], p)
  }

  lemma {:induction false} FilterConcat<T(!new)>(a: seq<T>, b: seq<T>, p: T -> bool)
    ensures Filter(a + b, p) == Filter(a, p) + Filter(b, p)
  {
    if a == [] {
      assert a + b == b;
    } else {
      assert (a + b)[0] == a[0];
      assert (a + b)[1..] == a[1..] + b;
      FilterConcat(a[1..], b, p);
    }
  }

  /** How often a filter keeps a value: as often as the input holds it, or never. */
  lemma {:induction false} FilterMultiplicity<T(!new)>(s: seq<T>, p: T -> bool, x: T)
    ensures multiset(Filter(s, p))[x] == if p(x) then multiset(s)[x] else 0
  {
    if s != [] {
      FilterMultiplicity(s[1..], p, x);
      assert s == [s[0]] + s[1..];
    }
  }

  /** A mask keeps each value exactly as often as the input holds it, if it passes. */
  lemma FilterExact<T(!new)>(s: seq<T>, p: T -> bool)
    ensures forall x :: multiset(Filter(s, p))[x] == if p(x) then multiset(s)[x] else 0
  {
    forall x ensures multiset(Filter(s, p))[x] == if p(x) then multiset(s)[x] else 0 {
      FilterMultiplicity(s, p, x);
    }
  }

  /** Filtering two permutations of each other gives permutations of each other. */
  lemma FilterPermutation<T(!new)>(a: seq<T>, b: seq<T>, p: T -> bool)
    requires multiset(a) == multiset(b)
    ensures multiset(Filter(a, p)) == multiset(Filter(b, p))
    ensures |Filter(a, p)| == |Filter(b, p)|
  {
    forall x ensures multiset(Filter(a, p))[x] == multiset(Filter(b, p))[x] {
      FilterMultiplicity(a, p, x);
      FilterMultiplicity(b, p, x);
    }
    assert multiset(Filter(a, p)) == multiset(Filter(b, p));
    assert |multiset(Filter(a, p))| == |multiset(Filter(b, p))|;
  }

  /** Two masks that agree on every element keep the same elements. */
  lemma {:induction false} FilterExt<T(!new)>(s: seq<T>, p: T -> bool, q: T -> bool)
    requires forall i :: 0 <= i < |s| ==> p(s[i]) == q(s[i])
    ensures Filter(s, p) == Filter(s, q)
  {
    if s != [] {
      assert forall i :: 0 <= i < |s[1..]| ==> s[1..][i] == s[i + 1];
      FilterExt(s[1..], p, q);
    }
  }

  /** Two masks applied one after the other are their conjunction `pq`. */
  lemma {:induction false} FilterFilter<T(!new)>(s: seq<T>, p: T -> bool, q: T -> bool, pq: T -> bool)
    requires forall i :: 0 <= i < |s| ==> pq(s[i]) == (p(s[i]) && q(s[i]))
    ensures Filter(Filter(s, p), q) == Filter(s, pq)
  {
    if s != [] {
      assert forall i :: 0 <= i < |s[1..]| ==> s[1..][i] == s[i + 1];
      FilterFilter(s[1..], p, q, pq);
      FilterConcat(if p(s[0]) then [s[0]] else [], Filter(s[1..], p), q);
    }
  }

  /** Masks that agree position by position on two equally long sequences keep
      equally many elements. */
  lemma {:induction false} FilterCountPointwise<A(!new), B(!new)>(a: seq<A>, b: seq<B>, p: A -> bool, q: B -> bool)
    requires |a| == |b|
    requires forall i :: 0 <= i < |a| ==> p(a[i]) == q(b[i])
    ensures |Filter(a, p)| == |Filter(b, q)|
  {
    if a != [] {
      assert forall i :: 0 <= i < |a[1..]| ==> a[1..][i] == a[i + 1] && b[1..][i] == b[i + 1];
      FilterCountPointwise(a[1..], b[1..], p, q);
    }
  }

  /** A mask that at most position `k` can pass keeps one element or none. */
  lemma {:induction false} FilterSingle<T(!new)>(s: seq<T>, k: nat, p: T -> bool)
    requires k < |s|
    requires forall i :: 0 <= i < |s| && i != k ==> !p(s[i])
    ensures Filter(s, p) == if p(s[k]) then [s[k]] else []
  {
    assert forall i :: 0 <= i < |s[1..]| ==> s[1..][i] == s[i + 1];
    if k == 0 {
      FilterNothing(s[1..], p);
    } else {
      FilterSingle(s[1..], k - 1, p);
    }
  }

  lemma {:induction false} FilterNothing<T(!new)>(s: seq<T>, p: T -> bool)
    requires forall i :: 0 <= i < |s| ==> !p(s[i])
    ensures Filter(s, p) == []
  {
    if s != [] {
      assert forall i :: 0 <= i < |s[1..]| ==> s[1..][i] == s[i + 1];
      FilterNothing(s[1..], p);
    }
  }

  lemma {:induction false} FilterEverything<T(!new)>(s: seq<T>, p: T -> bool)
    requires forall i :: 0 <= i < |s| ==> p(s[i])
    ensures Filter(s, p) == s
  {
    if s != [] {
      assert forall i :: 0 <= i < |s[1..]| ==> s[1..][i] == s[i + 1];
      FilterEverything(s[1..], p);
      assert s == [s[0]] + s[1..];
    }
  }

  /** Sorting a filter's output keeps each kept value's multiplicity. */
  lemma SortByFilterExact<T(!new)>(s: seq<T>, p: T -> bool, key: T -> real)
    ensures forall x :: multiset(SortBy(Filter(s, p), key))[x] == if p(x) then multiset(s)[x] else 0
  {
    FilterExact(s, p);
  }

  /** Extending a prefix by one element extends its filter by that element or nothing. */
  lemma FilterSnoc<T(!new)>(s: seq<T>, i: nat, p: T -> bool)
    requires i < |s|
    ensures Filter(s[..i + 1], p) == Filter(s[..i], p) + (if p(s[i]) then [s[i]] else [])
  {
    assert s[..i + 1] == s[..i] + [s[i]];
    FilterConcat(s[..i], [s[i]], p);
  }

  /** Elements the mask rejects do not change a prefix's filter. */
  lemma {:induction false} FilterSkip<T(!new)>(s: seq<T>, j: nat, i: nat, p: T -> bool)
    requires j <= i <= |s|
    requires forall k :: j <= k < i ==> !p(s[k])
    ensures Filter(s[..i], p) == Filter(s[..j], p)
    decreases i
  {
    if j < i {
      FilterSnoc(s, i - 1, p);
      FilterSkip(s, j, i - 1, p);
    }
  }

  /** The kept elements of a prefix ending at `i`, when `j` is the last kept
      position before `i`. */
  lemma FilterPrefixLastTwo<T(!new)>(s: seq<T>, j: nat, i: nat, p: T -> bool)
    requires j < i < |s| && p(s[j]) && p(s[i])
    requires forall k :: j < k < i ==> !p(s[k])
    ensures Filter(s[..i + 1], p) == Filter(s[..j], p) + [s[j], s[i]]
  {
    var a := Filter(s[..j], p);
    FilterSnoc(s, j, p);
    FilterSkip(s, j + 1, i, p);
    assert Filter(s[..i], p) == a + [s[j]];
    FilterSnoc(s, i, p);
    AppendTwo(a, s[j], s[i]);
  }

  lemma AppendTwo<T>(a: seq<T>, x: T, y: T)
    ensures (a + [x]) + [y] == a + [x, y]
  {
  }

  /** The kept elements of a prefix ending at `i`, when nothing before `i` is kept. */
  lemma FilterPrefixLastOne<T(!new)>(s: seq<T>, i: nat, p: T -> bool)
    requires i < |s| && p(s[i])
    requires forall k :: 0 <= k < i ==> !p(s[k])
    ensures Filter(s[..i + 1], p) == [s[i]]
  {
    FilterSnoc(s, i, p);
    FilterSkip(s, 0, i, p);
    assert s[..0] == [];
  }

  // ---------------------------------------------------------------------------
  // Sorting by a real-valued key (ascending). A descending sort is a sort by the
  // negated key.

  predicate SortedBy<T>(s: seq<T>, key: T -> real) {
    forall i, j :: 0 <= i < j < |s| ==> key(s[i]) <= key(s[j])
  }

  function InsertBy<T>(x: T, s: seq<T>, key: T -> real): (r: seq<T>)
    ensures multiset(r) == multiset(s) + multiset{x}
    ensures |r| == |s| + 1
  {
    if s == [] || key(x) <= key(s[0]) then [x] + s
    else
      assert s == [s[0]] + s[1..];
      [s[0]] + InsertBy(x, s[1..], key)
  }

  lemma {:induction false} InsertBySorted<T>(x: T, s: seq<T>, key: T -> real)
    requires SortedBy(s, key)
    ensures SortedBy(InsertBy(x, s, key), key)
  {
    if s != [] && !(key(x) <= key(s[0])) {
      InsertBySorted(x, s[1..], key);
      var rest := InsertBy(x, s[1..], key);
      forall j | 0 <= j < |rest| ensures key(s[0]) <= key(rest[j]) {
        assert rest[j] in multiset(rest);
        assert rest[j] == x || rest[j] in multiset(s[1..]);
      }
      assert InsertBy(x, s, key) == [s[0]] + rest;
    }
  }

  function SortBy<T>(s: seq<T>, key: T -> real): (r: seq<T>)
    ensures multiset(r) == multiset(s)
    ensures |r| == |s|
    ensures SortedBy(r, key)
  {
    if s == [] then []
    else
      assert s == [s[0]] + s[1..];
      InsertBySorted(s[0], SortBy(s[1..], key), key);
      InsertBy(s[0], SortBy(s[1..], key), key)
  }

  /** Sorting a sequence that is already in order keeps it as it is. */
  lemma {:induction false} SortBySortedIdentity<T>(s: seq<T>, key: T -> real)
    requires SortedBy(s, key)
    ensures SortBy(s, key) == s
  {
    if s != [] {
      SortBySortedIdentity(s[1..], key);
      assert s == [s[0]] + s[1..];
    }
  }

  /** A mask keeps a sorted sequence sorted. */
  lemma {:induction false} FilterSorted<T(!new)>(s: seq<T>, p: T -> bool, key: T -> real)
    requires SortedBy(s, key)
    ensures SortedBy(Filter(s, p), key)
  {
    if s != [] {
      FilterSorted(s[1..], p, key);
      var rest := Filter(s[1..], p);
      forall j | 0 <= j < |rest| ensures key(s[0]) <= key(rest[j]) {
        assert rest[j] in s[1..];
      }
      if p(s[0]) {
        ConsSorted(s[0], rest, key);
      } else {
        assert Filter(s, p) == [] + rest;
      }
    }
  }

  /** A least element put in front of a sorted sequence keeps it sorted. */
  lemma ConsSorted<T>(x: T, rest: seq<T>, key: T -> real)
    requires SortedBy(rest, key)
    requires forall j :: 0 <= j < |rest| ==> key(x) <= key(rest[j])
    ensures SortedBy([x] + rest, key)
  {
    var all := [x] + rest;
    forall i, j | 0 <= i < j < |all| ensures key(all[i]) <= key(all[j]) {
      assert all[j] == rest[j - 1];
      if 0 < i {
        assert all[i] == rest[i - 1];
      }
    }
  }

  /** The `n` elements of `s` with the largest keys, largest first (`nlargest(n)`,
      `sort_values(ascending=False).head(n)`). No order among equal keys is meant. */
  function TopBy<T(!new)>(s: seq<T>, n: nat, key: T -> real): (r: seq<T>)
    ensures |r| == Min(n, |s|)
    ensures multiset(r) <= multiset(s)
    ensures forall i, j :: 0 <= i < j < |r| ==> key(r[j]) <= key(r[i])
    ensures forall x, y :: x in multiset(s) - multiset(r) && y in r ==> key(x) <= key(y)
  {
    var sorted := SortBy(s, x => -key(x));
    var m := Min(n, |s|);
    TopSplit(sorted, m, x => -key(x));
    assert forall x, y :: x in multiset(s) - multiset(sorted[..m]) && y in sorted[..m] ==> -key(y) <= -key(x);
    sorted[..m]
  }

  /** The elements of a sub-multiset are elements of the whole. */
  lemma SubMembers<T>(a: seq<T>, b: seq<T>)
    requires multiset(a) <= multiset(b)
    ensures forall x :: x in a ==> x in b
  {
    forall x | x in a ensures x in b {
      assert x in multiset(a);
    }
  }

  lemma TopSplit<T(!new)>(sorted: seq<T>, m: nat, nkey: T -> real)
    requires SortedBy(sorted, nkey)
    requires m <= |sorted|
    ensures multiset(sorted[..m]) <= multiset(sorted)
    ensures forall x, y :: x in multiset(sorted) - multiset(sorted[..m]) && y in sorted[..m] ==> nkey(y) <= nkey(x)
  {
    assert sorted == sorted[..m] + sorted[m..];
    assert multiset(sorted) == multiset(sorted[..m]) + multiset(sorted[m..]);
    assert multiset(sorted) - multiset(sorted[..m]) == multiset(sorted[m..]);
    forall x, y | x in multiset(sorted) - multiset(sorted[..m]) && y in sorted[..m]
      ensures nkey(y) <= nkey(x)
    {
      assert x in sorted[m..];
      var a :| 0 <= a < |sorted[m..]| && sorted[m..][a] == x;
      var b :| 0 <= b < m && sorted[..m][b] == y;
      assert sorted[b] == y && sorted[m + a] == x;
    }
  }

  // ---------------------------------------------------------------------------
  // Sums.

  function SumOf<T>(s: seq<T>, w: T -> int): int {
    if s == [] then 0 else w(s[0]) + SumOf(s[1..], w)
  }

  function SumOfReal<T>(s: seq<T>, w: T -> real): real {
    if s == [] then 0.0 else w(s[0]) + SumOfReal(s[1..], w)
  }

  lemma {:induction false} SumOfConcat<T>(a: seq<T>, b: seq<T>, w: T -> int)
    ensures SumOf(a + b, w) == SumOf(a, w) + SumOf(b, w)
  {
    if a == [] {
      assert a + b == b;
    } else {
      assert (a + b)[0] == a[0];
      assert (a + b)[1..] == a[1..] + b;
      SumOfConcat(a[1..], b, w);
    }
  }

  /** Sequences whose weights agree position by position have equal sums. */
  lemma {:induction false} SumOfPointwise<A, B>(a: seq<A>, b: seq<B>, w: A -> int, v: B -> int)
    requires |a| == |b|
    requires forall i :: 0 <= i < |a| ==> w(a[i]) == v(b[i])
    ensures SumOf(a, w) == SumOf(b, v)
  {
    if a != [] {
      assert forall i :: 0 <= i < |a[1..]| ==> a[1..][i] == a[i + 1] && b[1..][i] == b[i + 1];
      SumOfPointwise(a[1..], b[1..], w, v);
    }
  }

  lemma {:induction false} SumOfInsertBy<T>(x: T, s: seq<T>, key: T -> real, w: T -> int)
    ensures SumOf(InsertBy(x, s, key), w) == w(x) + SumOf(s, w)
  {
    if s != [] && !(key(x) <= key(s[0])) {
      SumOfInsertBy(x, s[1..], key, w);
    }
  }

  /** Re-ordering by a sort does not change a sum. */
  lemma {:induction false} SumOfSortBy<T>(s: seq<T>, key: T -> real, w: T -> int)
    ensures SumOf(SortBy(s, key), w) == SumOf(s, w)
  {
    if s != [] {
      SumOfSortBy(s[1..], key, w);
      SumOfInsertBy(s[0], SortBy(s[1..], key), key, w);
    }
  }

  /** A sum of ones counts. */
  lemma {:induction false} SumOfOnes<T>(s: seq<T>, w: T -> int)
    requires forall i :: 0 <= i < |s| ==> w(s[i]) == 1
    ensures SumOf(s, w) == |s|
  {
    if s != [] {
      assert forall i :: 0 <= i < |s[1..]| ==> s[1..][i] == s[i + 1];
      SumOfOnes(s[1..], w);
    }
  }

  // ---------------------------------------------------------------------------
  // Grouping (`groupby(key)[w].sum()`): one group per key, the groups partition
  // the input.

  /** The mask `key(x) == k`: the members of group `k`. */
  function KeyIs<T, U(==)>(key: T -> U, k: U): T -> bool {
    x => key(x) == k
  }

  predicate Distinct<U(==)>(ks: seq<U>) {
    forall i, j :: 0 <= i < j < |ks| ==> ks[i] != ks[j]
  }

  /** The group sums over the keys `ks`, added up. */
  function SumOverKeys<T(!new), U(==)>(s: seq<T>, ks: seq<U>, key: T -> U, w: T -> int): int {
    if ks == [] then 0 else SumOf(Filter(s, KeyIs(key, ks[0])), w) + SumOverKeys(s, ks[1..], key, w)
  }

  lemma {:induction false} SumOverKeysNil<T(!new), U>(ks: seq<U>, key: T -> U, w: T -> int)
    ensures SumOverKeys([], ks, key, w) == 0
  {
    if ks != [] {
      SumOverKeysNil(ks[1..], key, w);
    }
  }

  lemma {:induction false} SumOverKeysCons<T(!new), U>(x: T, s: seq<T>, ks: seq<U>, key: T -> U, w: T -> int)
    requires Distinct(ks)
    ensures SumOverKeys([x] + s, ks, key, w) == SumOverKeys(s, ks, key, w) + (if key(x) in ks then w(x) else 0)
  {
    if ks != [] {
      assert Distinct(ks[1..]) by {
        forall i, j | 0 <= i < j < |ks[1..]| ensures ks[1..][i] != ks[1..][j] {
          assert ks[1..][i] == ks[i + 1] && ks[1..][j] == ks[j + 1];
        }
      }
      SumOverKeysCons(x, s, ks[1..], key, w);
      assert ([x] + s)[0] == x && ([x] + s)[1..] == s;
      var g := KeyIs(key, ks[0]);
      var head := if g(x) then [x] else [];
      assert Filter([x] + s, g) == head + Filter(s, g);
      SumOfConcat(head, Filter(s, g), w);
      assert SumOf(head, w) == if g(x) then w(x) else 0;
      assert key(x) in ks <==> key(x) == ks[0] || key(x) in ks[1..];
    }
  }

  /** A sequence holding one value per key, each that key's group sum, adds up
      to the group sums. */
  lemma {:induction false} SumOverKeysPointwise<T(!new), U, V>(s: seq<T>, ks: seq<U>, key: T -> U, w: T -> int, vs: seq<V>, v: V -> int)
    requires |vs| == |ks|
    requires forall i :: 0 <= i < |ks| ==> v(vs[i]) == SumOf(Filter(s, KeyIs(key, ks[i])), w)
    ensures SumOf(vs, v) == SumOverKeys(s, ks, key, w)
  {
    if ks != [] {
      assert forall i :: 0 <= i < |ks[1..]| ==> ks[1..][i] == ks[i + 1] && vs[1..][i] == vs[i + 1];
      SumOverKeysPointwise(s, ks[1..], key, w, vs[1..], v);
    }
  }

  /** Group sums over distinct keys that cover every element add up to the total. */
  lemma {:induction false} SumOverKeysPartition<T(!new), U>(s: seq<T>, ks: seq<U>, key: T -> U, w: T -> int)
    requires Distinct(ks)
    requires forall i :: 0 <= i < |s| ==> key(s[i]) in ks
    ensures SumOverKeys(s, ks, key, w) == SumOf(s, w)
  {
    if s == [] {
      SumOverKeysNil(ks, key, w);
    } else {
      assert s == [s[0]] + s[1..];
      assert forall i :: 0 <= i < |s[1..]| ==> s[1..][i] == s[i + 1];
      SumOverKeysPartition(s[1..], ks, key, w);
      SumOverKeysCons(s[0], s[1..], ks, key, w);
    }
  }

  lemma MulMono(a: real, b: real, n: real)
    requires a <= b && 0.0 <= n
    ensures a * n <= b * n
  {
  }

  lemma MulStrict(a: real, b: real, n: real)
    requires a < b && 0.0 < n
    ensures a * n < b * n
  {
  }

  lemma MulSucc(x: real, n: real)
    ensures x * (n + 1.0) == x + x * n
  {
  }

  /** A lower bound of every weight bounds the sum from below, |s| times over. */
  lemma {:induction false} SumOfRealAtLeast<T>(s: seq<T>, g: T -> real, m: real)
    requires forall i :: 0 <= i < |s| ==> m <= g(s[i])
    ensures m * (|s| as real) <= SumOfReal(s, g)
  {
    if s != [] {
      assert forall i :: 0 <= i < |s[1..]| ==> s[1..][i] == s[i + 1];
      SumOfRealAtLeast(s[1..], g, m);
      MulSucc(m, (|s| - 1) as real);
    }
  }

  /** An upper bound of every weight bounds the sum from above, |s| times over. */
  lemma {:induction false} SumOfRealAtMost<T>(s: seq<T>, g: T -> real, m: real)
    requires forall i :: 0 <= i < |s| ==> g(s[i]) <= m
    ensures SumOfReal(s, g) <= m * (|s| as real)
  {
    if s != [] {
      assert forall i :: 0 <= i < |s[1..]| ==> s[1..][i] == s[i + 1];
      SumOfRealAtMost(s[1..], g, m);
      MulSucc(m, (|s| - 1) as real);
    }
  }

  /** Dividing both sides of `m * n <= x` by a positive `n`. */
  lemma DivLower(x: real, n: real, m: real)
    requires n > 0.0 && m * n <= x
    ensures m <= x / n
  {
    assert x / n * n == x;
    if x / n < m {
      MulStrict(x / n, m, n);
    }
  }

  lemma DivUpper(x: real, n: real, m: real)
    requires n > 0.0 && x <= m * n
    ensures x / n <= m
  {
    assert x / n * n == x;
    if m < x / n {
      MulStrict(m, x / n, n);
    }
  }

  /** The position of a smallest weight (the first one). */
  function ArgMin<T>(s: seq<T>, g: T -> real): (k: nat)
    requires |s| > 0
    ensures k < |s|
    ensures forall i :: 0 <= i < |s| ==> g(s[k]) <= g(s[i])
  {
    if |s| == 1 then 0
    else
      var k := ArgMin(s[1..], g) + 1;
      assert forall i :: 1 <= i < |s| ==> s[i] == s[1..][i - 1];
      if g(s[0]) <= g(s[k]) then 0 else k
  }

  /** The position of a largest weight (the first one, as `idxmax`). */
  function ArgMax<T>(s: seq<T>, g: T -> real): (k: nat)
    requires |s| > 0
    ensures k < |s|
    ensures forall i :: 0 <= i < |s| ==> g(s[i]) <= g(s[k])
    ensures forall i :: 0 <= i < k ==> g(s[i]) < g(s[k])
  {
    if |s| == 1 then 0
    else
      var k := ArgMax(s[1..], g) + 1;
      assert forall i :: 1 <= i < |s| ==> s[i] == s[1..][i - 1];
      if g(s[0]) >= g(s[k]) then 0 else k
  }

  /** The mean is at least the smallest weight `g(s[k])`. */
  lemma MeanAbove<T>(s: seq<T>, g: T -> real, k: nat)
    requires k < |s|
    requires forall i :: 0 <= i < |s| ==> g(s[k]) <= g(s[i])
    ensures g(s[k]) <= SumOfReal(s, g) / (|s| as real)
  {
    SumOfRealAtLeast(s, g, g(s[k]));
    DivLower(SumOfReal(s, g), |s| as real, g(s[k]));
  }

  /** The mean is at most the largest weight `g(s[k])`. */
  lemma MeanBelow<T>(s: seq<T>, g: T -> real, k: nat)
    requires k < |s|
    requires forall i :: 0 <= i < |s| ==> g(s[i]) <= g(s[k])
    ensures SumOfReal(s, g) / (|s| as real) <= g(s[k])
  {
    SumOfRealAtMost(s, g, g(s[k]));
    DivUpper(SumOfReal(s, g), |s| as real, g(s[k]));
  }

  /** The mean of a non-empty sequence of weights lies between its extremes. */
  lemma MeanBetween<T>(s: seq<T>, g: T -> real)
    requires |s| > 0
    ensures g(s[ArgMin(s, g)]) <= SumOfReal(s, g) / (|s| as real) <= g(s[ArgMax(s, g)])
  {
    MeanAbove(s, g, ArgMin(s, g));
    MeanBelow(s, g, ArgMax(s, g));
  }

  // ---------------------------------------------------------------------------
  // Distinct keys survive a sort.

  predicate DistinctBy<T, U(==)>(s: seq<T>, f: T -> U) {
    forall i, j :: 0 <= i < j < |s| ==> f(s[i]) != f(s[j])
  }

  lemma {:induction false} DistinctByInsertBy<T, U>(x: T, s: seq<T>, key: T -> real, f: T -> U)
    requires DistinctBy(s, f)
    requires forall y :: y in s ==> f(y) != f(x)
    ensures DistinctBy(InsertBy(x, s, key), f)
  {
    if s != [] && !(key(x) <= key(s[0])) {
      DistinctByInsertBy(x, s[1..], key, f);
      var rest := InsertBy(x, s[1..], key);
      forall j | 0 <= j < |rest| ensures f(s[0]) != f(rest[j]) {
        assert rest[j] in multiset(rest);
        assert rest[j] == x || rest[j] in s[1..];
      }
    }
  }

  lemma {:induction false} DistinctBySortBy<T, U>(s: seq<T>, key: T -> real, f: T -> U)
    requires DistinctBy(s, f)
    ensures DistinctBy(SortBy(s, key), f)
  {
    if s != [] {
      DistinctBySortBy(s[1..], key, f);
      var sorted := SortBy(s[1..], key);
      forall y | y in sorted ensures f(y) != f(s[0]) {
        assert y in multiset(sorted);
        var k :| 0 <= k < |s[1..]| && s[1..][k] == y;
        assert s[k + 1] == y;
      }
      DistinctByInsertBy(s[0], sorted, key, f);
    }
  }

  // ---------------------------------------------------------------------------
  // Extremes of a non-empty sequence (`Series.max()` / `Series.min()`).

  function MaxOf(s: seq<int>): (m: int)
    requires |s| > 0
    ensures m in s
    ensures forall i :: 0 <= i < |s| ==> s[i] <= m
  {
    if |s| == 1 then s[0]
    else var rest := MaxOf(s[1..]); if s[0] >= rest then s[0] else rest
  }

  function MinOf(s: seq<int>): (m: int)
    requires |s| > 0
    ensures m in s
    ensures forall i :: 0 <= i < |s| ==> m <= s[i]
  {
    if |s| == 1 then s[0]
    else var rest := MinOf(s[1..]); if s[0] <= rest then s[0] else rest
  }
}
