/** The queries of pages/2_Compare_Countries.py on `df_long_with_world`: the
    country list, the selection and year-range filter, the growth comparison,
    the Kenya/World ratio and its statistics, and the per-country summary. */
module CompareCountries {
  import opened Wrappers
  import opened Seqs
  import opened Strings
  import opened Table
  import opened Transform
  import opened TransformProps

  // ---------------------------------------------------------------------------
  // The country list (line 18).

  /** `all_countries`: the distinct Countries, ascending. */
  function AllCountries(combined: seq<Row>): (names: seq<string>)
    ensures StrictlySorted(names) && Distinct(names)
    ensures forall c :: c in names <==> c in CountryColumn(combined)
  {
    var names := SortedUnique(CountryColumn(combined));
    StrictlySortedDistinct(names);
    names
  }

  /** A name is listed exactly when some row has that Country. */
  lemma AllCountriesMembers(combined: seq<Row>, c: string)
    ensures c in AllCountries(combined) <==> exists r :: r in combined && r.country == c
  {
    CountryColumnMembers(combined, c);
  }

  /** Once `df_long` has a row, the list offers World. */
  lemma AllCountriesHasWorld(t: RawTable)
    requires TransformData(t).Some? && |Long(t)| > 0
    ensures World in AllCountries(TransformData(t).value.combined)
  {
    var long := Long(t);
    var w := WorldRows(long);
    CombinedShape(t);
    WorldRowsShape(long);
    assert YearColumn(long)[0] in YearColumn(long);
    assert long[0].year in SortedYears(long);
    assert w[0] in long + w;
    AllCountriesMembers(long + w, World);
  }

  // ---------------------------------------------------------------------------
  // The selection and year-range filter (lines 51-55). The growth comparison
  // (line 80) is `GrowthDefined` of these rows.

  /** The mask of lines 52-54. */
  function Selected(sel: seq<string>, lo: int, hi: int): Row -> bool {
    (r: Row) => r.country in sel && lo <= r.year <= hi
  }

  /** `comparison_df`: the selected countries' rows with Year in [lo, hi], by
      non-decreasing Year (no order among rows of one year is meant). */
  function ComparisonRows(combined: seq<Row>, sel: seq<string>, lo: int, hi: int): (rows: seq<Row>)
    ensures forall r :: multiset(rows)[r] == if Selected(sel, lo, hi)(r) then multiset(combined)[r] else 0
    ensures forall i, j :: 0 <= i < j < |rows| ==> rows[i].year <= rows[j].year
  {
    var rows := SortBy(Filter(combined, Selected(sel, lo, hi)), YearKey);
    SortByFilterExact(combined, Selected(sel, lo, hi), YearKey);
    assert forall i, j :: 0 <= i < j < |rows| ==> YearKey(rows[i]) <= YearKey(rows[j]);
    rows
  }

  /** `comparison_df` keeps each row of a selected country with Year in
      [lo, hi], as often as it occurs, and no other row. */
  lemma ComparisonRowsExact(combined: seq<Row>, sel: seq<string>, lo: int, hi: int)
    ensures forall r :: multiset(ComparisonRows(combined, sel, lo, hi))[r] ==
                        if r.country in sel && lo <= r.year <= hi then multiset(combined)[r] else 0
  {
    forall r: Row ensures multiset(ComparisonRows(combined, sel, lo, hi))[r] ==
                          if r.country in sel && lo <= r.year <= hi then multiset(combined)[r] else 0
    {
      assert Selected(sel, lo, hi)(r) == (r.country in sel && lo <= r.year <= hi);
    }
  }

  // ---------------------------------------------------------------------------
  // The Kenya/World ratio (lines 97-112): `pd.merge(kenya, world, on="Year")`,
  // an inner join that keeps the left rows' order and, for each, every right
  // row of the same Year.

  /** One joined row; `ratio` is Kenya over World times 100, None for a zero
      World population. */
  datatype RatioRow = RatioRow(year: int, kenya: int, world: int, ratio: Option<real>)

  function JoinRow(k: Row, w: Row): RatioRow {
    RatioRow(k.year, k.population, w.population, Percent(k.population, w.population))
  }

  /** The joined rows of one left row. */
  function JoinOne(k: Row, right: seq<Row>): (j: seq<RatioRow>)
    ensures |j| == |ByYear(right, k.year)|
    ensures forall i :: 0 <= i < |j| ==> j[i] == JoinRow(k, ByYear(right, k.year)[i])
  {
    var m := ByYear(right, k.year);
    seq(|m|, i requires 0 <= i < |m| => JoinRow(k, m[i]))
  }

  function InnerJoin(left: seq<Row>, right: seq<Row>): seq<RatioRow> {
    if left == [] then [] else JoinOne(left[0], right) + InnerJoin(left[1..], right)
  }

  lemma JoinOneMembers(k: Row, right: seq<Row>)
    ensures forall x :: x in JoinOne(k, right) <==> exists w :: w in right && w.year == k.year && x == JoinRow(k, w)
  {
    var m := ByYear(right, k.year);
    ByYearMembers(right, k.year);
    forall x ensures x in JoinOne(k, right) <==> exists w :: w in right && w.year == k.year && x == JoinRow(k, w) {
      if x in JoinOne(k, right) {
        var i :| 0 <= i < |m| && JoinOne(k, right)[i] == x;
        assert m[i] in m;
      }
      if w :| w in right && w.year == k.year && x == JoinRow(k, w) {
        assert w in m;
        var i :| 0 <= i < |m| && m[i] == w;
        assert JoinOne(k, right)[i] == x;
      }
    }
  }

  /** The join holds exactly the pairs of a left and a right row with equal Years. */
  lemma {:induction false} InnerJoinMembers(left: seq<Row>, right: seq<Row>)
    ensures forall x :: x in InnerJoin(left, right) <==>
      exists k, w :: k in left && w in right && k.year == w.year && x == JoinRow(k, w)
  {
    if left != [] {
      InnerJoinMembers(left[1..], right);
      JoinOneMembers(left[0], right);
      forall x ensures x in InnerJoin(left, right) <==>
        exists k, w :: k in left && w in right && k.year == w.year && x == JoinRow(k, w)
      {
        if k, w :| k in left && w in right && k.year == w.year && x == JoinRow(k, w) {
          if k != left[0] {
            assert k in left[1..];
          }
        }
      }
    }
  }

  /** The joined Years are exactly the Years both sides have. */
  lemma InnerJoinYears(left: seq<Row>, right: seq<Row>, y: int)
    ensures (exists x :: x in InnerJoin(left, right) && x.year == y) <==>
      (exists k :: k in left && k.year == y) && (exists w :: w in right && w.year == y)
  {
    InnerJoinMembers(left, right);
    if k, w :| k in left && w in right && k.year == y && w.year == y {
      assert JoinRow(k, w) in InnerJoin(left, right);
    }
  }

  /** A left side in Year order gives a join in Year order. */
  lemma {:induction false} InnerJoinSorted(left: seq<Row>, right: seq<Row>)
    requires forall i, j :: 0 <= i < j < |left| ==> left[i].year <= left[j].year
    ensures forall i, j :: 0 <= i < j < |InnerJoin(left, right)| ==>
      InnerJoin(left, right)[i].year <= InnerJoin(left, right)[j].year
  {
    if left != [] {
      InnerJoinSorted(left[1..], right);
      InnerJoinMembers(left[1..], right);
      var head := JoinOne(left[0], right);
      var rest := InnerJoin(left[1..], right);
      forall j | 0 <= j < |rest| ensures left[0].year <= rest[j].year {
        assert rest[j] in rest;
        var k, w :| k in left[1..] && w in right && k.year == w.year && rest[j] == JoinRow(k, w);
        var l :| 0 <= l < |left[1..]| && left[1..][l] == k;
        assert left[l + 1] == k;
      }
      var all := head + rest;
      forall i, j | 0 <= i < j < |all| ensures all[i].year <= all[j].year {
        if j < |head| {
          assert all[i] == head[i] && all[j] == head[j];
        } else if i >= |head| {
          assert all[i] == rest[i - |head|] && all[j] == rest[j - |head|];
        } else {
          assert all[i] == head[i] && all[j] == rest[j - |head|];
        }
      }
    }
  }

  /** `ratio_data`: Kenya's rows of `comparison_df` joined with World's. */
  function RatioData(rows: seq<Row>): seq<RatioRow> {
    InnerJoin(OfCountry(rows, Kenya), OfCountry(rows, World))
  }

  /** Each ratio row pairs a Kenya row with the World row of the same Year,
      and its ratio is Kenya's population over World's times 100. */
  lemma RatioDataMembers(rows: seq<Row>)
    ensures forall x :: x in RatioData(rows) <==>
      exists k, w :: k in rows && k.country == Kenya && w in rows && w.country == World && k.year == w.year &&
                     x == JoinRow(k, w)
    ensures forall x :: x in RatioData(rows) ==> x.ratio == Percent(x.kenya, x.world)
  {
    OfCountryMembers(rows, Kenya);
    OfCountryMembers(rows, World);
    InnerJoinMembers(OfCountry(rows, Kenya), OfCountry(rows, World));
  }

  // ---------------------------------------------------------------------------
  // The ratio statistics (lines 130-137).

  datatype RatioStat = RatioStat(value: real, year: int)

  /** `idxmax` over the defined ratios: the first row holding the largest one. */
  function MaxRatioAt(ratio: seq<RatioRow>): (k: Option<nat>)
    ensures k.None? <==> forall i :: 0 <= i < |ratio| ==> ratio[i].ratio.None?
    ensures k.Some? ==> k.value < |ratio| && ratio[k.value].ratio.Some?
    ensures k.Some? ==> forall i :: 0 <= i < |ratio| && ratio[i].ratio.Some? ==>
      ratio[i].ratio.value <= ratio[k.value].ratio.value
    ensures k.Some? ==> forall i :: 0 <= i < k.value && ratio[i].ratio.Some? ==>
      ratio[i].ratio.value < ratio[k.value].ratio.value
  {
    if ratio == [] then None
    else
      assert forall i :: 1 <= i < |ratio| ==> ratio[i] == ratio[1..][i - 1];
      match MaxRatioAt(ratio[1..])
      case None => if ratio[0].ratio.None? then None else Some(0)
      case Some(j) =>
        if ratio[0].ratio.Some? && ratio[0].ratio.value >= ratio[j + 1].ratio.value then Some(0) else Some(j + 1)
  }

  /** "Highest Ratio" and its year. */
  function HighestRatio(ratio: seq<RatioRow>): (h: Option<RatioStat>)
    ensures h.None? <==> forall x :: x in ratio ==> x.ratio.None?
    ensures h.Some? ==> exists x :: x in ratio && x.ratio == Some(h.value.value) && x.year == h.value.year
    ensures h.Some? ==> forall x :: x in ratio && x.ratio.Some? ==> x.ratio.value <= h.value.value
  {
    match MaxRatioAt(ratio)
    case None => None
    case Some(k) =>
      assert ratio[k] in ratio;
      Some(RatioStat(ratio[k].ratio.value, ratio[k].year))
  }

  /** "Current Ratio": the last joined row. */
  function CurrentRatio(ratio: seq<RatioRow>): (c: Option<RatioRow>)
    ensures c.Some? <==> |ratio| > 0
    ensures c.Some? ==> c.value == ratio[|ratio| - 1]
  {
    if ratio == [] then None else Some(ratio[|ratio| - 1])
  }

  /** On rows in Year order the joined rows are in Year order too. */
  lemma RatioDataSorted(rows: seq<Row>)
    requires SortedBy(rows, YearKey)
    ensures forall i, j :: 0 <= i < j < |RatioData(rows)| ==> RatioData(rows)[i].year <= RatioData(rows)[j].year
  {
    var kenya := OfCountry(rows, Kenya);
    FilterSorted(rows, KeyIs(CountryOf, Kenya), YearKey);
    assert forall i, j :: 0 <= i < j < |kenya| ==> YearKey(kenya[i]) <= YearKey(kenya[j]);
    InnerJoinSorted(kenya, OfCountry(rows, World));
  }

  /** On `comparison_df` the last joined row is the latest joined Year. */
  lemma CurrentRatioIsLatest(combined: seq<Row>, sel: seq<string>, lo: int, hi: int)
    requires |RatioData(ComparisonRows(combined, sel, lo, hi))| > 0
    ensures forall x :: x in RatioData(ComparisonRows(combined, sel, lo, hi)) ==>
      x.year <= CurrentRatio(RatioData(ComparisonRows(combined, sel, lo, hi))).value.year
  {
    var rows := ComparisonRows(combined, sel, lo, hi);
    assert SortedBy(rows, YearKey) by {
      forall i, j | 0 <= i < j < |rows| ensures YearKey(rows[i]) <= YearKey(rows[j]) { }
    }
    RatioDataSorted(rows);
    LastIsLatest(RatioData(rows));
  }

  lemma LastIsLatest(ratio: seq<RatioRow>)
    requires |ratio| > 0
    requires forall i, j :: 0 <= i < j < |ratio| ==> ratio[i].year <= ratio[j].year
    ensures forall x :: x in ratio ==> x.year <= ratio[|ratio| - 1].year
  {
    forall x | x in ratio ensures x.year <= ratio[|ratio| - 1].year {
      var i :| 0 <= i < |ratio| && ratio[i] == x;
    }
  }

  // ---------------------------------------------------------------------------
  // The summary table (lines 154-164).

  /** One summary row. Its Growth column is computed from its own two
      population columns; None when the smallest population is zero. */
  datatype Summary = Summary(country: string, latestYear: int, latestPopulation: int, earliestPopulation: int)
  {
    function Growth(): Option<real> {
      Percent(latestPopulation - earliestPopulation, earliestPopulation)
    }
  }

  /** The summary row of a country that has rows. */
  function SummaryOf(rows: seq<Row>, c: string): (s: Summary)
    requires |OfCountry(rows, c)| > 0
    ensures s.country == c
  {
    var cd := OfCountry(rows, c);
    var most := MaxOf(PopulationColumn(cd));
    var least := MinOf(PopulationColumn(cd));
    Summary(c, MaxOf(YearColumn(cd)), most, least)
  }

  /** "Latest Year" is the largest Year of the country's rows. */
  lemma SummaryLatestYear(rows: seq<Row>, c: string)
    requires |OfCountry(rows, c)| > 0
    ensures exists r :: r in rows && r.country == c && r.year == SummaryOf(rows, c).latestYear
    ensures forall r :: r in rows && r.country == c ==> r.year <= SummaryOf(rows, c).latestYear
  {
    OfCountryMembers(rows, c);
    YearMax(OfCountry(rows, c));
  }

  /** "Latest" and "Earliest Population" are the largest and smallest
      Population of the country's rows. */
  lemma SummaryPopulations(rows: seq<Row>, c: string)
    requires |OfCountry(rows, c)| > 0
    ensures var s := SummaryOf(rows, c);
      (exists r :: r in rows && r.country == c && r.population == s.latestPopulation) &&
      (exists r :: r in rows && r.country == c && r.population == s.earliestPopulation) &&
      (forall r :: r in rows && r.country == c ==> s.earliestPopulation <= r.population <= s.latestPopulation)
  {
    var cd := OfCountry(rows, c);
    assert SummaryOf(rows, c).latestPopulation == MaxOf(PopulationColumn(cd));
    assert SummaryOf(rows, c).earliestPopulation == MinOf(PopulationColumn(cd));
    OfCountryMembers(rows, c);
    PopulationRange(cd);
  }

  /** The summary growth is never negative once the smallest Population is positive. */
  lemma SummaryGrowth(rows: seq<Row>, c: string)
    requires |OfCountry(rows, c)| > 0
    ensures var s := SummaryOf(rows, c);
      s.earliestPopulation > 0 ==> s.Growth().Some? && s.Growth().value >= 0.0
  {
    SummaryPopulations(rows, c);
    assert OfCountry(rows, c)[0] in OfCountry(rows, c);
    SummaryGrowthSign(SummaryOf(rows, c));
  }

  /** Growth is the change from the smallest to the largest population in
      percent of the smallest, so it is non-negative over a positive smallest one. */
  lemma SummaryGrowthSign(s: Summary)
    requires s.latestPopulation >= s.earliestPopulation
    ensures s.Growth().Some? <==> s.earliestPopulation != 0
    ensures s.earliestPopulation != 0 ==>
      s.Growth().value * (s.earliestPopulation as real) == ((s.latestPopulation - s.earliestPopulation) as real) * 100.0
    ensures s.earliestPopulation > 0 ==> s.Growth().value >= 0.0
  {
    if s.earliestPopulation != 0 {
      PercentScaled(s.latestPopulation - s.earliestPopulation, s.earliestPopulation);
    }
    if s.earliestPopulation > 0 {
      PercentSign(s.latestPopulation - s.earliestPopulation, s.earliestPopulation);
    }
  }

  /** What the loop builds: a row for each selected country that has rows, in
      selection order. */
  function Summaries(rows: seq<Row>, sel: seq<string>): seq<Summary> {
    if sel == [] then []
    else
      var c := sel[|sel| - 1];
      Summaries(rows, sel[..|sel| - 1]) + (if |OfCountry(rows, c)| > 0 then [SummaryOf(rows, c)] else [])
  }

  /** The `for country in selected_countries` loop. */
  method SummaryTable(rows: seq<Row>, sel: seq<string>) returns (summary: seq<Summary>)
    ensures summary == Summaries(rows, sel)
  {
    summary := [];
    var i := 0;
    while i < |sel|
      invariant 0 <= i <= |sel|
      invariant summary == Summaries(rows, sel[..i])
    {
      var country := sel[i];
      var countryData := OfCountry(rows, country);
      if |countryData| > 0 {
        summary := summary + [SummaryOf(rows, country)];
      }
      assert sel[..i + 1][..i] == sel[..i] && sel[..i + 1][i] == country;
      i := i + 1;
    }
    assert sel[..|sel|] == sel;
  }

  /** The table has one row per selected country with rows and nothing else. */
  lemma {:induction false} SummariesMembers(rows: seq<Row>, sel: seq<string>)
    ensures forall s :: s in Summaries(rows, sel) <==>
      s.country in sel && |OfCountry(rows, s.country)| > 0 && s == SummaryOf(rows, s.country)
    ensures |Summaries(rows, sel)| <= |sel|
  {
    if sel != [] {
      var init := sel[..|sel| - 1];
      var c := sel[|sel| - 1];
      SummariesMembers(rows, init);
      assert sel == init + [c];
      forall s ensures s in Summaries(rows, sel) <==>
        s.country in sel && |OfCountry(rows, s.country)| > 0 && s == SummaryOf(rows, s.country)
      {
        if s.country in sel && s.country != c {
          assert s.country in init;
        }
      }
    }
  }

  // ---------------------------------------------------------------------------
  // The page as a whole.

  /** The ratio section is shown only with the toggle on and both Kenya and
      World selected (line 97). */
  predicate ShowsRatio(showRatio: bool, sel: seq<string>) {
    showRatio && Kenya in sel && World in sel
  }

  datatype Comparison = Comparison(rows: seq<Row>, growth: seq<Row>, ratio: Option<seq<RatioRow>>, summary: seq<Summary>)

  /** What the page computes; nothing at all for an empty selection (lines 30-31). */
  function ComparePage(combined: seq<Row>, sel: seq<string>, lo: int, hi: int, showRatio: bool): (out: Option<Comparison>)
    ensures out.None? <==> |sel| == 0
    ensures out.Some? ==> (out.value.ratio.Some? <==> ShowsRatio(showRatio, sel))
    ensures out.Some? ==> out.value.rows == ComparisonRows(combined, sel, lo, hi)
    ensures out.Some? ==> out.value.growth == GrowthDefined(out.value.rows)
    ensures out.Some? && out.value.ratio.Some? ==> out.value.ratio.value == RatioData(out.value.rows)
    ensures out.Some? ==> out.value.summary == Summaries(out.value.rows, sel)
  {
    if sel == [] then None
    else
      var rows := ComparisonRows(combined, sel, lo, hi);
      Some(Comparison(rows, GrowthDefined(rows),
                      if ShowsRatio(showRatio, sel) then Some(RatioData(rows)) else None,
                      Summaries(rows, sel)))
  }

  /** The growth comparison (`GrowthDefined` of `comparison_df`, line 80) holds
      exactly the rows of a selected Country with Year in range and a defined
      rate, by non-decreasing Year. */
  lemma GrowthComparisonRows(combined: seq<Row>, sel: seq<string>, lo: int, hi: int)
    ensures var g := GrowthDefined(ComparisonRows(combined, sel, lo, hi));
      (forall r :: multiset(g)[r] ==
         if r.growth.Some? && r.country in sel && lo <= r.year <= hi then multiset(combined)[r] else 0) &&
      forall i, j :: 0 <= i < j < |g| ==> g[i].year <= g[j].year
  {
    var rows := ComparisonRows(combined, sel, lo, hi);
    var g := GrowthDefined(rows);
    assert SortedBy(rows, YearKey) by {
      forall i, j | 0 <= i < j < |rows| ensures YearKey(rows[i]) <= YearKey(rows[j]) { }
    }
    GrowthDefinedExact(rows);
    ComparisonRowsExact(combined, sel, lo, hi);
    forall r: Row ensures multiset(g)[r] == if r.growth.Some? && r.country in sel && lo <= r.year <= hi then multiset(combined)[r] else 0 {
      assert multiset(g)[r] == if r.growth.Some? then multiset(rows)[r] else 0;
    }
    forall i, j | 0 <= i < j < |g| ensures g[i].year <= g[j].year {
      assert YearKey(g[i]) <= YearKey(g[j]);
    }
  }
}
