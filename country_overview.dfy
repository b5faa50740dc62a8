/** The Country Overview page (pages/1_Country_Overview.py): the continent and
    country pickers, one country's rows in a year range, and the metrics drawn
    from the first and last of those rows. `long` is `df_long` and `combined`
    is `df_long_with_world`. */
module CountryOverview {
  import opened Wrappers
  import opened Seqs
  import opened Strings
  import opened Table
  import opened Transform
  import opened TransformProps

  /** The first entry of the continent picker, meaning "no continent filter". */
  const AllContinents: string := "All Continents"

  // ---------------------------------------------------------------------------
  // The pickers (lines 19-32).

  /** `sorted(df_long['Continent'].unique())`. */
  function Continents(long: seq<Row>): (names: seq<string>)
    ensures StrictlySorted(names) && Distinct(names)
    ensures forall c :: c in names <==> exists r :: r in long && r.continent == c
  {
    var names := SortedUnique(ContinentColumn(long));
    StrictlySortedDistinct(names);
    assert forall c :: c in names <==> exists r :: r in long && r.continent == c by {
      forall c ensures c in names <==> exists r :: r in long && r.continent == c {
        if c in names {
          var i :| 0 <= i < |long| && ContinentColumn(long)[i] == c;
          assert long[i] in long;
        }
        if r :| r in long && r.continent == c {
          var i :| 0 <= i < |long| && long[i] == r;
          assert ContinentColumn(long)[i] == c;
        }
      }
    }
    names
  }

  /** The continent list is built from `df_long`, so it offers World only if a
      raw record names World as its continent. */
  lemma ContinentsHaveNoWorld(t: RawTable)
    requires TransformData(t).Some?
    requires forall i :: 0 <= i < |t.records| ==> t.records[i].continent != World
    ensures World !in Continents(Long(t))
  {
    LongRowsFromCells(t);
    forall r | r in Long(t) ensures r.continent != World {
      var i, c :| 0 <= i < |t.records| && c in YearColumns(t.columns) && FromCell(t.records[i], c, r);
    }
  }

  /** The country list for the chosen continent, built from `df_long_with_world`:
      every Country for "All Continents", otherwise the Countries of the rows
      whose Continent is the choice; sorted and without repeats. */
  function CountryChoices(combined: seq<Row>, continent: string): (names: seq<string>)
    ensures StrictlySorted(names) && Distinct(names)
  {
    var names := if continent == AllContinents
                 then SortedUnique(CountryColumn(combined))
                 else SortedUnique(CountryColumn(InContinent(combined, continent)));
    StrictlySortedDistinct(names);
    names
  }

  /** A Country is offered exactly when some row of `df_long_with_world` has it
      and, unless the choice is "All Continents", the chosen Continent. */
  lemma CountryChoicesMembers(combined: seq<Row>, continent: string, c: string)
    ensures c in CountryChoices(combined, continent) <==>
      exists r :: r in combined && r.country == c && (continent == AllContinents || r.continent == continent)
  {
    if continent == AllContinents {
      CountryColumnMembers(combined, c);
    } else {
      InContinentMembers(combined, continent);
      CountryColumnMembers(InContinent(combined, continent), c);
    }
  }

  /** Choosing any listed continent, or "All Continents" once there is data,
      leaves at least one country to pick. */
  lemma CountryChoicesNonEmpty(t: RawTable, continent: string)
    requires TransformData(t).Some?
    requires continent in Continents(Long(t)) || (continent == AllContinents && |Long(t)| > 0)
    ensures |CountryChoices(TransformData(t).value.combined, continent)| > 0
  {
    var combined := TransformData(t).value.combined;
    CombinedShape(t);
    var r: Row;
    if continent in Continents(Long(t)) {
      r :| r in Long(t) && r.continent == continent;
    } else {
      r := Long(t)[0];
    }
    assert r in combined;
    CountryChoicesMembers(combined, continent, r.country);
  }

  /** The position of the first `x` in `s`, if any (Python's `list.index`). */
  function IndexOf(s: seq<string>, x: string): (r: Option<nat>)
    ensures r.None? <==> x !in s
    ensures r.Some? ==> r.value < |s| && s[r.value] == x && forall j :: 0 <= j < r.value ==> s[j] != x
  {
    if s == [] then None
    else if s[0] == x then Some(0)
    else match IndexOf(s[1..], x)
      case None => None
      case Some(k) => Some(k + 1)
  }

  /** The default country: Kenya's position when it is listed, else the first. */
  function DefaultIndex(countries: seq<string>): (k: nat)
    ensures Kenya in countries ==> k < |countries| && countries[k] == Kenya
    ensures Kenya !in countries ==> k == 0
  {
    match IndexOf(countries, Kenya)
      case None => 0
      case Some(k) => k
  }

  // ---------------------------------------------------------------------------
  // The selected country's rows (lines 57-61).

  /** The mask of lines 58-60. */
  function InRange(c: string, lo: int, hi: int): Row -> bool {
    (r: Row) => r.country == c && lo <= r.year <= hi
  }

  /** `filtered_df`: the `df_long` rows of Country `c` with Year in [lo, hi]
      (see FilteredRowsExact), by non-decreasing Year (no order among rows of
      one year is meant). */
  function FilteredRows(long: seq<Row>, c: string, lo: int, hi: int): (rows: seq<Row>)
    ensures forall r :: multiset(rows)[r] == if InRange(c, lo, hi)(r) then multiset(long)[r] else 0
    ensures forall i, j :: 0 <= i < j < |rows| ==> rows[i].year <= rows[j].year
  {
    var rows := SortBy(Filter(long, InRange(c, lo, hi)), YearKey);
    SortByFilterExact(long, InRange(c, lo, hi), YearKey);
    assert forall i, j :: 0 <= i < j < |rows| ==> YearKey(rows[i]) <= YearKey(rows[j]);
    rows
  }

  /** Each `df_long` row of the Country with Year in range is kept as often as
      it occurs, and no other row. */
  lemma FilteredRowsExact(long: seq<Row>, c: string, lo: int, hi: int)
    ensures forall r :: multiset(FilteredRows(long, c, lo, hi))[r] ==
                        if r.country == c && lo <= r.year <= hi then multiset(long)[r] else 0
  {
    forall r ensures multiset(FilteredRows(long, c, lo, hi))[r] ==
                     if r.country == c && lo <= r.year <= hi then multiset(long)[r] else 0
    {
      assert InRange(c, lo, hi)(r) == (r.country == c && lo <= r.year <= hi);
    }
  }

  lemma FilteredRowsMembers(long: seq<Row>, c: string, lo: int, hi: int)
    ensures forall r :: r in FilteredRows(long, c, lo, hi) <==> r in long && r.country == c && lo <= r.year <= hi
  {
    var f := FilteredRows(long, c, lo, hi);
    FilteredRowsExact(long, c, lo, hi);
    forall r ensures r in f <==> r in long && r.country == c && lo <= r.year <= hi {
      assert r in f <==> multiset(f)[r] > 0;
      assert r in long <==> multiset(long)[r] > 0;
    }
  }

  /** World appears in the country list, but the rows are taken from `df_long`,
      which has no World rows when no raw record is called World: choosing it
      always shows the "No data available" warning (lines 63, 178). */
  lemma WorldHasNoOverview(t: RawTable, lo: int, hi: int)
    requires TransformData(t).Some?
    requires forall i :: 0 <= i < |t.records| ==> t.records[i].country != World
    ensures FilteredRows(Long(t), World, lo, hi) == []
  {
    LongHasNoWorld(t);
    var f: seq<Row> := FilteredRows(Long(t), World, lo, hi);
    FilteredRowsExact(Long(t), World, lo, hi);
    assert forall r: Row :: multiset(f)[r] == 0;
    assert multiset(f) == multiset{};
  }

  /** With the slider at its default, the whole span of `df_long`'s years, the
      rows are all of the country's rows. */
  lemma FullRangeKeepsCountry(long: seq<Row>, c: string)
    requires |long| > 0
    ensures multiset(FilteredRows(long, c, MinOf(YearColumn(long)), MaxOf(YearColumn(long)))) ==
            multiset(OfCountry(long, c))
  {
    var lo, hi := MinOf(YearColumn(long)), MaxOf(YearColumn(long));
    forall r | r in long ensures lo <= r.year <= hi {
      var i :| 0 <= i < |long| && long[i] == r;
      assert YearColumn(long)[i] == r.year;
    }
    WideRangeKeepsCountry(long, c, lo, hi);
  }

  /** A range that holds every Year keeps all of the country's rows. */
  lemma WideRangeKeepsCountry(long: seq<Row>, c: string, lo: int, hi: int)
    requires forall r :: r in long ==> lo <= r.year <= hi
    ensures multiset(FilteredRows(long, c, lo, hi)) == multiset(OfCountry(long, c))
  {
    var f := FilteredRows(long, c, lo, hi);
    FilteredRowsExact(long, c, lo, hi);
    FilterExact(long, KeyIs(CountryOf, c));
    forall r ensures multiset(f)[r] == multiset(OfCountry(long, c))[r] {
      assert KeyIs(CountryOf, c)(r) <==> r.country == c by { assert CountryOf(r) == r.country; }
      if r !in long {
        assert multiset(long)[r] == 0;
      }
    }
  }

  // ---------------------------------------------------------------------------
  // The metrics (lines 69-95).

  /** The four metrics; `totalGrowth` is None when the earliest population is
      zero and `recentGrowth` is the last row's stored rate, shown only when
      defined. */
  datatype Metrics = Metrics(latestPopulation: int, latestYear: int, earliestPopulation: int,
                             totalGrowth: Option<real>, recentGrowth: Option<real>,
                             populationChange: int)

  /** The metrics of the filtered rows; None is the empty branch (line 178). */
  function OverviewMetrics(rows: seq<Row>): (m: Option<Metrics>)
    ensures m.None? <==> |rows| == 0
    ensures m.Some? ==> m.value.recentGrowth == rows[|rows| - 1].growth
  {
    if |rows| == 0 then None
    else
      var last, first := rows[|rows| - 1], rows[0];
      Some(Metrics(last.population, last.year, first.population,
                   Percent(last.population - first.population, first.population),
                   last.growth, last.population - first.population))
  }

  /** For a non-empty filter: the first row has the earliest Year in range and
      the last row the latest, and both are `df_long` rows of the Country. */
  lemma FilteredEnds(long: seq<Row>, c: string, lo: int, hi: int)
    requires |FilteredRows(long, c, lo, hi)| > 0
    ensures var f := FilteredRows(long, c, lo, hi);
      f[0] in long && f[0].country == c && lo <= f[0].year <= hi &&
      f[|f| - 1] in long && f[|f| - 1].country == c && lo <= f[|f| - 1].year <= hi &&
      forall r :: r in f ==> f[0].year <= r.year <= f[|f| - 1].year
  {
    var f := FilteredRows(long, c, lo, hi);
    FilteredRowsMembers(long, c, lo, hi);
    assert f[0] in f && f[|f| - 1] in f;
    forall r | r in f ensures f[0].year <= r.year <= f[|f| - 1].year {
      var i :| 0 <= i < |f| && f[i] == r;
    }
  }

  /** "Current Population (latest_year)": the latest Year in range, and a
      population the Country has in that year. */
  lemma MetricsLatest(long: seq<Row>, c: string, lo: int, hi: int)
    requires |FilteredRows(long, c, lo, hi)| > 0
    ensures var f := FilteredRows(long, c, lo, hi);
      var m := OverviewMetrics(f).value;
      lo <= m.latestYear <= hi && (forall r :: r in f ==> r.year <= m.latestYear) &&
      exists r :: r in long && r.country == c && r.year == m.latestYear && r.population == m.latestPopulation
  {
    FilteredEnds(long, c, lo, hi);
  }

  /** The earliest population is a population the Country has in the earliest
      Year in range. */
  lemma MetricsEarliest(long: seq<Row>, c: string, lo: int, hi: int)
    requires |FilteredRows(long, c, lo, hi)| > 0
    ensures var f := FilteredRows(long, c, lo, hi);
      var m := OverviewMetrics(f).value;
      exists r :: r in long && r.country == c && lo <= r.year <= hi && r.population == m.earliestPopulation &&
        forall q :: q in f ==> r.year <= q.year
  {
    FilteredEnds(long, c, lo, hi);
  }

  /** Total Change is the latest minus the earliest population. Total Growth is
      defined exactly when the earliest population is non-zero;
      then it times the earliest population is 100 times Total Change, and it is
      non-negative exactly when the population did not fall. */
  lemma TotalGrowthScaled(rows: seq<Row>)
    requires |rows| > 0
    ensures var m := OverviewMetrics(rows).value;
      m.populationChange == m.latestPopulation - m.earliestPopulation &&
      (m.totalGrowth.Some? <==> m.earliestPopulation != 0) &&
      (m.earliestPopulation != 0 ==>
        m.totalGrowth.value * (m.earliestPopulation as real) == (m.populationChange as real) * 100.0) &&
      (m.earliestPopulation > 0 ==> (m.totalGrowth.value >= 0.0 <==> m.latestPopulation >= m.earliestPopulation))
  {
    var m := OverviewMetrics(rows).value;
    if m.earliestPopulation != 0 {
      PercentScaled(m.populationChange, m.earliestPopulation);
    }
    if m.earliestPopulation > 0 {
      PercentSign(m.populationChange, m.earliestPopulation);
    }
  }

  /** Recent Growth Rate is the stored rate of the last row in range, which
      compares it with the row before it in the full `df_long`, that is the
      country's previous year even when that year lies before `lo`. */
  lemma RecentGrowthFromFullSeries(t: RawTable, c: string, lo: int, hi: int) returns (i: nat)
    requires TransformData(t).Some?
    requires |FilteredRows(Long(t), c, lo, hi)| > 0
    ensures i < |Long(t)| && Long(t)[i] == FilteredRows(Long(t), c, lo, hi)[|FilteredRows(Long(t), c, lo, hi)| - 1]
    ensures OverviewMetrics(FilteredRows(Long(t), c, lo, hi)).value.recentGrowth ==
      if i > 0 && Long(t)[i - 1].country == c
      then PctChange(Long(t)[i - 1].population, Long(t)[i].population)
      else None
  {
    var f := FilteredRows(Long(t), c, lo, hi);
    FilteredRowsMembers(Long(t), c, lo, hi);
    assert f[|f| - 1] in f;
    i :| 0 <= i < |Long(t)| && Long(t)[i] == f[|f| - 1];
    LongGrowth(t, i);
  }

  // ---------------------------------------------------------------------------
  // The page (lines 63-178).

  /** What the page shows when there are rows: the metrics, the trend chart's
      rows, and the growth chart's rows (line 153). */
  datatype Overview = Overview(metrics: Metrics, trend: seq<Row>, growth: seq<Row>)

  function OverviewPage(long: seq<Row>, c: string, lo: int, hi: int): (p: Option<Overview>)
    ensures p.None? <==> |FilteredRows(long, c, lo, hi)| == 0
    ensures p.Some? ==> p.value.trend == FilteredRows(long, c, lo, hi) && p.value.growth == GrowthDefined(p.value.trend)
    ensures p.Some? ==> Some(p.value.metrics) == OverviewMetrics(p.value.trend)
  {
    var rows := FilteredRows(long, c, lo, hi);
    if |rows| == 0 then None
    else Some(Overview(OverviewMetrics(rows).value, rows, GrowthDefined(rows)))
  }

  /** The growth chart (`GrowthDefined` of the page's rows) holds exactly the
      rows in range with a defined rate, by non-decreasing Year. */
  lemma GrowthChartRows(long: seq<Row>, c: string, lo: int, hi: int)
    ensures var g := GrowthDefined(FilteredRows(long, c, lo, hi));
      (forall r :: multiset(g)[r] ==
         if r.growth.Some? && r.country == c && lo <= r.year <= hi then multiset(long)[r] else 0) &&
      forall i, j :: 0 <= i < j < |g| ==> g[i].year <= g[j].year
  {
    var rows := FilteredRows(long, c, lo, hi);
    var g := GrowthDefined(rows);
    assert SortedBy(rows, YearKey) by {
      forall i, j | 0 <= i < j < |rows| ensures YearKey(rows[i]) <= YearKey(rows[j]) { }
    }
    GrowthDefinedExact(rows);
    FilteredRowsExact(long, c, lo, hi);
    forall r: Row ensures multiset(g)[r] == if r.growth.Some? && r.country == c && lo <= r.year <= hi then multiset(long)[r] else 0 {
      assert multiset(g)[r] == if r.growth.Some? then multiset(rows)[r] else 0;
    }
    forall i, j | 0 <= i < j < |g| ensures g[i].year <= g[j].year {
      assert YearKey(g[i]) <= YearKey(g[j]);
    }
  }
}
