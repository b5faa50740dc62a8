/** The queries of pages/3_Global_Statistics.py on `df_long_with_world`: the
    snapshot of one year, its rankings, the continental breakdown and summary,
    and the per-(Year, Continent) trends. */
module GlobalStatistics {
  import opened Wrappers
  import opened Seqs
  import opened Strings
  import opened Table
  import opened Transform
  import opened TransformProps

  // ---------------------------------------------------------------------------
  // The snapshot and its rankings.

  /** `year_data`: the rows of the selected year, in table order. */
  function YearData(combined: seq<Row>, year: int): (yd: seq<Row>)
    ensures forall r :: multiset(yd)[r] == if r.year == year then multiset(combined)[r] else 0
  {
    FilterExact(combined, KeyIs(YearOf, year));
    ByYear(combined, year)
  }

  /** `nlargest(10, "Population")` over the non-World rows of the snapshot. */
  function Top10(yd: seq<Row>): (top: seq<Row>)
    ensures |top| == Min(10, |NonWorld(yd)|)
    ensures multiset(top) <= multiset(NonWorld(yd))
    ensures forall r :: r in top ==> r in yd && r.country != World
    ensures forall i, j :: 0 <= i < j < |top| ==> top[j].population <= top[i].population
    ensures forall x, y :: x in multiset(NonWorld(yd)) - multiset(top) && y in top ==> x.population <= y.population
  {
    var top := TopBy(NonWorld(yd), 10, PopulationKey);
    SubMembers(top, NonWorld(yd));
    assert forall i, j :: 0 <= i < j < |top| ==> PopulationKey(top[j]) <= PopulationKey(top[i]);
    top
  }

  /** Fastest growers: the non-World rows with a defined Growth_Rate, highest
      rate first, at most 10 of them. */
  function FastestGrowers(yd: seq<Row>): (top: seq<Row>)
    ensures |top| == Min(10, |GrowthDefined(NonWorld(yd))|)
    ensures multiset(top) <= multiset(GrowthDefined(NonWorld(yd)))
    ensures forall r :: r in top ==> r in yd && r.country != World && r.growth.Some?
    ensures forall i, j :: 0 <= i < j < |top| ==> GrowthOf(top[j]) <= GrowthOf(top[i])
    ensures forall x, y :: x in multiset(GrowthDefined(NonWorld(yd))) - multiset(top) && y in top ==>
      GrowthOf(x) <= GrowthOf(y)
  {
    var top := TopBy(GrowthDefined(NonWorld(yd)), 10, GrowthOf);
    SubMembers(top, GrowthDefined(NonWorld(yd)));
    top
  }

  // ---------------------------------------------------------------------------
  // Continental sums (`groupby("Continent")["Population"].sum()`, keys
  // ascending, then `sort_values("Population", ascending=False)`).

  datatype ContinentTotal = ContinentTotal(continent: string, population: int)

  function TotalOf(g: ContinentTotal): int { g.population }

  function NameOf(g: ContinentTotal): string { g.continent }

  function NegTotal(g: ContinentTotal): real { -(g.population as real) }

  /** One group per name of `names`, holding the sum of its rows. */
  function ContinentTotals(rows: seq<Row>, names: seq<string>): (g: seq<ContinentTotal>)
    ensures |g| == |names|
    ensures forall k :: 0 <= k < |names| ==> g[k] == ContinentTotal(names[k], Total(InContinent(rows, names[k])))
  {
    if names == [] then []
    else [ContinentTotal(names[0], Total(InContinent(rows, names[0])))] + ContinentTotals(rows, names[1..])
  }

  /** The continents present in `rows`, ascending. */
  function ContinentNames(rows: seq<Row>): seq<string> {
    SortedUnique(ContinentColumn(rows))
  }

  function GroupByContinent(rows: seq<Row>): seq<ContinentTotal> {
    ContinentTotals(rows, ContinentNames(rows))
  }

  /** `continental_data`. */
  function ContinentalData(yd: seq<Row>): seq<ContinentTotal> {
    SortBy(GroupByContinent(NonWorld(yd)), NegTotal)
  }

  /** The groups partition the rows: their sums add up to the rows' total. */
  lemma GroupByContinentSum(rows: seq<Row>)
    ensures SumOf(GroupByContinent(rows), TotalOf) == Total(rows)
  {
    var names := ContinentNames(rows);
    SumOverKeysPointwise(rows, names, ContinentOf, PopulationOf, GroupByContinent(rows), TotalOf);
    StrictlySortedDistinct(names);
    forall i | 0 <= i < |rows| ensures ContinentOf(rows[i]) in names {
      assert ContinentColumn(rows)[i] == rows[i].continent;
    }
    SumOverKeysPartition(rows, names, ContinentOf, PopulationOf);
  }

  lemma GroupByContinentDistinct(rows: seq<Row>)
    ensures DistinctBy(GroupByContinent(rows), NameOf)
  {
    StrictlySortedDistinct(ContinentNames(rows));
  }

  /** The groups of `rows` are, for every continent present in them, one entry
      with that continent's sum, and nothing else. */
  lemma GroupByContinentMembers(rows: seq<Row>)
    ensures forall g :: g in GroupByContinent(rows) <==>
      g.continent in ContinentColumn(rows) && g.population == Total(InContinent(rows, g.continent))
  {
    var group := GroupByContinent(rows);
    var names := ContinentNames(rows);
    forall g | g in group
      ensures g.continent in ContinentColumn(rows) && g.population == Total(InContinent(rows, g.continent))
    {
      var k :| 0 <= k < |group| && group[k] == g;
      assert names[k] in names;
    }
    forall g: ContinentTotal | g.continent in ContinentColumn(rows) && g.population == Total(InContinent(rows, g.continent))
      ensures g in group
    {
      var k :| 0 <= k < |names| && names[k] == g.continent;
      assert group[k] == g;
    }
  }

  /** The continental table holds, for every continent present among the
      year's non-World rows, one entry with that continent's sum, and nothing else. */
  lemma ContinentalDataMembers(yd: seq<Row>)
    ensures forall g :: g in ContinentalData(yd) <==>
      g.continent in ContinentColumn(NonWorld(yd)) && g.population == Total(InContinent(NonWorld(yd), g.continent))
  {
    var group := GroupByContinent(NonWorld(yd));
    var cd := ContinentalData(yd);
    forall g ensures g in cd <==> g in group {
      assert g in cd <==> g in multiset(cd);
      assert g in group <==> g in multiset(group);
    }
    GroupByContinentMembers(NonWorld(yd));
  }

  /** No continent appears twice in the continental table. */
  lemma ContinentalDataDistinct(yd: seq<Row>)
    ensures DistinctBy(ContinentalData(yd), NameOf)
  {
    GroupByContinentDistinct(NonWorld(yd));
    DistinctBySortBy(GroupByContinent(NonWorld(yd)), NegTotal, NameOf);
  }

  /** The continental table is ordered by population, largest first. */
  lemma ContinentalDataDescending(yd: seq<Row>)
    ensures forall i, j :: 0 <= i < j < |ContinentalData(yd)| ==>
      ContinentalData(yd)[j].population <= ContinentalData(yd)[i].population
  {
    var cd := ContinentalData(yd);
    forall i, j | 0 <= i < j < |cd| ensures cd[j].population <= cd[i].population {
      assert NegTotal(cd[i]) <= NegTotal(cd[j]);
    }
  }

  /** The continental sums add up to `total_world_pop`. */
  lemma ContinentalDataSum(yd: seq<Row>)
    ensures SumOf(ContinentalData(yd), TotalOf) == Total(NonWorld(yd))
  {
    SumOfSortBy(GroupByContinent(NonWorld(yd)), NegTotal, TotalOf);
    GroupByContinentSum(NonWorld(yd));
  }

  // ---------------------------------------------------------------------------
  // The continental statistics table (lines 90-103).

  /** One row of `continental_stats`; `share` is None when the total is zero. */
  datatype ContinentStat = ContinentStat(continent: string, population: int, share: Option<real>, countries: nat)

  function StatPopulation(s: ContinentStat): int { s.population }

  function StatCountries(s: ContinentStat): int { s.countries }

  function ShareOf(s: ContinentStat): real { if s.share.Some? then s.share.value else 0.0 }

  /** `continental_data[continental_data["Continent"] == c]["Population"].values[0]`:
      the first entry named `c` (0 when there is none, which the loop never asks for). */
  function FirstPopulation(cd: seq<ContinentTotal>, c: string): (p: int)
    ensures forall k :: 0 <= k < |cd| && cd[k].continent == c && (forall l :: 0 <= l < k ==> cd[l].continent != c) ==>
                        p == cd[k].population
  {
    if cd == [] then 0
    else if cd[0].continent == c then cd[0].population
    else FirstPopulation(cd[1..], c)
  }

  lemma FirstPopulationDistinct(cd: seq<ContinentTotal>, k: nat)
    requires DistinctBy(cd, NameOf) && k < |cd|
    ensures FirstPopulation(cd, cd[k].continent) == cd[k].population
  {
  }

  /** The mask of line 96: in continent `c` and not World. */
  function InContinentNotWorld(c: string): Row -> bool {
    (r: Row) => r.continent == c && r.country != World
  }

  /** `total_world_pop` (line 91). */
  function TotalWorldPop(yd: seq<Row>): int { Total(NonWorld(yd)) }

  function StatFor(cd: seq<ContinentTotal>, yd: seq<Row>, c: string): ContinentStat {
    var pop := FirstPopulation(cd, c);
    ContinentStat(c, pop, Percent(pop, TotalWorldPop(yd)), |Filter(yd, InContinentNotWorld(c))|)
  }

  /** What the loop builds: one statistics row per entry of `cd`, in its order. */
  function ContinentalStats(cd: seq<ContinentTotal>, yd: seq<Row>): (stats: seq<ContinentStat>)
    ensures |stats| == |cd|
    ensures forall k :: 0 <= k < |cd| ==> stats[k] == StatFor(cd, yd, cd[k].continent)
  {
    seq(|cd|, k requires 0 <= k < |cd| => StatFor(cd, yd, cd[k].continent))
  }

  /** The `for continent in continental_data["Continent"]` loop. */
  method ContinentalStatsTable(cd: seq<ContinentTotal>, yd: seq<Row>) returns (stats: seq<ContinentStat>)
    ensures stats == ContinentalStats(cd, yd)
  {
    stats := [];
    var totalWorldPop := Total(NonWorld(yd));
    var i := 0;
    while i < |cd|
      invariant 0 <= i <= |cd|
      invariant |stats| == i
      invariant forall k :: 0 <= k < i ==> stats[k] == StatFor(cd, yd, cd[k].continent)
    {
      var continent := cd[i].continent;
      var continentPop := FirstPopulation(cd, continent);
      var percentage := Percent(continentPop, totalWorldPop);
      var countriesCount := |Filter(yd, InContinentNotWorld(continent))|;
      stats := stats + [ContinentStat(continent, continentPop, percentage, countriesCount)];
      i := i + 1;
    }
  }

  /** Row `k` of the statistics table carries entry `k`'s continent and sum,
      and its share of `total_world_pop`. */
  lemma StatsRows(yd: seq<Row>)
    ensures forall k :: 0 <= k < |ContinentalData(yd)| ==>
      var s := ContinentalStats(ContinentalData(yd), yd)[k];
      s.continent == ContinentalData(yd)[k].continent &&
      s.population == ContinentalData(yd)[k].population &&
      s.share == Percent(ContinentalData(yd)[k].population, TotalWorldPop(yd))
  {
    var cd := ContinentalData(yd);
    ContinentalDataDistinct(yd);
    forall k | 0 <= k < |cd| ensures FirstPopulation(cd, cd[k].continent) == cd[k].population {
      FirstPopulationDistinct(cd, k);
    }
  }

  /** The table's populations are the continental sums, so they add up to
      `total_world_pop`. */
  lemma StatsPopulationsSum(yd: seq<Row>)
    ensures SumOf(ContinentalStats(ContinentalData(yd), yd), StatPopulation) == TotalWorldPop(yd)
  {
    var cd := ContinentalData(yd);
    var stats := ContinentalStats(cd, yd);
    StatsRows(yd);
    SumOfPointwise(stats, cd, StatPopulation, TotalOf);
    ContinentalDataSum(yd);
  }

  /** When `total_world_pop` is positive the shares add up to 100. */
  lemma StatsSharesSum(yd: seq<Row>)
    requires TotalWorldPop(yd) > 0
    ensures SumOfReal(ContinentalStats(ContinentalData(yd), yd), ShareOf) == 100.0
  {
    var stats := ContinentalStats(ContinentalData(yd), yd);
    var total := TotalWorldPop(yd);
    StatsSharesPercent(yd);
    StatsPopulationsSum(yd);
    SharesOfWhole(stats, total);
  }

  /** Percent shares of a positive whole that the populations add up to add up to 100. */
  lemma SharesOfWhole(stats: seq<ContinentStat>, total: int)
    requires total > 0 && SumOf(stats, StatPopulation) == total
    requires forall k :: 0 <= k < |stats| ==> stats[k].share == Percent(stats[k].population, total)
    ensures SumOfReal(stats, ShareOf) == 100.0
  {
    SharesScale(stats, total);
    HundredPercent(SumOfReal(stats, ShareOf), SumOf(stats, StatPopulation), total);
  }

  lemma StatsSharesPercent(yd: seq<Row>)
    ensures forall k :: 0 <= k < |ContinentalStats(ContinentalData(yd), yd)| ==>
      ContinentalStats(ContinentalData(yd), yd)[k].share ==
      Percent(ContinentalStats(ContinentalData(yd), yd)[k].population, TotalWorldPop(yd))
  {
    StatsRows(yd);
  }

  lemma HundredPercent(sum: real, pops: int, total: int)
    requires total > 0 && pops == total && sum * (total as real) == (pops as real) * 100.0
    ensures sum == 100.0
  {
    var t := total as real;
    if sum < 100.0 {
      MulStrict(sum, 100.0, t);
    } else if sum > 100.0 {
      MulStrict(100.0, sum, t);
    }
  }

  /** Shares of a positive total, scaled back by the total, are the populations times 100. */
  lemma {:induction false} SharesScale(stats: seq<ContinentStat>, total: int)
    requires total > 0
    requires forall k :: 0 <= k < |stats| ==> stats[k].share == Percent(stats[k].population, total)
    ensures SumOfReal(stats, ShareOf) * (total as real) == (SumOf(stats, StatPopulation) as real) * 100.0
  {
    if stats != [] {
      assert forall k :: 0 <= k < |stats[1..]| ==> stats[1..][k] == stats[k + 1];
      SharesScale(stats[1..], total);
      var t := total as real;
      var rest := SumOfReal(stats[1..], ShareOf);
      var head := ShareOf(stats[0]);
      PercentScaled(stats[0].population, total);
      assert head * t == (stats[0].population as real) * 100.0;
      assert (head + rest) * t == head * t + rest * t;
    }
  }

  /** Row `k`'s country count is the number of non-World rows of entry `k`'s continent. */
  lemma StatsCountsRows(yd: seq<Row>)
    ensures forall k :: 0 <= k < |ContinentalData(yd)| ==>
      StatCountries(ContinentalStats(ContinentalData(yd), yd)[k]) ==
      SumOf(InContinent(NonWorld(yd), ContinentalData(yd)[k].continent), RowOne)
  {
    var cd := ContinentalData(yd);
    forall k | 0 <= k < |cd|
      ensures |Filter(yd, InContinentNotWorld(cd[k].continent))| == SumOf(InContinent(NonWorld(yd), cd[k].continent), RowOne)
    {
      var c := cd[k].continent;
      FilterFilter(yd, NotWorld, KeyIs(ContinentOf, c), InContinentNotWorld(c));
      SumOfOnes(InContinent(NonWorld(yd), c), RowOne);
    }
  }

  /** The per-continent country counts add up to the page's country count. */
  lemma StatsCountsSum(yd: seq<Row>)
    ensures SumOf(ContinentalStats(ContinentalData(yd), yd), StatCountries) == CountriesCount(yd)
  {
    var nw := NonWorld(yd);
    var cd := ContinentalData(yd);
    var names := NamesOf(cd);
    StatsCountsRows(yd);
    SumOverKeysPointwise(nw, names, ContinentOf, RowOne, ContinentalStats(cd, yd), StatCountries);
    ContinentalDataDistinct(yd);
    assert Distinct(names);
    NamesCoverRows(yd);
    SumOverKeysPartition(nw, names, ContinentOf, RowOne);
    SumOfOnes(nw, RowOne);
  }

  function NamesOf(cd: seq<ContinentTotal>): (names: seq<string>)
    ensures |names| == |cd|
    ensures forall k :: 0 <= k < |cd| ==> names[k] == cd[k].continent
  {
    seq(|cd|, k requires 0 <= k < |cd| => cd[k].continent)
  }

  /** Every non-World row's continent names an entry of the continental table. */
  lemma NamesCoverRows(yd: seq<Row>)
    ensures forall i :: 0 <= i < |NonWorld(yd)| ==> ContinentOf(NonWorld(yd)[i]) in NamesOf(ContinentalData(yd))
  {
    var nw := NonWorld(yd);
    var cd := ContinentalData(yd);
    var names := NamesOf(cd);
    ContinentalDataMembers(yd);
    forall i | 0 <= i < |nw| ensures ContinentOf(nw[i]) in names {
      assert ContinentColumn(nw)[i] == nw[i].continent;
      var g := ContinentTotal(nw[i].continent, Total(InContinent(nw, nw[i].continent)));
      assert g in cd;
      var k :| 0 <= k < |cd| && cd[k] == g;
      assert names[k] == nw[i].continent;
    }
  }

  // ---------------------------------------------------------------------------
  // The summary metrics (lines 152-167).

  function RowOne(r: Row): int { 1 }

  /** "World Population": the first World row of the snapshot, if any. */
  function WorldPopulation(yd: seq<Row>): (p: Option<int>)
    ensures p.Some? <==> exists r :: r in yd && r.country == World
    ensures p.Some? ==> exists r :: r in yd && r.country == World && r.population == p.value
  {
    var w := OfCountry(yd, World);
    OfCountryMembers(yd, World);
    if |w| > 0 then
      assert w[0] in w;
      Some(w[0].population)
    else
      None
  }

  /** "Countries/Territories". */
  function CountriesCount(yd: seq<Row>): int { |NonWorld(yd)| }

  /** "Continents": the number of distinct continents among the non-World rows. */
  function ContinentsCount(yd: seq<Row>): int { |ContinentNames(NonWorld(yd))| }

  lemma ContinentsCountIsTableSize(yd: seq<Row>)
    ensures ContinentsCount(yd) == |ContinentalData(yd)|
  {
  }

  /** "Avg. Growth Rate": the mean of the defined rates of the non-World rows,
      None when no rate is defined (`mean` skips NaN). */
  function AverageGrowth(yd: seq<Row>): (avg: Option<real>)
    ensures avg.None? <==> forall r :: r in NonWorld(yd) ==> r.growth.None?
    ensures avg.Some? ==> exists r :: r in NonWorld(yd) && r.growth.Some? && r.growth.value <= avg.value
    ensures avg.Some? ==> exists r :: r in NonWorld(yd) && r.growth.Some? && avg.value <= r.growth.value
    ensures avg.Some? ==>
      avg.value == SumOfReal(GrowthDefined(NonWorld(yd)), GrowthOf) / (|GrowthDefined(NonWorld(yd))| as real)
  {
    var defined := GrowthDefined(NonWorld(yd));
    GrowthDefinedMembers(NonWorld(yd));
    if |defined| == 0 then
      None
    else
      MeanBetween(defined, GrowthOf);
      assert defined[ArgMin(defined, GrowthOf)] in defined;
      assert defined[ArgMax(defined, GrowthOf)] in defined;
      Some(SumOfReal(defined, GrowthOf) / (|defined| as real))
  }

  // ---------------------------------------------------------------------------
  // The World series of the global trend chart (line 111).

  /** `years_to_plot`: the World rows sorted by Year. */
  function WorldSeries(combined: seq<Row>): seq<Row> {
    SortBy(OfCountry(combined, World), YearKey)
  }

  /** For a transformed table without a raw World country the chart shows
      exactly the World rows `transform_data` appended, in their order. */
  lemma WorldSeriesIsWorldRows(t: RawTable)
    requires TransformData(t).Some?
    requires forall i :: 0 <= i < |t.records| ==> t.records[i].country != World
    ensures WorldSeries(TransformData(t).value.combined) == WorldRows(Long(t))
  {
    WorldSeparates(t);
    WorldRowsShape(Long(t));
    SortBySortedIdentity(WorldRows(Long(t)), YearKey);
  }

  /** The World row of year `y`: the only World row with that Year, holding
      that year's total. */
  lemma WorldRowOfYear(long: seq<Row>, y: int) returns (k: nat)
    requires y in YearColumn(long)
    ensures k < |WorldRows(long)| && WorldRows(long)[k].year == y
    ensures WorldRows(long)[k].country == World && WorldRows(long)[k].population == Total(ByYear(long, y))
    ensures ByYear(WorldRows(long), y) == [WorldRows(long)[k]]
  {
    var w := WorldRows(long);
    WorldRowsShape(long);
    assert y in YearColumn(w);
    var k' :| 0 <= k' < |w| && YearColumn(w)[k'] == y;
    k := k';
    forall i | 0 <= i < |w| && i != k ensures !KeyIs(YearOf, y)(w[i]) {
      assert YearOf(w[i]) == w[i].year;
    }
    assert KeyIs(YearOf, y)(w[k]) by { assert YearOf(w[k]) == y; }
    FilterSingle(w, k, KeyIs(YearOf, y));
  }

  /** A year's rows of `df_long_with_world` hold one World row, with that year's
      total of `df_long`, when `df_long` has none named World. */
  lemma WorldPopulationOfYear(long: seq<Row>, y: int)
    requires forall k :: 0 <= k < |long| ==> long[k].country != World
    requires y in YearColumn(long)
    ensures WorldPopulation(ByYear(long + WorldRows(long), y)) == Some(Total(ByYear(long, y)))
  {
    var w := WorldRows(long);
    var k := WorldRowOfYear(long, y);
    FilterConcat(long, w, KeyIs(YearOf, y));
    var lw := ByYear(long, y);
    assert ByYear(long + w, y) == lw + [w[k]];
    forall i | 0 <= i < |lw| ensures !KeyIs(CountryOf, World)(lw[i]) {
      assert lw[i] in lw;
      assert CountryOf(lw[i]) == lw[i].country;
    }
    FilterNothing(lw, KeyIs(CountryOf, World));
    FilterConcat(lw, [w[k]], KeyIs(CountryOf, World));
    assert CountryOf(w[k]) == World;
    assert OfCountry(lw + [w[k]], World) == [w[k]];
  }

  /** For a transformed table without a raw World country, the "World
      Population" metric of a year of `df_long` is that year's total. */
  lemma WorldPopulationIsYearTotal(t: RawTable, y: int)
    requires TransformData(t).Some?
    requires forall i :: 0 <= i < |t.records| ==> t.records[i].country != World
    requires y in YearColumn(Long(t))
    ensures WorldPopulation(ByYear(TransformData(t).value.combined, y)) == Some(Total(ByYear(Long(t), y)))
  {
    CombinedShape(t);
    LongHasNoWorld(t);
    WorldPopulationOfYear(Long(t), y);
  }

  // ---------------------------------------------------------------------------
  // Continental trends (lines 173-175): `groupby(["Year", "Continent"]).sum()`
  // over the non-World rows, keys ascending.

  datatype TrendRow = TrendRow(year: int, continent: string, population: int)

  function TrendPopulation(r: TrendRow): int { r.population }

  /** The groups of one year, continents ascending. */
  function YearBlock(nw: seq<Row>, y: int): (b: seq<TrendRow>)
    ensures |b| == |GroupByContinent(ByYear(nw, y))|
    ensures forall i :: 0 <= i < |b| ==>
      b[i] == TrendRow(y, GroupByContinent(ByYear(nw, y))[i].continent, GroupByContinent(ByYear(nw, y))[i].population)
  {
    var g := GroupByContinent(ByYear(nw, y));
    seq(|g|, i requires 0 <= i < |g| => TrendRow(y, g[i].continent, g[i].population))
  }

  /** The blocks of the years `ys`, one after the other. */
  function TrendBlocks(nw: seq<Row>, ys: seq<int>): seq<TrendRow> {
    if ys == [] then [] else YearBlock(nw, ys[0]) + TrendBlocks(nw, ys[1..])
  }

  /** `continental_trends`. */
  function ContinentalTrends(combined: seq<Row>): seq<TrendRow> {
    var nw := NonWorld(combined);
    TrendBlocks(nw, SortedYears(nw))
  }

  /** (Year, Continent) ascending. */
  predicate TrendBefore(a: TrendRow, b: TrendRow) {
    a.year < b.year || (a.year == b.year && LexLess(a.continent, b.continent))
  }

  /** A block holds, for each continent present in that year, one row with its sum. */
  lemma YearBlockMembers(nw: seq<Row>, y: int)
    ensures forall r :: r in YearBlock(nw, y) <==>
      r.year == y && r.continent in ContinentColumn(ByYear(nw, y)) &&
      r.population == Total(InContinent(ByYear(nw, y), r.continent))
  {
    var rows := ByYear(nw, y);
    var g := GroupByContinent(rows);
    var b := YearBlock(nw, y);
    GroupByContinentMembers(rows);
    forall r ensures r in b <==> r.year == y && ContinentTotal(r.continent, r.population) in g {
      if r in b {
        var i :| 0 <= i < |b| && b[i] == r;
        assert g[i] in g;
      }
      if r.year == y && ContinentTotal(r.continent, r.population) in g {
        var i :| 0 <= i < |g| && g[i] == ContinentTotal(r.continent, r.population);
        assert b[i] == r;
      }
    }
  }

  /** Within a block the continents ascend strictly. */
  lemma YearBlockSorted(nw: seq<Row>, y: int)
    ensures TrendSorted(YearBlock(nw, y))
  {
  }

  /** A row belongs to the trend blocks of distinct years exactly when its year is
      one of them and it belongs to that year's block. */
  lemma {:induction false} TrendBlocksMembers(nw: seq<Row>, ys: seq<int>)
    ensures forall r :: r in TrendBlocks(nw, ys) <==> r.year in ys && r in YearBlock(nw, r.year)
  {
    if ys != [] {
      TrendBlocksMembers(nw, ys[1..]);
      forall r ensures r in TrendBlocks(nw, ys) <==> r.year in ys && r in YearBlock(nw, r.year) {
        assert r in YearBlock(nw, ys[0]) ==> r.year == ys[0] by {
          if r in YearBlock(nw, ys[0]) { YearBlockMembers(nw, ys[0]); }
        }
      }
    }
  }

  predicate TrendSorted(s: seq<TrendRow>) {
    forall i, j :: 0 <= i < j < |s| ==> TrendBefore(s[i], s[j])
  }

  /** Every trend row's year is one of `ys`. */
  lemma {:induction false} TrendBlocksYears(nw: seq<Row>, ys: seq<int>)
    ensures forall j :: 0 <= j < |TrendBlocks(nw, ys)| ==> TrendBlocks(nw, ys)[j].year in ys
  {
    if ys != [] {
      TrendBlocksYears(nw, ys[1..]);
      var head: seq<TrendRow> := YearBlock(nw, ys[0]);
      var rest: seq<TrendRow> := TrendBlocks(nw, ys[1..]);
      var all: seq<TrendRow> := head + rest;
      forall j | 0 <= j < |all| ensures all[j].year in ys {
        if j >= |head| {
          assert all[j] == rest[j - |head|];
        }
      }
    }
  }

  lemma TrendSortedConcat(head: seq<TrendRow>, rest: seq<TrendRow>)
    requires TrendSorted(head) && TrendSorted(rest)
    requires forall i, j :: 0 <= i < |head| && 0 <= j < |rest| ==> head[i].year < rest[j].year
    ensures TrendSorted(head + rest)
  {
    var all := head + rest;
    forall i, j | 0 <= i < j < |all| ensures TrendBefore(all[i], all[j]) {
      if j < |head| {
        assert all[i] == head[i] && all[j] == head[j];
      } else if i >= |head| {
        assert all[i] == rest[i - |head|] && all[j] == rest[j - |head|];
      } else {
        assert all[i] == head[i] && all[j] == rest[j - |head|];
      }
    }
  }

  /** Over ascending years the trend rows are in (Year, Continent) order. */
  lemma {:induction false} TrendBlocksSorted(nw: seq<Row>, ys: seq<int>)
    requires StrictlyIncreasing(ys)
    ensures TrendSorted(TrendBlocks(nw, ys))
  {
    if ys != [] {
      var head := YearBlock(nw, ys[0]);
      var rest := TrendBlocks(nw, ys[1..]);
      TrendBlocksSorted(nw, ys[1..]);
      YearBlockSorted(nw, ys[0]);
      TrendBlocksYears(nw, ys[1..]);
      forall i, j | 0 <= i < |head| && 0 <= j < |rest| ensures head[i].year < rest[j].year {
        var l :| 0 <= l < |ys[1..]| && ys[1..][l] == rest[j].year;
        assert ys[l + 1] == rest[j].year;
      }
      TrendSortedConcat(head, rest);
    }
  }

  /** `continental_trends`: one row per (Year, Continent) present among the
      non-World rows, holding that pair's sum, in (Year, Continent) order. */
  lemma ContinentalTrendsFacts(combined: seq<Row>)
    ensures forall r :: r in ContinentalTrends(combined) <==>
      r.year in YearColumn(NonWorld(combined)) &&
      r.continent in ContinentColumn(ByYear(NonWorld(combined), r.year)) &&
      r.population == Total(InContinent(ByYear(NonWorld(combined), r.year), r.continent))
    ensures TrendSorted(ContinentalTrends(combined))
  {
    var nw := NonWorld(combined);
    TrendBlocksMembers(nw, SortedYears(nw));
    TrendBlocksSorted(nw, SortedYears(nw));
    forall r ensures r in ContinentalTrends(combined) <==>
      r.year in YearColumn(nw) && r.continent in ContinentColumn(ByYear(nw, r.year)) &&
      r.population == Total(InContinent(ByYear(nw, r.year), r.continent))
    {
      YearBlockMembers(nw, r.year);
    }
  }

  /** A year's trend rows add up to that year's non-World total. */
  lemma YearBlockSum(nw: seq<Row>, y: int)
    ensures SumOf(YearBlock(nw, y), TrendPopulation) == Total(ByYear(nw, y))
  {
    SumOfPointwise(YearBlock(nw, y), GroupByContinent(ByYear(nw, y)), TrendPopulation, TotalOf);
    GroupByContinentSum(ByYear(nw, y));
  }

  /** For a transformed table without a raw World country, the continental
      trend rows of a year add up to that year's World row. */
  lemma TrendsAddUpToWorld(t: RawTable, y: int)
    requires TransformData(t).Some?
    requires forall i :: 0 <= i < |t.records| ==> t.records[i].country != World
    requires y in YearColumn(Long(t))
    ensures Some(SumOf(YearBlock(NonWorld(TransformData(t).value.combined), y), TrendPopulation)) ==
      WorldPopulation(ByYear(TransformData(t).value.combined, y))
  {
    WorldSeparates(t);
    YearBlockSum(NonWorld(TransformData(t).value.combined), y);
    WorldPopulationIsYearTotal(t, y);
  }
}
