# World population dashboard: the data pipeline and the page queries

This project models the data core of a Streamlit dashboard over a per-country
population table (`world_population.csv`). The app reads the table in wide form:
one record per country, with one column per census year.

`transform_data` (app.py) turns that table into `df_long`, one row per
(Country, Year) with a Population and a Growth_Rate. The rows are sorted by
(Country, Year), and Growth_Rate is the percent change against the same country's
previous row. The function then appends one synthetic "World" row per year,
holding that year's total and its own percent change. The result is
`df_long_with_world`.

The three pages query these tables:
- Country Overview: a continent and country picker, one country's rows in a year
  range, and four metrics taken from the first and last row.
- Compare Countries: several countries in a year range, the Kenya/World ratio
  (an inner join on Year), and a per-country summary table built by a loop.
- Global Statistics: a one-year snapshot, the top 10, continental totals, shares
  and counts (a second loop), the fastest growers, the average growth, and the
  per-(Year, Continent) trend.

Modules, one per part of the program:

| module | file | models |
|---|---|---|
| `Wrappers` | wrappers.dfy | `Option` |
| `Seqs` | seqs.dfy | pandas building blocks: boolean filters, stable sorts, `nlargest`/`head`, sums and means, ascending group keys |
| `Strings` | strings.dfy | Python string order, substring test, the `(\d{4})` year extraction, `sorted(unique())` |
| `Table` | table.dfy | the long-form `Row`, the masks the pages share, percentages (`/ … * 100`, `pct_change() * 100`) |
| `Transform` | transform.dfy | `transform_data` and `calculate_growth_rate`, step by step |
| `TransformProps` | transform_props.dfy | what the transform promises: provenance and coverage of rows, row counts, growth rates, World additivity |
| `GlobalStatistics` | global_statistics.dfy | pages/3_Global_Statistics.py |
| `CompareCountries` | compare_countries.dfy | pages/2_Compare_Countries.py |
| `CountryOverview` | country_overview.dfy | pages/1_Country_Overview.py |

How the program's values are represented:
- The raw table is a `RawTable`: its column names plus records. A record maps
  column names to `Option<int>`, where `None` is a cell that `pd.to_numeric(...,
  errors='coerce')` turns into NaN.
- Growth_Rate is `Option<real>`: NaN is `None`.
- A division by a zero population gives `None`, where pandas gives `inf` or NaN.
- `astype(int)` raises when a selected column has no four-digit run and there is
  at least one record. `TransformData` then returns `None`.
- A summary row of Compare Countries stores its Country, Latest Year, and largest
  and smallest Population. Its Growth column is the member function
  `Summary.Growth`, computed from those two populations as line 163 does.
- The two loops of the pages are methods with `while` loops, proved equal to
  specification functions: the continental statistics table (Global Statistics,
  lines 90-103) and the summary table (Compare Countries, lines 154-164). All
  else in the source is a pipeline of pandas expressions and is modelled as
  functions with lemmas.

In these places the code departs from its own comments or from a first reading of it; the model follows the code:
- Year columns are those whose name contains "Population" and is not
  "World Population Percentage" (app.py:61). There is no match on a year token.
  The Year is the first run of four digits in the name (app.py:76). A name with no
  such run makes the transform fail; it is not skipped.
- Population cells are coerced with `pd.to_numeric`, which does not strip
  thousands separators (app.py:79), although the comment above that line says it
  does. A cell such as "50,000,000" is missing and its row is dropped.
- Growth_Rate compares a row with the previous row of the same Country, whatever
  year that row has (app.py:85-86). It does not compare with year Y-1.
  Nothing makes (Country, Year) unique.
- The top 10 and the fastest growers break ties by `nlargest`/`sort_values`
  order, not by Country name. The comparison rows are ordered by Year only, not by
  Year then Country. The model promises the order by key and that the result is a
  permutation (or a sub-multiset). It promises no order among ties.
- The summary table's "Latest Population" and "Earliest Population" are the
  largest and smallest population in range (pages/2_Compare_Countries.py:161-163),
  not the populations of the latest and earliest years. So its Growth is never
  negative when the smallest population is positive (`SummaryGrowth`).
- On Country Overview, the country list comes from `df_long_with_world`, so it
  offers World. The rows, however, come from `df_long`, so choosing World always
  shows "No data available" (`WorldHasNoOverview`).

## Model

| member | source | states |
|---|---|---|
| Strings.Contains | app.py:61 | true exactly when the pattern occurs at some position (the `in` test on column names) |
| Strings.ExtractYear | app.py:76 | None exactly when the name has no four-digit run; otherwise the value of the first such run |
| Strings.ExtractYearExample | app.py:75-76 | "2022 Population" gives 2022 |
| Strings.ExtractYearLongerRun | app.py:76 | a longer digit run yields its first four digits ("12345 Population" gives 1234) |
| Strings.SortedUnique | pages/2_Compare_Countries.py:18 | `sorted(x.unique())`: strictly ascending in Python string order, with the same elements as the input |
| Strings.StrictlySortedUnique | pages/2_Compare_Countries.py:18 | two strictly sorted lists with the same elements are equal, so the sorted distinct list is unique |
| Table.Percent | pages/3_Global_Statistics.py:95 | defined exactly when the divisor is non-zero |
| Table.PercentScaled | pages/3_Global_Statistics.py:95 | the percentage times the divisor is 100 times the numerator |
| Table.PercentSign | pages/1_Country_Overview.py:72 | over a positive divisor, the percentage is non-negative exactly when the numerator is |
| Table.PctChange | app.py:86 | `pct_change() * 100` is defined exactly when the previous value is non-zero |
| Table.PctChangeScaled | app.py:86 | the change times the previous value is 100 times the difference; over a positive previous value its sign is that of the difference |
| Table.YearMax | pages/3_Global_Statistics.py:18-19 | the largest Year is some row's Year and bounds every row's Year |
| Table.PopulationRange | pages/2_Compare_Countries.py:161-162 | the largest and smallest Population occur in the rows and bound them all |
| Table.SortedYears | app.py:89 | `groupby('Year')` keys: strictly increasing, with the same years as the rows |
| Table.OfCountryMembers | pages/3_Global_Statistics.py:111 | a row is kept exactly when it is an input row with that Country |
| Table.InContinentMembers | pages/1_Country_Overview.py:29 | a row is kept exactly when it is an input row with that Continent |
| Table.CountryColumnMembers | pages/1_Country_Overview.py:27 | a name is in the Country column exactly when some row has that Country |
| Table.ByYearMembers | pages/3_Global_Statistics.py:29 | a row is kept exactly when it is an input row of that Year |
| Table.GrowthDefinedMembers | pages/3_Global_Statistics.py:129 | `dropna(subset=['Growth_Rate'])` keeps exactly the rows with a defined rate |
| Table.GrowthDefinedExact | pages/1_Country_Overview.py:153 | each row with a defined rate is kept as often as it occurs, the others are dropped, and Year order is kept |
| Table.TotalConcat | app.py:95 | the total of a concatenation is the sum of the totals |
| Table.OfCountryNone | pages/3_Global_Statistics.py:111 | a table with no row of a Country selects no rows for it |
| Table.OfCountryAll | pages/3_Global_Statistics.py:111 | a table whose rows all have one Country selects all of its rows for it |
| Table.NonWorldOfAppend | app.py:95 | removing World from `df_long` followed by World rows gives back `df_long` when it has no World row |
| Transform.YearColumns | app.py:61 | a column is selected exactly when it is a column containing "Population" other than "World Population Percentage" |
| Transform.MeltColumn | app.py:67-73 | one melted cell per record for the column, carrying its Country, Continent, column name and cell |
| Transform.Melt | app.py:67-73 | the melt has one cell per (column, record) pair |
| Transform.MeltProvenance | app.py:67-73 | every melted cell is some record's cell under some selected column |
| Transform.MeltCoverage | app.py:67-73 | every record's cell under every selected column is in the melt |
| Transform.ExtractYears | app.py:76 | fails exactly when some melted cell's column has no four-digit run; otherwise each cell keeps its fields and gets the extracted Year |
| Transform.DropMissing | app.py:79-82 | every kept row comes from a cell with a number, with no growth rate yet |
| Transform.DropMissingCovers | app.py:82 | every cell with a number yields a row |
| Transform.RowLeTotal | app.py:85 | the (Country, Year) order is total |
| Transform.RowLeTransitive | app.py:85 | the (Country, Year) order is transitive |
| Transform.InsertRow | app.py:85 | insertion adds exactly the one row |
| Transform.InsertRowSorted | app.py:85 | insertion into rows sorted by (Country, Year) keeps them sorted |
| Transform.SortRows | app.py:85 | `sort_values(['Country', 'Year'])` is a permutation |
| Transform.SortRowsSorted | app.py:85 | the sorted rows are ordered by (Country, Year) |
| Transform.LastIndexOf | app.py:86 | the previous position of the same Country lies before the row |
| Transform.LastIndexOfSpec | app.py:86 | it is the nearest earlier row with that Country, and None when there is none |
| Transform.GroupPctChange | app.py:86 | every row keeps its fields and gets the percent change against its Country's previous row |
| Transform.YearTotals | app.py:89-91 | one World row per year: Country and Continent "World", Population the year's total, no rate yet |
| Transform.SeriesPctChange | app.py:92 | one output row per input row |
| Transform.SeriesPctChangeRates | app.py:92 | every row keeps its other fields; the first has no rate and every later one the percent change from the row before |
| Transform.CalculateGrowthRate | app.py:48-53 | defined exactly when there are at least two values and the second-to-last is non-zero; then the rate times the second-to-last value is 100 times the change to the last value |
| TransformProps.TransformFailsExactly | app.py:61-76 | the transform fails exactly when there is a record and some selected column has no four-digit run |
| TransformProps.ExtractFailsFromColumn | app.py:76 | a failed extraction implies a record and a selected column without a year |
| TransformProps.ColumnFailsExtract | app.py:76 | a record and a selected column without a year make the extraction fail |
| TransformProps.CellFromRecord | app.py:67-76 | every long-form cell is some record's cell under a selected column, with its extracted Year |
| TransformProps.RowFromCell | app.py:82-86 | every `df_long` row comes from a long-form cell with a number |
| TransformProps.CellToRow | app.py:82-86 | every long-form cell with a number yields a `df_long` row |
| TransformProps.SortedIndexOf | app.py:85 | proof helper for the provenance and coverage lemmas: returns the position a dropped-missing row takes in the sorted rows |
| TransformProps.LongRowsFromCells | app.py:56-86 | every `df_long` row is some record's numeric cell under a selected column: same Country, Continent and value, and Year from the column name |
| TransformProps.CellOfRecord | app.py:67-76 | each record's cell under each selected column is a long-form cell |
| TransformProps.LongCoversCells | app.py:56-86 | every numeric cell of every record under a selected column appears as a `df_long` row |
| TransformProps.DropMissingCount | app.py:82 | a Country keeps as many rows as it has cells with a number |
| TransformProps.MeltCount | app.py:67-73 | with unique Countries, a record's melted cells with a number are as many as its columns with a number |
| TransformProps.RowCountPerCountry | app.py:56-86 | with unique Countries, each Country has as many `df_long` rows as selected columns with a number in its record |
| TransformProps.LongRowBound | app.py:67-82 | `df_long` has at most (selected columns × records) rows |
| TransformProps.LongSorted | app.py:85 | `df_long` is ordered by (Country, Year) |
| TransformProps.GroupGrowthSorted | app.py:86 | on sorted rows, the rate compares with the row just before when it has the same Country, and is undefined at each Country's first row |
| TransformProps.LongGrowth | app.py:85-86 | each `df_long` rate, and that it is undefined exactly at a Country's first row or after a zero population |
| TransformProps.CountryPrefixShape | app.py:86 | the Country's rows up to a row end in that row, preceded by the Country's previous row when there is one and by nothing otherwise |
| TransformProps.GrowthAtMatchesCalculateGrowthRate | app.py:48-53 | each row's rate is `calculate_growth_rate` of its Country's populations up to that row |
| TransformProps.WorldRowsShape | app.py:89-92 | one World row per distinct year, strictly increasing years, the year's total, the same years as `df_long`, rates from the previous World total |
| TransformProps.YearTotalsSum | app.py:89 | the World totals add up to the sum over the year groups |
| TransformProps.WorldAdditivity | app.py:89 | the World rows' populations add up to the total of `df_long` |
| TransformProps.CombinedShape | app.py:95 | `df_long_with_world` is `df_long` followed by the World rows, of length rows plus distinct years |
| TransformProps.WorldSeparates | app.py:89-95 | with no raw World record, the non-World rows are `df_long` and the World rows are the aggregate |
| TransformProps.SplitWorld | app.py:95 | the same split for any long table without World rows |
| TransformProps.LongHasNoWorld | app.py:56-86 | with no raw World record, `df_long` has no World row |
| GlobalStatistics.YearData | pages/3_Global_Statistics.py:29 | each row of the selected year is kept as often as it occurs, and no other row |
| GlobalStatistics.Top10 | pages/3_Global_Statistics.py:34 | min(10, n) non-World rows, descending by Population, and no left-out row has a larger Population than an included one |
| GlobalStatistics.FastestGrowers | pages/3_Global_Statistics.py:128-130 | min(10, n) non-World rows with a defined rate, descending by rate, and no left-out row has a larger rate |
| GlobalStatistics.ContinentTotals | pages/3_Global_Statistics.py:56 | one group per name, holding the total of its Continent's rows |
| GlobalStatistics.GroupByContinentSum | pages/3_Global_Statistics.py:56 | the group sums add up to the total of the rows |
| GlobalStatistics.GroupByContinentDistinct | pages/3_Global_Statistics.py:56 | each Continent has one group |
| GlobalStatistics.GroupByContinentMembers | pages/3_Global_Statistics.py:56 | a group is formed exactly when its Continent occurs in the rows and it holds their total |
| GlobalStatistics.ContinentalDataMembers | pages/3_Global_Statistics.py:56-57 | a group is listed exactly when its Continent has non-World rows that year and it holds their total |
| GlobalStatistics.ContinentalDataDistinct | pages/3_Global_Statistics.py:56-57 | no Continent is listed twice |
| GlobalStatistics.ContinentalDataDescending | pages/3_Global_Statistics.py:57 | the groups are in descending Population order |
| GlobalStatistics.ContinentalDataSum | pages/3_Global_Statistics.py:91 | the totals of `continental_data` (line 56) add up to `total_world_pop` |
| GlobalStatistics.FirstPopulation | pages/3_Global_Statistics.py:94 | `.values[0]` is the population of the first group of that Continent |
| GlobalStatistics.FirstPopulationDistinct | pages/3_Global_Statistics.py:94 | with distinct names, the lookup returns the group's own population |
| GlobalStatistics.ContinentalStats | pages/3_Global_Statistics.py:93-103 | one statistics row per group, in the groups' order |
| GlobalStatistics.ContinentalStatsTable | pages/3_Global_Statistics.py:90-103 | the loop appends exactly the statistics rows |
| GlobalStatistics.StatsRows | pages/3_Global_Statistics.py:94-102 | row k has group k's Continent and Population, and share Population / total_world_pop × 100 |
| GlobalStatistics.StatsPopulationsSum | pages/3_Global_Statistics.py:91-100 | the table's populations add up to `total_world_pop` |
| GlobalStatistics.StatsSharesSum | pages/3_Global_Statistics.py:91-101 | when the total is positive, the shares add up to exactly 100 |
| GlobalStatistics.SharesOfWhole | pages/3_Global_Statistics.py:95 | shares of parts that add up to a positive whole add up to 100 |
| GlobalStatistics.StatsSharesPercent | pages/3_Global_Statistics.py:95 | every row's share is its population over the total, in percent |
| GlobalStatistics.HundredPercent | pages/3_Global_Statistics.py:95 | the scaled sum of shares over the whole is 100 |
| GlobalStatistics.SharesScale | pages/3_Global_Statistics.py:95 | the sum of the shares times the total is 100 times the sum of the populations |
| GlobalStatistics.StatsCountsRows | pages/3_Global_Statistics.py:96 | each row's count is the number of that year's non-World rows in its Continent |
| GlobalStatistics.NamesCoverRows | pages/3_Global_Statistics.py:56-57 | every non-World row's Continent is listed in the continental table |
| GlobalStatistics.StatsCountsSum | pages/3_Global_Statistics.py:96 | the per-continent counts add up to the "Countries/Territories" metric of line 157 |
| GlobalStatistics.WorldPopulation | pages/3_Global_Statistics.py:152-154 | shown exactly when the year has a World row, and then it is a World row's population |
| GlobalStatistics.ContinentsCountIsTableSize | pages/3_Global_Statistics.py:161 | the "Continents" metric equals the number of rows of the continental table |
| GlobalStatistics.AverageGrowth | pages/3_Global_Statistics.py:165-167 | undefined exactly when no non-World row has a rate; otherwise the sum of the defined non-World rates over their count, which lies between the smallest and the largest of them |
| GlobalStatistics.WorldSeriesIsWorldRows | pages/3_Global_Statistics.py:111 | the World trend is the aggregate series built by the transform |
| GlobalStatistics.WorldRowOfYear | app.py:89-91 | each year of `df_long` has exactly one World row, holding that year's total |
| GlobalStatistics.WorldPopulationOfYear | pages/3_Global_Statistics.py:152-154 | for a year of the data, the metric is the year's total |
| GlobalStatistics.WorldPopulationIsYearTotal | pages/3_Global_Statistics.py:152-154 | the same from a raw table without a World record |
| GlobalStatistics.YearBlock | pages/3_Global_Statistics.py:173-175 | one trend row per Continent of the year, with its total |
| GlobalStatistics.YearBlockMembers | pages/3_Global_Statistics.py:173-175 | a trend row of the year is listed exactly when its Continent occurs that year, and it holds that Continent's total |
| GlobalStatistics.YearBlockSorted | pages/3_Global_Statistics.py:173-174 | the year's rows have ascending Continents |
| GlobalStatistics.TrendBlocksMembers | pages/3_Global_Statistics.py:173-175 | the blocks hold exactly the listed years' trend rows |
| GlobalStatistics.TrendBlocksYears | pages/3_Global_Statistics.py:173-175 | every trend row has a listed year |
| GlobalStatistics.TrendSortedConcat | pages/3_Global_Statistics.py:173-174 | blocks of increasing years concatenate in (Year, Continent) order |
| GlobalStatistics.TrendBlocksSorted | pages/3_Global_Statistics.py:173-174 | over increasing years, the trend is in (Year, Continent) order |
| GlobalStatistics.ContinentalTrendsFacts | pages/3_Global_Statistics.py:173-175 | a trend row is listed exactly when its (Year, Continent) occurs among non-World rows and it holds their total; the rows are in (Year, Continent) order |
| GlobalStatistics.YearBlockSum | pages/3_Global_Statistics.py:173-175 | a year's continental trend rows add up to the year's total |
| GlobalStatistics.TrendsAddUpToWorld | pages/3_Global_Statistics.py:173-175 | for every year, the continental trend rows add up to that year's World population |
| CompareCountries.AllCountries | pages/2_Compare_Countries.py:18 | strictly ascending, without duplicates, and with the same names as the Country column |
| CompareCountries.AllCountriesMembers | pages/2_Compare_Countries.py:18 | a name is listed exactly when some row has that Country |
| CompareCountries.AllCountriesHasWorld | pages/2_Compare_Countries.py:18 | once `df_long` has a row, World is listed |
| CompareCountries.ComparisonRows | pages/2_Compare_Countries.py:51-55 | each row the mask of lines 52-54 keeps is kept as often as it occurs, no other row, in non-decreasing Year order |
| CompareCountries.ComparisonRowsExact | pages/2_Compare_Countries.py:51-55 | the multiplicity of a row is its multiplicity in `df_long_with_world` when its Country is selected and its Year in range, and 0 otherwise |
| CompareCountries.JoinOne | pages/2_Compare_Countries.py:104-108 | a left row joins with every right row of its Year, in their order |
| CompareCountries.JoinOneMembers | pages/2_Compare_Countries.py:104-108 | a joined row comes from the left row and a right row of the same Year |
| CompareCountries.InnerJoinMembers | pages/2_Compare_Countries.py:104-108 | a row is in the join exactly when it pairs a left and a right row of the same Year |
| CompareCountries.InnerJoinYears | pages/2_Compare_Countries.py:104-108 | a Year occurs in the join exactly when it occurs in both inputs |
| CompareCountries.InnerJoinSorted | pages/2_Compare_Countries.py:104-108 | the join keeps the left rows' Year order |
| CompareCountries.RatioDataMembers | pages/2_Compare_Countries.py:100-112 | the ratio rows pair a Kenya and a World row of the same Year, with ratio Kenya / World × 100 |
| CompareCountries.MaxRatioAt | pages/2_Compare_Countries.py:130-131 | `idxmax`: None when no ratio is defined, else the first position of the largest ratio |
| CompareCountries.HighestRatio | pages/2_Compare_Countries.py:130-132 | the shown maximum is some row's ratio, with its Year, and no ratio exceeds it |
| CompareCountries.CurrentRatio | pages/2_Compare_Countries.py:135-136 | the last ratio row, if any |
| CompareCountries.RatioDataSorted | pages/2_Compare_Countries.py:104-108 | on Year-sorted rows, the ratio rows are in Year order |
| CompareCountries.CurrentRatioIsLatest | pages/2_Compare_Countries.py:135-137 | the current ratio has the latest Year of the ratio rows |
| CompareCountries.SummaryOf | pages/2_Compare_Countries.py:158-159 | the row names its Country (its other columns: `SummaryLatestYear`, `SummaryPopulations`, `SummaryGrowthSign`) |
| CompareCountries.SummaryLatestYear | pages/2_Compare_Countries.py:160 | "Latest Year" is the latest Year of the Country's rows |
| CompareCountries.SummaryPopulations | pages/2_Compare_Countries.py:161-162 | "Latest" and "Earliest Population" are the largest and smallest of the Country's populations |
| CompareCountries.SummaryGrowth | pages/2_Compare_Countries.py:163 | with a positive smallest population, Growth is defined and non-negative |
| CompareCountries.SummaryGrowthSign | pages/2_Compare_Countries.py:163 | Growth is defined exactly when the smallest population is non-zero, and then Growth × smallest = 100 × (largest − smallest); with largest ≥ smallest > 0 it is non-negative |
| CompareCountries.SummaryTable | pages/2_Compare_Countries.py:154-164 | the loop appends one summary row per selected Country with rows, in selection order |
| CompareCountries.SummariesMembers | pages/2_Compare_Countries.py:155-164 | a summary row is listed exactly when it is the summary of a selected Country with rows; at most one per selection entry |
| CompareCountries.ComparePage | pages/2_Compare_Countries.py:30-31 | nothing is computed (the warning) exactly when nothing is selected; otherwise the page holds `comparison_df`, its rows with a defined rate, the Kenya/World join of those rows exactly when (line 97) the toggle is on and Kenya and World are selected, and the summary table of the loop |
| CompareCountries.GrowthComparisonRows | pages/2_Compare_Countries.py:80 | the growth comparison holds exactly the rows of a selected Country with Year in range and a defined rate, as often as they occur, in non-decreasing Year order |
| CountryOverview.Continents | pages/1_Country_Overview.py:19 | strictly ascending, without duplicates, and a Continent is listed exactly when some `df_long` row has it |
| CountryOverview.ContinentsHaveNoWorld | pages/1_Country_Overview.py:19 | with no raw record whose Continent is World, the list does not offer World |
| CountryOverview.CountryChoices | pages/1_Country_Overview.py:26-29 | strictly ascending and without duplicates |
| CountryOverview.CountryChoicesMembers | pages/1_Country_Overview.py:26-29 | a Country is offered exactly when a row of `df_long_with_world` has it and the chosen Continent, or any Continent for "All Continents" |
| CountryOverview.CountryChoicesNonEmpty | pages/1_Country_Overview.py:19-29 | any offered Continent, or "All Continents" once there is data, leaves a country to pick |
| CountryOverview.IndexOf | pages/1_Country_Overview.py:32 | `list.index`: None exactly when absent, else the first position |
| CountryOverview.DefaultIndex | pages/1_Country_Overview.py:32 | Kenya's position when listed, else 0 |
| CountryOverview.FilteredRows | pages/1_Country_Overview.py:57-61 | each `df_long` row the mask of lines 58-60 keeps is kept as often as it occurs, no other row, in non-decreasing Year order |
| CountryOverview.FilteredRowsExact | pages/1_Country_Overview.py:57-61 | the multiplicity of a row is its multiplicity in `df_long` when it has the Country and a Year in range, and 0 otherwise |
| CountryOverview.FilteredRowsMembers | pages/1_Country_Overview.py:57-61 | a row is kept exactly when it is a `df_long` row of the Country with Year in range |
| CountryOverview.WorldHasNoOverview | pages/1_Country_Overview.py:57-63 | with no raw World record, choosing World leaves no rows, so the page shows (line 178) its warning |
| CountryOverview.FullRangeKeepsCountry | pages/1_Country_Overview.py:40-61 | with the slider's default range, the filter keeps all of the Country's rows |
| CountryOverview.WideRangeKeepsCountry | pages/1_Country_Overview.py:57-61 | a range holding every Year keeps all of the Country's rows |
| CountryOverview.OverviewMetrics | pages/1_Country_Overview.py:63-95 | metrics exist exactly when there are rows; the recent rate is the last row's rate |
| CountryOverview.FilteredEnds | pages/1_Country_Overview.py:57-71 | the first and the last filtered row are `df_long` rows of the Country with Year in range, holding the smallest and the largest Year |
| CountryOverview.MetricsLatest | pages/1_Country_Overview.py:69-70 | the latest Year is in range and bounds every filtered row, and the latest population is the Country's population in some row of that Year |
| CountryOverview.MetricsEarliest | pages/1_Country_Overview.py:71 | the earliest population is the Country's population in some row in range whose Year no filtered row precedes |
| CountryOverview.TotalGrowthScaled | pages/1_Country_Overview.py:72 | Total Change (line 95) is latest − earliest; Total Growth is defined exactly when the earliest population is non-zero, and then Total Growth × earliest = 100 × Total Change; over a positive earliest population it is non-negative exactly when the population did not fall |
| CountryOverview.RecentGrowthFromFullSeries | pages/1_Country_Overview.py:87-88 | the recent rate is the last row's stored rate, computed against the previous row of the full `df_long` series, even one outside the range |
| CountryOverview.OverviewPage | pages/1_Country_Overview.py:63 | the page shows its warning (line 178) exactly when there are no rows; otherwise it shows the filtered rows, their metrics, and the rows with a defined rate |
| CountryOverview.GrowthChartRows | pages/1_Country_Overview.py:153 | the growth chart holds exactly the rows in range with a defined rate, in non-decreasing Year order |

## Left out

- Reading the CSV (app.py:41-45) is left out, because it is file I/O. The table is a parameter.
- Numeric coercion of cells (app.py:79) is left out. Each cell is already a number or missing.
- Streamlit caching, `st.session_state`, theme selection and reruns are left out, because they are UI state. The pages receive `df_long` and `df_long_with_world` as parameters.
- Widgets are left out, because they are UI. Slider positions, multiselect choices, checkboxes and selectboxes are parameters.
- The slider bounds `year_min`/`year_max` are left out as separate values (pages/3_Global_Statistics.py:18-25, pages/2_Compare_Countries.py:34-41, pages/1_Country_Overview.py:40-48). The year range is a parameter; `FullRangeKeepsCountry` covers the default range of the overview page.
- `default_indices` (pages/2_Compare_Countries.py:22) is left out, because nothing uses it.
- Rendering is left out, because it is foreign rendering and I/O. This covers Plotly figures, the chart export (`to_image`, `to_html`, download buttons, pages/1_Country_Overview.py:121-148), `st.metric` and `st.dataframe`.
- The re-sorts done only for charts are left out: `top_10.sort_values("Population")` and `growth_data.sort_values("Growth_Rate")` (pages/3_Global_Statistics.py:37, 134).
- Number formatting is left out: `.round(2)`, f-string formats, and the `int(...)` and `astype(int)` display casts (pages/2_Compare_Countries.py:112, 132, 137; pages/1_Country_Overview.py:173-174). Values are exact integers and reals.
- The pivot table (pages/2_Compare_Countries.py:142-147) is left out. It is a display table, and its `astype(int)` fails on missing cells.
- Floating point is not modelled. Growth rates, shares and ratios are exact `real` division, so the shares sum to exactly 100.
- Table.Percent and Table.PctChange give None for a zero divisor, where pandas gives `inf` or NaN. The same holds for the shares, the ratio, and both Growth values.
- Seqs.SortBy and Seqs.TopBy are stable insertion sorts. pandas' `sort_values` (quicksort) and `nlargest` may place equal keys differently. So the contracts promise key order and permutation, not the order among ties.
- Strings.ExtractYear treats only ASCII `0`-`9` as digits. Python's `\d` also matches other Unicode decimal digits.
- CompareCountries.HighestRatio and CompareCountries.CurrentRatio return None where `idxmax` or `iloc[-1]` would raise on an empty or all-NaN ratio column.
