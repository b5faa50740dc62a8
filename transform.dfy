/** The wide-to-long pipeline of app.py (`transform_data`) and its helper
    `calculate_growth_rate`. Each pandas step is one function, composed in the
    order the source rebinds `df_long`. */
module Transform {
  import opened Wrappers
  import opened Seqs
  import opened Strings
  import opened Table

  // ---------------------------------------------------------------------------
  // The wide input. A record's cells are already coerced: `Some(n)` for a cell
  // `pd.to_numeric` accepts, `None` for one it turns into NaN (or a column the
  // record lacks).

  datatype RawRecord = RawRecord(country: string, continent: string, cells: map<string, Option<int>>)

  datatype RawTable = RawTable(columns: seq<string>, records: seq<RawRecord>)

  function Cell(rec: RawRecord, column: string): Option<int> {
    if column in rec.cells then rec.cells[column] else None
  }

  predicate UniqueCountries(recs: seq<RawRecord>) {
    forall i, j :: 0 <= i < j < |recs| ==> recs[i].country != recs[j].country
  }

  // ---------------------------------------------------------------------------
  // Step 1: the year columns.

  const PercentageColumn: string := "World Population Percentage"

  predicate IsYearColumn(column: string) {
    Contains(column, "Population") && column != PercentageColumn
  }

  function YearColumns(columns: seq<string>): (yc: seq<string>)
    ensures |yc| <= |columns|
    ensures forall c :: c in yc <==>
      c in columns && (exists i :: OccursAt(c, "Population", i)) && c != PercentageColumn
  {
    Filter(columns, IsYearColumn)
  }

  // ---------------------------------------------------------------------------
  // Step 2: `pd.melt`, column by column, each column over all records.

  datatype MeltedCell = MeltedCell(country: string, continent: string, column: string, value: Option<int>)

  function MeltColumn(recs: seq<RawRecord>, column: string): (m: seq<MeltedCell>)
    ensures |m| == |recs|
    ensures forall i :: 0 <= i < |recs| ==>
      m[i] == MeltedCell(recs[i].country, recs[i].continent, column, Cell(recs[i], column))
  {
    if recs == [] then []
    else [MeltedCell(recs[0].country, recs[0].continent, column, Cell(recs[0], column))] + MeltColumn(recs[1..], column)
  }

  /** `m` is what melting `rec` under `column` gives. */
  predicate MeltOf(rec: RawRecord, column: string, m: MeltedCell) {
    m == MeltedCell(rec.country, rec.continent, column, Cell(rec, column))
  }

  /** `pd.melt`: for each column in turn, one melted cell per record. */
  function Melt(recs: seq<RawRecord>, columns: seq<string>): (m: seq<MeltedCell>)
    ensures |m| == |columns| * |recs|
  {
    if columns == [] then []
    else
      MeltLength(|columns|, |recs|);
      MeltColumn(recs, columns[0]) + Melt(recs, columns[1..])
  }

  lemma MeltLength(k: nat, n: nat)
    requires k > 0
    ensures k * n == n + (k - 1) * n
  {
  }

  /** Every melted cell is some record's cell under some column. */
  lemma {:induction false} MeltProvenance(recs: seq<RawRecord>, columns: seq<string>)
    ensures forall p :: 0 <= p < |Melt(recs, columns)| ==>
      exists j, i :: 0 <= j < |columns| && 0 <= i < |recs| && MeltOf(recs[i], columns[j], Melt(recs, columns)[p])
  {
    if columns != [] {
      var head, rest := MeltColumn(recs, columns[0]), Melt(recs, columns[1..]);
      MeltProvenance(recs, columns[1..]);
      assert Melt(recs, columns) == head + rest;
      var m := Melt(recs, columns);
      forall p | 0 <= p < |m|
        ensures exists j, i :: 0 <= j < |columns| && 0 <= i < |recs| && MeltOf(recs[i], columns[j], m[p])
      {
        if p < |head| {
          assert MeltOf(recs[p], columns[0], m[p]);
        } else {
          var j, i :| 0 <= j < |columns[1..]| && 0 <= i < |recs| && MeltOf(recs[i], columns[1..][j], rest[p - |head|]);
          assert m[p] == rest[p - |head|];
          assert MeltOf(recs[i], columns[j + 1], m[p]);
        }
      }
    } else {
      assert Melt(recs, columns) == [];
    }
  }

  /** Every (record, column) pair is melted. */
  lemma {:induction false} MeltCoverage(recs: seq<RawRecord>, columns: seq<string>, i: nat, j: nat)
    requires i < |recs| && j < |columns|
    ensures MeltedCell(recs[i].country, recs[i].continent, columns[j], Cell(recs[i], columns[j])) in Melt(recs, columns)
  {
    var head := MeltColumn(recs, columns[0]);
    assert Melt(recs, columns) == head + Melt(recs, columns[1..]);
    if j == 0 {
      assert head[i] in head;
    } else {
      MeltCoverage(recs, columns[1..], i, j - 1);
      assert columns[1..][j - 1] == columns[j];
    }
  }

  // ---------------------------------------------------------------------------
  // Step 3: `str.extract(r'(\d{4})').astype(int)` on the melted column names.
  // A name without four digits in a row becomes NaN and `astype(int)` raises:
  // the whole transform fails (None).

  datatype LongCell = LongCell(country: string, continent: string, year: int, value: Option<int>)

  function ExtractYears(m: seq<MeltedCell>): (r: Option<seq<LongCell>>)
    ensures r.None? <==> exists p :: 0 <= p < |m| && ExtractYear(m[p].column).None?
    ensures r.Some? ==> |r.value| == |m|
    ensures r.Some? ==> forall p :: 0 <= p < |m| ==>
      ExtractYear(m[p].column).Some? &&
      r.value[p] == LongCell(m[p].country, m[p].continent, ExtractYear(m[p].column).value, m[p].value)
  {
    if m == [] then Some([])
    else
      var rest := ExtractYears(m[1..]);
      assert forall p :: 1 <= p < |m| ==> m[p] == m[1..][p - 1];
      match ExtractYear(m[0].column)
      case None => None
      case Some(y) =>
        if rest.None? then None
        else Some([LongCell(m[0].country, m[0].continent, y, m[0].value)] + rest.value)
  }

  // ---------------------------------------------------------------------------
  // Step 4: `pd.to_numeric(errors='coerce')` then `dropna(subset=['Population'])`.

  function DropMissing(cells: seq<LongCell>): (rows: seq<Row>)
    ensures |rows| <= |cells|
    ensures forall r :: r in rows ==>
      r.growth.None? && LongCell(r.country, r.continent, r.year, Some(r.population)) in cells
  {
    if cells == [] then []
    else
      var head := match cells[0].value
        case Some(p) => [Row(cells[0].country, cells[0].continent, cells[0].year, p, None)]
        case None => [];
      head + DropMissing(cells[1..])
  }

  /** Every numeric cell is kept. */
  lemma {:induction false} DropMissingCovers(cells: seq<LongCell>, p: nat)
    requires p < |cells| && cells[p].value.Some?
    ensures Row(cells[p].country, cells[p].continent, cells[p].year, cells[p].value.value, None) in DropMissing(cells)
  {
    if p > 0 {
      DropMissingCovers(cells[1..], p - 1);
      assert cells[p] == cells[1..][p - 1];
    }
  }

  // ---------------------------------------------------------------------------
  // Step 5: `sort_values(['Country', 'Year'])`.

  predicate RowLe(a: Row, b: Row) {
    LexLess(a.country, b.country) || (a.country == b.country && a.year <= b.year)
  }

  predicate SortedByCountryYear(s: seq<Row>) {
    forall i, j :: 0 <= i < j < |s| ==> RowLe(s[i], s[j])
  }

  lemma RowLeTotal(a: Row, b: Row)
    ensures RowLe(a, b) || RowLe(b, a)
  {
    if a.country != b.country { LexLessTotal(a.country, b.country); }
  }

  lemma RowLeTransitive(a: Row, b: Row, c: Row)
    requires RowLe(a, b) && RowLe(b, c)
    ensures RowLe(a, c)
  {
    if LexLess(a.country, b.country) && LexLess(b.country, c.country) {
      LexLessTransitive(a.country, b.country, c.country);
    }
  }

  function InsertRow(x: Row, s: seq<Row>): (r: seq<Row>)
    ensures multiset(r) == multiset(s) + multiset{x}
    ensures |r| == |s| + 1
  {
    if s == [] || RowLe(x, s[0]) then [x] + s
    else
      assert s == [s[0]] + s[1..];
      [s[0]] + InsertRow(x, s[1..])
  }

  lemma {:induction false} InsertRowSorted(x: Row, s: seq<Row>)
    requires SortedByCountryYear(s)
    ensures SortedByCountryYear(InsertRow(x, s))
  {
    if s == [] {
    } else if RowLe(x, s[0]) {
      forall j | 0 < j < |s| ensures RowLe(x, s[j]) { RowLeTransitive(x, s[0], s[j]); }
    } else {
      RowLeTotal(x, s[0]);
      InsertRowSorted(x, s[1..]);
      var rest := InsertRow(x, s[1..]);
      forall j | 0 <= j < |rest| ensures RowLe(s[0], rest[j]) {
        assert rest[j] in multiset(rest);
        assert rest[j] == x || rest[j] in multiset(s[1..]);
      }
    }
  }

  /** A permutation of `s`; `SortRowsSorted` shows it is ordered. */
  function SortRows(s: seq<Row>): (r: seq<Row>)
    ensures multiset(r) == multiset(s)
    ensures |r| == |s|
  {
    if s == [] then []
    else
      assert s == [s[0]] + s[1..];
      InsertRow(s[0], SortRows(s[1..]))
  }

  lemma {:induction false} SortRowsSorted(s: seq<Row>)
    ensures SortedByCountryYear(SortRows(s))
  {
    if s != [] {
      SortRowsSorted(s[1..]);
      InsertRowSorted(s[0], SortRows(s[1..]));
    }
  }

  // ---------------------------------------------------------------------------
  // Step 6: `groupby('Country')['Population'].pct_change() * 100`: each row
  // against the nearest earlier row of the same Country, NaN if there is none.

  /** The last position before `n` holding Country `c`. */
  function LastIndexOf(rows: seq<Row>, n: nat, c: string): (j: Option<nat>)
    requires n <= |rows|
    ensures j.Some? ==> j.value < n
  {
    if n == 0 then None
    else if rows[n - 1].country == c then Some(n - 1)
    else LastIndexOf(rows, n - 1, c)
  }

  /** `LastIndexOf` finds the nearest earlier row of the Country, or says there is none. */
  lemma {:induction false} LastIndexOfSpec(rows: seq<Row>, n: nat, c: string)
    requires n <= |rows|
    ensures LastIndexOf(rows, n, c).Some? ==>
      var j := LastIndexOf(rows, n, c).value;
      rows[j].country == c && forall k :: j < k < n ==> rows[k].country != c
    ensures LastIndexOf(rows, n, c).None? ==> forall k :: 0 <= k < n ==> rows[k].country != c
  {
    if n > 0 && rows[n - 1].country != c {
      LastIndexOfSpec(rows, n - 1, c);
    }
  }

  function GrowthAt(rows: seq<Row>, i: nat): Option<real>
    requires i < |rows|
  {
    match LastIndexOf(rows, i, rows[i].country)
    case None => None
    case Some(j) => PctChange(rows[j].population, rows[i].population)
  }

  function GroupPctChange(rows: seq<Row>): (r: seq<Row>)
    ensures |r| == |rows|
    ensures forall i {:trigger r[i]} :: 0 <= i < |rows| ==> r[i] == rows[i].(growth := GrowthAt(rows, i))
  {
    seq(|rows|, i requires 0 <= i < |rows| => rows[i].(growth := GrowthAt(rows, i)))
  }

  // ---------------------------------------------------------------------------
  // Step 7: the World aggregate.

  /** One World row per year of `ys`, holding the sum over `long` for that year. */
  function YearTotals(long: seq<Row>, ys: seq<int>): (w: seq<Row>)
    ensures |w| == |ys|
    ensures forall k :: 0 <= k < |ys| ==> w[k] == Row(World, World, ys[k], Total(ByYear(long, ys[k])), None)
  {
    if ys == [] then []
    else [Row(World, World, ys[0], Total(ByYear(long, ys[0])), None)] + YearTotals(long, ys[1..])
  }

  /** `df_long.groupby('Year')['Population'].sum()`, Country and Continent "World". */
  function WorldTotals(long: seq<Row>): seq<Row> {
    YearTotals(long, SortedYears(long))
  }

  /** `Series.pct_change() * 100`: each row against the row before it. */
  function SeriesPctChange(rows: seq<Row>): (r: seq<Row>)
    ensures |r| == |rows|
  {
    seq(|rows|, k requires 0 <= k < |rows| =>
      rows[k].(growth := if k == 0 then None else PctChange(rows[k - 1].population, rows[k].population)))
  }

  /** Every row keeps its other fields; the first has no rate and each later one
      the percent change from the row before it. */
  lemma SeriesPctChangeRates(rows: seq<Row>)
    ensures var r := SeriesPctChange(rows);
      (forall k :: 0 <= k < |rows| ==> r[k] == rows[k].(growth := r[k].growth)) &&
      (|rows| > 0 ==> r[0].growth.None?) &&
      (forall k :: 0 < k < |rows| ==> r[k].growth == PctChange(rows[k - 1].population, rows[k].population))
  {
  }

  function WorldRows(long: seq<Row>): seq<Row> {
    SeriesPctChange(WorldTotals(long))
  }

  // ---------------------------------------------------------------------------
  // Step 8: concatenation, and the whole pipeline.

  /** `df_long` and `df_long_with_world`. */
  datatype Dataset = Dataset(long: seq<Row>, combined: seq<Row>)

  function TransformData(t: RawTable): Option<Dataset> {
    match ExtractYears(Melt(t.records, YearColumns(t.columns)))
    case None => None
    case Some(cells) =>
      var long := GroupPctChange(SortRows(DropMissing(cells)));
      Some(Dataset(long, long + WorldRows(long)))
  }

  /** `calculate_growth_rate`: the last value's percent change against the one
      before it, None for fewer than two values. */
  function CalculateGrowthRate(populations: seq<int>): (g: Option<real>)
    ensures |populations| < 2 ==> g.None?
    ensures |populations| >= 2 ==> g == PctChange(populations[|populations| - 2], populations[|populations| - 1])
    ensures g.Some? <==> |populations| >= 2 && populations[|populations| - 2] != 0
    ensures g.Some? ==>
              g.value * (populations[|populations| - 2] as real) ==
              ((populations[|populations| - 1] - populations[|populations| - 2]) as real) * 100.0
  {
    if |populations| < 2 then None
    else
      var prev, cur := populations[|populations| - 2], populations[|populations| - 1];
      if prev != 0 then
        PctChangeScaled(prev, cur);
        PctChange(prev, cur)
      else
        PctChange(prev, cur)
  }
}
