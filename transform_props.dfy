/** What `transform_data` (app.py) promises about its output, proved about the
    model in the Transform module. */
module TransformProps {
  import opened Wrappers
  import opened Seqs
  import opened Strings
  import opened Table
  import opened Transform

  /** Long row `r` is what record `rec`'s cell under year column `column` becomes. */
  predicate FromCell(rec: RawRecord, column: string, r: Row) {
    r.country == rec.country && r.continent == rec.continent &&
    ExtractYear(column) == Some(r.year) && Cell(rec, column) == Some(r.population)
  }

  /** The columns of `columns` in which `rec` holds a number. */
  function CellPresent(rec: RawRecord): string -> bool {
    (c: string) => Cell(rec, c).Some?
  }

  function ValidMeltedOf(c: string): MeltedCell -> bool {
    (x: MeltedCell) => x.country == c && x.value.Some?
  }

  function ValidLongOf(c: string): LongCell -> bool {
    (x: LongCell) => x.country == c && x.value.Some?
  }

  // ---------------------------------------------------------------------------
  // When the transform fails.

  /** `astype(int)` raises exactly when there is a record and some selected
      column holds no four-digit run. */
  lemma TransformFailsExactly(t: RawTable)
    ensures TransformData(t).None? <==>
      |t.records| > 0 && exists c :: c in YearColumns(t.columns) && ExtractYear(c).None?
  {
    var m := Melt(t.records, YearColumns(t.columns));
    assert TransformData(t).None? <==> ExtractYears(m).None?;
    if ExtractYears(m).None? {
      ExtractFailsFromColumn(t.records, YearColumns(t.columns));
    }
    if |t.records| > 0 && exists c :: c in YearColumns(t.columns) && ExtractYear(c).None? {
      ColumnFailsExtract(t.records, YearColumns(t.columns));
    }
  }

  lemma ExtractFailsFromColumn(recs: seq<RawRecord>, yc: seq<string>)
    requires ExtractYears(Melt(recs, yc)).None?
    ensures |recs| > 0 && exists c :: c in yc && ExtractYear(c).None?
  {
    var m := Melt(recs, yc);
    MeltProvenance(recs, yc);
    var p :| 0 <= p < |m| && ExtractYear(m[p].column).None?;
    var j, i :| 0 <= j < |yc| && 0 <= i < |recs| && MeltOf(recs[i], yc[j], m[p]);
    assert yc[j] in yc && ExtractYear(yc[j]).None?;
  }

  lemma ColumnFailsExtract(recs: seq<RawRecord>, yc: seq<string>)
    requires |recs| > 0 && exists c :: c in yc && ExtractYear(c).None?
    ensures ExtractYears(Melt(recs, yc)).None?
  {
    var m := Melt(recs, yc);
    var c :| c in yc && ExtractYear(c).None?;
    var j :| 0 <= j < |yc| && yc[j] == c;
    MeltCoverage(recs, yc, 0, j);
    var cell := MeltedCell(recs[0].country, recs[0].continent, yc[j], Cell(recs[0], yc[j]));
    var p :| 0 <= p < |m| && m[p] == cell;
    assert ExtractYear(m[p].column).None?;
  }

  // ---------------------------------------------------------------------------
  // The long rows are exactly the valid cells.

  /** Long cell `lc` is what record `rec`'s cell under year column `column` becomes. */
  predicate CellFrom(rec: RawRecord, column: string, lc: LongCell) {
    lc.country == rec.country && lc.continent == rec.continent &&
    ExtractYear(column) == Some(lc.year) && Cell(rec, column) == lc.value
  }

  lemma CellFromRecord(recs: seq<RawRecord>, yc: seq<string>, p: nat)
    requires ExtractYears(Melt(recs, yc)).Some? && p < |ExtractYears(Melt(recs, yc)).value|
    ensures exists i, c :: 0 <= i < |recs| && c in yc && CellFrom(recs[i], c, ExtractYears(Melt(recs, yc)).value[p])
  {
    var m := Melt(recs, yc);
    MeltProvenance(recs, yc);
    var j, i :| 0 <= j < |yc| && 0 <= i < |recs| && MeltOf(recs[i], yc[j], m[p]);
    assert yc[j] in yc && CellFrom(recs[i], yc[j], ExtractYears(m).value[p]);
  }

  /** The later steps only drop missing cells, reorder, and fill in growth. */
  lemma RowFromCell(cells: seq<LongCell>, long: seq<Row>, k: nat)
    requires long == GroupPctChange(SortRows(DropMissing(cells))) && k < |long|
    ensures LongCell(long[k].country, long[k].continent, long[k].year, Some(long[k].population)) in cells
  {
    var rows := SortRows(DropMissing(cells));
    assert rows[k] in multiset(rows);
    assert rows[k] in DropMissing(cells);
  }

  lemma CellToRow(cells: seq<LongCell>, long: seq<Row>, p: nat) returns (k: nat)
    requires long == GroupPctChange(SortRows(DropMissing(cells)))
    requires p < |cells| && cells[p].value.Some?
    ensures k < |long| &&
            LongCell(long[k].country, long[k].continent, long[k].year, Some(long[k].population)) == cells[p]
  {
    var row := Row(cells[p].country, cells[p].continent, cells[p].year, cells[p].value.value, None);
    k := SortedIndexOf(DropMissing(cells), row, cells, p);
  }

  lemma SortedIndexOf(dm: seq<Row>, row: Row, cells: seq<LongCell>, p: nat) returns (k: nat)
    requires dm == DropMissing(cells) && p < |cells| && cells[p].value.Some?
    requires row == Row(cells[p].country, cells[p].continent, cells[p].year, cells[p].value.value, None)
    ensures k < |SortRows(dm)| && SortRows(dm)[k] == row
  {
    DropMissingCovers(cells, p);
    assert row in multiset(SortRows(dm));
    k :| 0 <= k < |SortRows(dm)| && SortRows(dm)[k] == row;
  }

  /** Every long row comes from one record's numeric cell under a year column. */
  lemma LongRowsFromCells(t: RawTable)
    requires TransformData(t).Some?
    ensures forall r :: r in TransformData(t).value.long ==>
      exists i, c :: 0 <= i < |t.records| && c in YearColumns(t.columns) && FromCell(t.records[i], c, r)
  {
    var recs, yc := t.records, YearColumns(t.columns);
    var cells := ExtractYears(Melt(recs, yc)).value;
    var long := TransformData(t).value.long;
    assert long == GroupPctChange(SortRows(DropMissing(cells)));
    forall r | r in long
      ensures exists i, c :: 0 <= i < |recs| && c in yc && FromCell(recs[i], c, r)
    {
      RowFromRecord(recs, yc, cells, long, r);
    }
  }

  lemma RowFromRecord(recs: seq<RawRecord>, yc: seq<string>, cells: seq<LongCell>, long: seq<Row>, r: Row)
    requires ExtractYears(Melt(recs, yc)) == Some(cells)
    requires long == GroupPctChange(SortRows(DropMissing(cells))) && r in long
    ensures exists i, c :: 0 <= i < |recs| && c in yc && FromCell(recs[i], c, r)
  {
    var p := CellOfRow(cells, long, r);
    CellFromRecord(recs, yc, p);
    var i, c :| 0 <= i < |recs| && c in yc && CellFrom(recs[i], c, cells[p]);
    assert FromCell(recs[i], c, r);
  }

  lemma CellOfRow(cells: seq<LongCell>, long: seq<Row>, r: Row) returns (p: nat)
    requires long == GroupPctChange(SortRows(DropMissing(cells))) && r in long
    ensures p < |cells| && cells[p] == LongCell(r.country, r.continent, r.year, Some(r.population))
  {
    var k :| 0 <= k < |long| && long[k] == r;
    RowFromCell(cells, long, k);
    p :| 0 <= p < |cells| && cells[p] == LongCell(r.country, r.continent, r.year, Some(r.population));
  }

  lemma CellOfRecord(recs: seq<RawRecord>, yc: seq<string>, i: nat, j: nat) returns (p: nat)
    requires ExtractYears(Melt(recs, yc)).Some?
    requires i < |recs| && j < |yc|
    ensures p < |ExtractYears(Melt(recs, yc)).value| && CellFrom(recs[i], yc[j], ExtractYears(Melt(recs, yc)).value[p])
  {
    var m := Melt(recs, yc);
    MeltCoverage(recs, yc, i, j);
    var cell := MeltedCell(recs[i].country, recs[i].continent, yc[j], Cell(recs[i], yc[j]));
    p :| 0 <= p < |m| && m[p] == cell;
  }

  /** Every numeric cell under a year column becomes a long row: cells are
      dropped only when missing, never zero-filled. */
  lemma LongCoversCells(t: RawTable, i: nat, c: string)
    requires TransformData(t).Some?
    requires i < |t.records| && c in YearColumns(t.columns) && Cell(t.records[i], c).Some?
    ensures exists r :: r in TransformData(t).value.long && FromCell(t.records[i], c, r)
  {
    var recs, yc := t.records, YearColumns(t.columns);
    var cells := ExtractYears(Melt(recs, yc)).value;
    var long := TransformData(t).value.long;
    var j :| 0 <= j < |yc| && yc[j] == c;
    var p := CellOfRecord(recs, yc, i, j);
    var k := CellToRow(cells, long, p);
    assert long[k] in long && FromCell(recs[i], c, long[k]);
  }

  // ---------------------------------------------------------------------------
  // Row counts.

  lemma {:induction false} DropMissingCount(cells: seq<LongCell>, c: string)
    ensures |OfCountry(DropMissing(cells), c)| == |Filter(cells, ValidLongOf(c))|
  {
    if cells != [] {
      DropMissingCount(cells[1..], c);
      var head := match cells[0].value
        case Some(p) => [Row(cells[0].country, cells[0].continent, cells[0].year, p, None)]
        case None => [];
      assert DropMissing(cells) == head + DropMissing(cells[1..]);
      FilterConcat(head, DropMissing(cells[1..]), KeyIs(CountryOf, c));
    }
  }

  /** Melting over `cols` yields, for the only record named like `recs[k]`, one
      valid cell per column where it holds a number. */
  lemma {:induction false} MeltCount(recs: seq<RawRecord>, cols: seq<string>, k: nat)
    requires UniqueCountries(recs) && k < |recs|
    ensures |Filter(Melt(recs, cols), ValidMeltedOf(recs[k].country))| == |Filter(cols, CellPresent(recs[k]))|
  {
    if cols != [] {
      var c := recs[k].country;
      var head := MeltColumn(recs, cols[0]);
      MeltCount(recs, cols[1..], k);
      assert Melt(recs, cols) == head + Melt(recs, cols[1..]);
      FilterConcat(head, Melt(recs, cols[1..]), ValidMeltedOf(c));
      FilterSingle(head, k, ValidMeltedOf(c));
    }
  }

  /** Each country's row count equals its number of numeric year cells. */
  lemma RowCountPerCountry(t: RawTable, k: nat)
    requires TransformData(t).Some?
    requires UniqueCountries(t.records) && k < |t.records|
    ensures |OfCountry(TransformData(t).value.long, t.records[k].country)| ==
            |Filter(YearColumns(t.columns), CellPresent(t.records[k]))|
  {
    var recs, yc := t.records, YearColumns(t.columns);
    var c := recs[k].country;
    var m := Melt(recs, yc);
    var cells := ExtractYears(m).value;
    var dm := DropMissing(cells);
    var rows := SortRows(dm);
    var long := TransformData(t).value.long;
    assert long == GroupPctChange(rows);
    FilterCountPointwise(long, rows, KeyIs(CountryOf, c), KeyIs(CountryOf, c));
    FilterPermutation(rows, dm, KeyIs(CountryOf, c));
    DropMissingCount(cells, c);
    FilterCountPointwise(cells, m, ValidLongOf(c), ValidMeltedOf(c));
    MeltCount(recs, yc, k);
  }

  /** At most one long row per (record, year column). */
  lemma LongRowBound(t: RawTable)
    requires TransformData(t).Some?
    ensures |TransformData(t).value.long| <= |YearColumns(t.columns)| * |t.records|
  {
  }

  // ---------------------------------------------------------------------------
  // Order and growth.

  function Long(t: RawTable): seq<Row>
    requires TransformData(t).Some?
  {
    TransformData(t).value.long
  }

  /** `df_long` is sorted by (Country, Year). */
  lemma LongSorted(t: RawTable)
    requires TransformData(t).Some?
    ensures SortedByCountryYear(Long(t))
  {
    var rows := SortRows(DropMissing(ExtractYears(Melt(t.records, YearColumns(t.columns))).value));
    SortRowsSorted(DropMissing(ExtractYears(Melt(t.records, YearColumns(t.columns))).value));
    assert Long(t) == GroupPctChange(rows);
  }

  /** On rows sorted by (Country, Year), the grouped percent change compares each
      row with the row just before it when that row has the same Country, and is
      undefined at the start of each Country. */
  lemma GroupGrowthSorted(rows: seq<Row>, i: nat)
    requires SortedByCountryYear(rows) && i < |rows|
    ensures GroupPctChange(rows)[i].growth ==
      if i > 0 && rows[i - 1].country == rows[i].country
      then PctChange(rows[i - 1].population, rows[i].population)
      else None
  {
    var c := rows[i].country;
    LastIndexOfSpec(rows, i, c);
    if i > 0 && rows[i - 1].country != c && LastIndexOf(rows, i, c).Some? {
      var j := LastIndexOf(rows, i, c).value;
      assert RowLe(rows[j], rows[i - 1]) && RowLe(rows[i - 1], rows[i]);
      LexLessAsymmetric(c, rows[i - 1].country);
      assert false;
    }
  }

  /** Growth_Rate of each long row: undefined for a country's first row, else the
      percent change from the row before (whatever year that row has). */
  lemma LongGrowth(t: RawTable, i: nat)
    requires TransformData(t).Some? && i < |Long(t)|
    ensures Long(t)[i].growth ==
      if i > 0 && Long(t)[i - 1].country == Long(t)[i].country
      then PctChange(Long(t)[i - 1].population, Long(t)[i].population)
      else None
    ensures Long(t)[i].growth.None? <==>
      i == 0 || Long(t)[i - 1].country != Long(t)[i].country || Long(t)[i - 1].population == 0
  {
    var cells := DropMissing(ExtractYears(Melt(t.records, YearColumns(t.columns))).value);
    SortRowsSorted(cells);
    GroupGrowthSorted(SortRows(cells), i);
  }

  /** Each row's grouped percent change is what `calculate_growth_rate` returns
      for its Country's populations up to and including that row. */
  lemma GrowthAtMatchesCalculateGrowthRate(rows: seq<Row>, i: nat)
    requires i < |rows|
    ensures GrowthAt(rows, i) == CalculateGrowthRate(PopulationColumn(OfCountry(rows[..i + 1], rows[i].country)))
  {
    var c := rows[i].country;
    CountryPrefixShape(rows, i);
    var ps := PopulationColumn(OfCountry(rows[..i + 1], c));
    match LastIndexOf(rows, i, c)
    case None =>
      assert |ps| == 1;
    case Some(j) =>
      assert |ps| >= 2 && ps[|ps| - 1] == rows[i].population && ps[|ps| - 2] == rows[j].population;
  }

  /** A Country's rows up to row `i` end with the nearest earlier row of that
      Country (if any) and row `i`. */
  lemma CountryPrefixShape(rows: seq<Row>, i: nat)
    requires i < |rows|
    ensures LastIndexOf(rows, i, rows[i].country).None? ==> OfCountry(rows[..i + 1], rows[i].country) == [rows[i]]
    ensures LastIndexOf(rows, i, rows[i].country).Some? ==>
      var j := LastIndexOf(rows, i, rows[i].country).value;
      OfCountry(rows[..i + 1], rows[i].country) == OfCountry(rows[..j], rows[i].country) + [rows[j], rows[i]]
  {
    var c := rows[i].country;
    var f := KeyIs(CountryOf, c);
    assert forall k :: 0 <= k < |rows| ==> (f(rows[k]) <==> rows[k].country == c) by {
      forall k | 0 <= k < |rows| ensures f(rows[k]) <==> rows[k].country == c {
        assert CountryOf(rows[k]) == rows[k].country;
      }
    }
    LastIndexOfSpec(rows, i, c);
    match LastIndexOf(rows, i, c)
    case None =>
      FilterPrefixLastOne(rows, i, f);
    case Some(j) =>
      FilterPrefixLastTwo(rows, j, i, f);
  }

  // ---------------------------------------------------------------------------
  // The World rows and the combined table.

  /** One World row per distinct Year of `long`, ascending, holding that year's
      total; its growth compares consecutive yearly totals. */
  lemma WorldRowsShape(long: seq<Row>)
    ensures |WorldRows(long)| == |SortedYears(long)|
    ensures forall k :: 0 <= k < |WorldRows(long)| ==>
      WorldRows(long)[k].country == World && WorldRows(long)[k].continent == World &&
      WorldRows(long)[k].population == Total(ByYear(long, WorldRows(long)[k].year))
    ensures forall k, l :: 0 <= k < l < |WorldRows(long)| ==> WorldRows(long)[k].year < WorldRows(long)[l].year
    ensures forall y :: y in YearColumn(WorldRows(long)) <==> y in YearColumn(long)
    ensures |WorldRows(long)| > 0 ==> WorldRows(long)[0].growth.None?
    ensures forall k :: 0 < k < |WorldRows(long)| ==>
      WorldRows(long)[k].growth == PctChange(WorldRows(long)[k - 1].population, WorldRows(long)[k].population)
  {
    assert YearColumn(WorldRows(long)) == SortedYears(long);
  }

  lemma {:induction false} YearTotalsSum(long: seq<Row>, ys: seq<int>)
    ensures Total(YearTotals(long, ys)) == SumOverKeys(long, ys, YearOf, PopulationOf)
  {
    if ys != [] {
      YearTotalsSum(long, ys[1..]);
      assert YearTotals(long, ys) == [YearTotals(long, ys)[0]] + YearTotals(long, ys[1..]);
      TotalConcat([YearTotals(long, ys)[0]], YearTotals(long, ys[1..]));
    }
  }

  /** The World rows add up to the whole of `df_long`. */
  lemma WorldAdditivity(long: seq<Row>)
    ensures Total(WorldRows(long)) == Total(long)
  {
    var ys := SortedYears(long);
    SumOfPointwise(WorldRows(long), WorldTotals(long), PopulationOf, PopulationOf);
    YearTotalsSum(long, ys);
    forall i | 0 <= i < |long| ensures YearOf(long[i]) in ys {
      assert YearColumn(long)[i] == long[i].year;
    }
    SumOverKeysPartition(long, ys, YearOf, PopulationOf);
  }

  /** `df_long_with_world` is `df_long` followed by the World rows. */
  lemma CombinedShape(t: RawTable)
    requires TransformData(t).Some?
    ensures TransformData(t).value.combined == Long(t) + WorldRows(Long(t))
    ensures |TransformData(t).value.combined| == |Long(t)| + |SortedYears(Long(t))|
  {
    WorldRowsShape(Long(t));
  }

  /** Without a raw country named World, removing World keeps `df_long`, and
      selecting World keeps exactly the World rows. */
  lemma WorldSeparates(t: RawTable)
    requires TransformData(t).Some?
    requires forall i :: 0 <= i < |t.records| ==> t.records[i].country != World
    ensures NonWorld(TransformData(t).value.combined) == Long(t)
    ensures OfCountry(TransformData(t).value.combined, World) == WorldRows(Long(t))
    ensures OfCountry(Long(t), World) == []
  {
    LongHasNoWorld(t);
    CombinedShape(t);
    SplitWorld(Long(t));
  }

  lemma SplitWorld(long: seq<Row>)
    requires forall k :: 0 <= k < |long| ==> long[k].country != World
    ensures NonWorld(long + WorldRows(long)) == long
    ensures OfCountry(long + WorldRows(long), World) == WorldRows(long)
    ensures OfCountry(long, World) == []
  {
    var w := WorldRows(long);
    assert forall k :: 0 <= k < |w| ==> w[k].country == World;
    NonWorldOfAppend(long, w);
    FilterConcat(long, w, KeyIs(CountryOf, World));
    OfCountryNone(long, World);
    OfCountryAll(w, World);
  }

  /** Every long row's Country is a record's Country. */
  lemma LongHasNoWorld(t: RawTable)
    requires TransformData(t).Some?
    requires forall i :: 0 <= i < |t.records| ==> t.records[i].country != World
    ensures forall k :: 0 <= k < |Long(t)| ==> Long(t)[k].country != World
  {
    LongRowsFromCells(t);
    forall k | 0 <= k < |Long(t)| ensures Long(t)[k].country != World {
      assert Long(t)[k] in Long(t);
    }
  }
}
