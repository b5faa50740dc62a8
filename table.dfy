/** The long-form table every page reads (`df_long`, `df_long_with_world`):
    one `Row` per (Country, Year), and the filters and arithmetic the pages share. */
module Table {
  import opened Wrappers
  import opened Seqs
  import opened Strings

  /** The synthetic aggregate's Country and Continent. */
  const World: string := "World"

  /** The country both comparison pages single out. */
  const Kenya: string := "Kenya"

  /** Population is the coerced cell value; Growth_Rate is a percentage or NaN. */
  datatype Row = Row(country: string, continent: string, year: int, population: int, growth: Option<real>)

  // ---------------------------------------------------------------------------
  // Percentages. pandas divides by zero to inf or NaN; the model says None.

  /** num / den * 100 (see PercentScaled for what the value is). */
  function Percent(num: int, den: int): (r: Option<real>)
    ensures r.Some? <==> den != 0
  {
    if den == 0 then None else Some((num as real) / (den as real) * 100.0)
  }

  /** A percentage times its whole is 100 times its part. */
  lemma PercentScaled(num: int, den: int)
    requires den != 0
    ensures Percent(num, den).value * (den as real) == (num as real) * 100.0
  {
    assert (num as real) / (den as real) * (den as real) == num as real;
  }

  /** Over a positive whole a percentage is non-negative exactly when its part is. */
  lemma PercentSign(num: int, den: int)
    requires den > 0
    ensures Percent(num, den).value >= 0.0 <==> num >= 0
  {
    var q := (num as real) / (den as real);
    if num >= 0 {
      assert q >= 0.0;
    } else {
      assert q < 0.0;
    }
  }

  /** The percent change from `prev` to `cur` (`pct_change() * 100`), None when
      `prev` is zero (see PctChangeScaled). */
  function PctChange(prev: int, cur: int): (r: Option<real>)
    ensures r.Some? <==> prev != 0
  {
    Percent(cur - prev, prev)
  }

  lemma PctChangeScaled(prev: int, cur: int)
    requires prev != 0
    ensures PctChange(prev, cur).value * (prev as real) == ((cur - prev) as real) * 100.0
    ensures prev > 0 ==> (PctChange(prev, cur).value >= 0.0 <==> cur >= prev)
  {
    PercentScaled(cur - prev, prev);
    if prev > 0 { PercentSign(cur - prev, prev); }
  }

  // ---------------------------------------------------------------------------
  // The boolean masks the pages apply.

  function CountryOf(r: Row): string { r.country }

  function ContinentOf(r: Row): string { r.continent }

  function YearOf(r: Row): int { r.year }

  function NotWorld(r: Row): bool { r.country != World }

  function HasGrowth(r: Row): bool { r.growth.Some? }

  function ByYear(rows: seq<Row>, y: int): seq<Row> { Filter(rows, KeyIs(YearOf, y)) }

  function NonWorld(rows: seq<Row>): seq<Row> { Filter(rows, NotWorld) }

  function OfCountry(rows: seq<Row>, c: string): seq<Row> { Filter(rows, KeyIs(CountryOf, c)) }

  function InContinent(rows: seq<Row>, c: string): seq<Row> { Filter(rows, KeyIs(ContinentOf, c)) }

  /** `dropna(subset=['Growth_Rate'])`. */
  function GrowthDefined(rows: seq<Row>): seq<Row> { Filter(rows, HasGrowth) }

  // ---------------------------------------------------------------------------
  // Columns, keys and sums.

  function PopulationOf(r: Row): int { r.population }

  /** `rows['Population'].sum()`. */
  function Total(rows: seq<Row>): int { SumOf(rows, PopulationOf) }

  /** The Growth_Rate of a row whose rate is defined (0 otherwise, never used then). */
  function GrowthOf(r: Row): real { if r.growth.Some? then r.growth.value else 0.0 }

  function YearKey(r: Row): real { r.year as real }

  function PopulationKey(r: Row): real { r.population as real }

  function CountryColumn(rows: seq<Row>): (names: seq<string>)
    ensures |names| == |rows|
    ensures forall i :: 0 <= i < |rows| ==> names[i] == rows[i].country
  {
    seq(|rows|, i requires 0 <= i < |rows| => rows[i].country)
  }

  function ContinentColumn(rows: seq<Row>): (names: seq<string>)
    ensures |names| == |rows|
    ensures forall i :: 0 <= i < |rows| ==> names[i] == rows[i].continent
  {
    seq(|rows|, i requires 0 <= i < |rows| => rows[i].continent)
  }

  function PopulationColumn(rows: seq<Row>): (ps: seq<int>)
    ensures |ps| == |rows|
    ensures forall i :: 0 <= i < |rows| ==> ps[i] == rows[i].population
  {
    seq(|rows|, i requires 0 <= i < |rows| => rows[i].population)
  }

  function YearColumn(rows: seq<Row>): (ys: seq<int>)
    ensures |ys| == |rows|
    ensures forall i :: 0 <= i < |rows| ==> ys[i] == rows[i].year
  {
    seq(|rows|, i requires 0 <= i < |rows| => rows[i].year)
  }

  /** The largest Year of a non-empty table is some row's Year and bounds all. */
  lemma YearMax(rows: seq<Row>)
    requires |rows| > 0
    ensures exists r :: r in rows && r.year == MaxOf(YearColumn(rows))
    ensures forall r :: r in rows ==> r.year <= MaxOf(YearColumn(rows))
  {
    var m := MaxOf(YearColumn(rows));
    var i :| 0 <= i < |rows| && YearColumn(rows)[i] == m;
    assert rows[i] in rows;
    forall r | r in rows ensures r.year <= m {
      var j :| 0 <= j < |rows| && rows[j] == r;
      assert YearColumn(rows)[j] == r.year;
    }
  }

  /** The largest and smallest Population of a non-empty table are rows'
      Populations and bound all. */
  lemma PopulationRange(rows: seq<Row>)
    requires |rows| > 0
    ensures exists r :: r in rows && r.population == MaxOf(PopulationColumn(rows))
    ensures exists r :: r in rows && r.population == MinOf(PopulationColumn(rows))
    ensures forall r :: r in rows ==>
      MinOf(PopulationColumn(rows)) <= r.population <= MaxOf(PopulationColumn(rows))
  {
    var hi, lo := MaxOf(PopulationColumn(rows)), MinOf(PopulationColumn(rows));
    var i :| 0 <= i < |rows| && PopulationColumn(rows)[i] == hi;
    var k :| 0 <= k < |rows| && PopulationColumn(rows)[k] == lo;
    assert rows[i] in rows && rows[k] in rows;
    forall r | r in rows ensures lo <= r.population <= hi {
      var j :| 0 <= j < |rows| && rows[j] == r;
      assert PopulationColumn(rows)[j] == r.population;
    }
  }

  // ---------------------------------------------------------------------------
  // Distinct years, ascending (the keys of `groupby('Year')`).

  predicate StrictlyIncreasing(s: seq<int>) {
    forall i, j :: 0 <= i < j < |s| ==> s[i] < s[j]
  }

  function InsertYear(y: int, s: seq<int>): (r: seq<int>)
    requires StrictlyIncreasing(s)
    ensures StrictlyIncreasing(r)
    ensures forall x :: x in r <==> x == y || x in s
    ensures |r| <= |s| + 1
  {
    if s == [] then [y]
    else if y == s[0] then s
    else if y < s[0] then [y] + s
    else
      var rest := InsertYear(y, s[1..]);
      assert forall j :: 0 <= j < |rest| ==> s[0] < rest[j] by {
        forall j | 0 <= j < |rest| ensures s[0] < rest[j] { assert rest[j] in rest; }
      }
      [s[0]] + rest
  }

  /** The distinct Years of `rows`, ascending. */
  function SortedYears(rows: seq<Row>): (ys: seq<int>)
    ensures StrictlyIncreasing(ys)
    ensures forall y :: y in ys <==> y in YearColumn(rows)
    ensures |ys| <= |rows|
  {
    if rows == [] then []
    else
      assert YearColumn(rows) == [rows[0].year] + YearColumn(rows[1..]);
      InsertYear(rows[0].year, SortedYears(rows[1..]))
  }

  // ---------------------------------------------------------------------------
  // Facts about the masks.

  lemma OfCountryMembers(rows: seq<Row>, c: string)
    ensures forall r :: r in OfCountry(rows, c) <==> r in rows && r.country == c
  {
    forall r ensures KeyIs(CountryOf, c)(r) <==> r.country == c {
      assert CountryOf(r) == r.country;
    }
  }

  lemma InContinentMembers(rows: seq<Row>, c: string)
    ensures forall r :: r in InContinent(rows, c) <==> r in rows && r.continent == c
  {
    forall r ensures KeyIs(ContinentOf, c)(r) <==> r.continent == c {
      assert ContinentOf(r) == r.continent;
    }
  }

  /** A name is in the Country column exactly when some row has that Country. */
  lemma CountryColumnMembers(rows: seq<Row>, c: string)
    ensures c in CountryColumn(rows) <==> exists r :: r in rows && r.country == c
  {
    if c in CountryColumn(rows) {
      var i :| 0 <= i < |rows| && CountryColumn(rows)[i] == c;
      assert rows[i] in rows;
    }
    if r :| r in rows && r.country == c {
      var i :| 0 <= i < |rows| && rows[i] == r;
      assert CountryColumn(rows)[i] == c;
    }
  }

  lemma ByYearMembers(rows: seq<Row>, y: int)
    ensures forall r :: r in ByYear(rows, y) <==> r in rows && r.year == y
  {
    forall r ensures KeyIs(YearOf, y)(r) <==> r.year == y {
      assert YearOf(r) == r.year;
    }
  }

  lemma GrowthDefinedMembers(rows: seq<Row>)
    ensures forall r :: r in GrowthDefined(rows) <==> r in rows && r.growth.Some?
  {
  }

  /** `dropna(subset=['Growth_Rate'])` keeps each row with a defined rate as often
      as it occurs, drops the others, and keeps the rows in Year order if they were. */
  lemma GrowthDefinedExact(rows: seq<Row>)
    ensures forall r :: multiset(GrowthDefined(rows))[r] == if r.growth.Some? then multiset(rows)[r] else 0
    ensures SortedBy(rows, YearKey) ==> SortedBy(GrowthDefined(rows), YearKey)
  {
    FilterExact(rows, HasGrowth);
    if SortedBy(rows, YearKey) { FilterSorted(rows, HasGrowth, YearKey); }
  }

  lemma TotalConcat(a: seq<Row>, b: seq<Row>)
    ensures Total(a + b) == Total(a) + Total(b)
  {
    SumOfConcat(a, b, PopulationOf);
  }

  /** Removing the World rows from a table that (apart from them) has none
      named World leaves the rest exactly. */
  lemma NonWorldOfAppend(rows: seq<Row>, worlds: seq<Row>)
    requires forall i :: 0 <= i < |rows| ==> rows[i].country != World
    requires forall k :: 0 <= k < |worlds| ==> worlds[k].country == World
    ensures NonWorld(rows + worlds) == rows
  {
    FilterConcat(rows, worlds, NotWorld);
    FilterEverything(rows, NotWorld);
    FilterNothing(worlds, NotWorld);
  }

  /** A table with no row of Country `c` has no rows of `c`. */
  lemma OfCountryNone(rows: seq<Row>, c: string)
    requires forall i :: 0 <= i < |rows| ==> rows[i].country != c
    ensures OfCountry(rows, c) == []
  {
    forall i | 0 <= i < |rows| ensures !KeyIs(CountryOf, c)(rows[i]) {
      assert CountryOf(rows[i]) == rows[i].country;
    }
    FilterNothing(rows, KeyIs(CountryOf, c));
  }

  /** A table whose rows all have Country `c` is its own rows of `c`. */
  lemma OfCountryAll(rows: seq<Row>, c: string)
    requires forall i :: 0 <= i < |rows| ==> rows[i].country == c
    ensures OfCountry(rows, c) == rows
  {
    forall i | 0 <= i < |rows| ensures KeyIs(CountryOf, c)(rows[i]) {
      assert CountryOf(rows[i]) == rows[i].country;
    }
    FilterEverything(rows, KeyIs(CountryOf, c));
  }
}
