/** `df.pivot(index="date", columns="country", values=...)` and the pruning that follows it
    (Economics_DashBoard.py:553-568 and 461-469): drop the country columns that are
    entirely missing, then keep only the years that have at least one value. */
module Pivot {
  import opened Wrappers
  import Seqs
  import Ordering

  /** One (country, year, value) row of a single indicator. */
  datatype Obs<T> = Obs(country: string, year: int, value: Option<T>)

  /** A pivoted frame: the index (years, ascending), the columns (countries, in string
      order) and the cells that are not missing. */
  datatype Grid<T> = Grid(years: seq<int>, countries: seq<string>, cells: map<(int, string), T>)

  ghost predicate WellFormed<T>(g: Grid<T>) {
    && Ordering.StrictlySorted(g.years, Ordering.IntLt)
    && Ordering.StrictlySorted(g.countries, Ordering.StrLt)
    && forall k | k in g.cells :: k.0 in g.years && k.1 in g.countries
  }

  /** Two rows for the same (year, country): `pivot` raises ValueError. */
  predicate DuplicateEntries<T>(rows: seq<Obs<T>>) {
    exists i, j | 0 <= i < j < |rows| :: rows[i].year == rows[j].year && rows[i].country == rows[j].country
  }

  function YearsOf<T>(rows: seq<Obs<T>>): seq<int> {
    seq(|rows|, i requires 0 <= i < |rows| => rows[i].year)
  }

  function CountriesOf<T>(rows: seq<Obs<T>>): seq<string> {
    seq(|rows|, i requires 0 <= i < |rows| => rows[i].country)
  }

  function CellsOf<T>(rows: seq<Obs<T>>): map<(int, string), T>
    requires !DuplicateEntries(rows)
  {
    map i | 0 <= i < |rows| && rows[i].value.Some? :: (rows[i].year, rows[i].country) := rows[i].value.value
  }

  /** `None` when `pivot` raises. */
  function PivotRows<T>(rows: seq<Obs<T>>): (r: Option<Grid<T>>)
    ensures r.None? <==> DuplicateEntries(rows)
    ensures r.Some? ==> WellFormed(r.value)
  {
    if DuplicateEntries(rows) then None
    else
      Ordering.IntLtIsStrictTotalOrder();
      Ordering.StrLtIsStrictTotalOrder();
      var g := Grid(Ordering.SortedUnique(YearsOf(rows), Ordering.IntLt),
                    Ordering.SortedUnique(CountriesOf(rows), Ordering.StrLt),
                    CellsOf(rows));
      assert forall k | k in g.cells :: k.0 in YearsOf(rows) && k.1 in CountriesOf(rows) by {
        forall k | k in g.cells ensures k.0 in YearsOf(rows) && k.1 in CountriesOf(rows) {
          var i :| 0 <= i < |rows| && rows[i].value.Some? && k == (rows[i].year, rows[i].country);
          assert YearsOf(rows)[i] == k.0 && CountriesOf(rows)[i] == k.1;
        }
      }
      Some(g)
  }

  /** The pivot holds the rows and nothing else: its index is the set of years, its columns
      the set of countries, and (year, country) has a value exactly when a row with that
      year and country has one, and it is that row's value. */
  lemma PivotHoldsRows<T>(rows: seq<Obs<T>>)
    requires !DuplicateEntries(rows)
    ensures var g := PivotRows(rows).value;
      && (forall y :: y in g.years <==> exists i | 0 <= i < |rows| :: rows[i].year == y)
      && (forall c :: c in g.countries <==> exists i | 0 <= i < |rows| :: rows[i].country == c)
      && (forall y, c :: (y, c) in g.cells <==>
            exists i | 0 <= i < |rows| :: rows[i].year == y && rows[i].country == c && rows[i].value.Some?)
      && (forall i | 0 <= i < |rows| && rows[i].value.Some? ::
            (rows[i].year, rows[i].country) in g.cells && g.cells[(rows[i].year, rows[i].country)] == rows[i].value.value)
  {
    var g := PivotRows(rows).value;
    forall y | exists i | 0 <= i < |rows| :: rows[i].year == y ensures y in g.years {
      var i :| 0 <= i < |rows| && rows[i].year == y;
      assert YearsOf(rows)[i] == y;
    }
    forall c | exists i | 0 <= i < |rows| :: rows[i].country == c ensures c in g.countries {
      var i :| 0 <= i < |rows| && rows[i].country == c;
      assert CountriesOf(rows)[i] == c;
    }
  }

  predicate ColumnHasData<T>(g: Grid<T>, c: string) {
    exists y | y in g.years :: (y, c) in g.cells
  }

  predicate RowHasData<T>(g: Grid<T>, y: int) {
    exists c | c in g.countries :: (y, c) in g.cells
  }

  /** `gdp_pivot.columns[gdp_pivot.isna().all()].tolist()`: the all-missing columns, in
      column order. */
  function NoDataCountries<T>(g: Grid<T>): seq<string> {
    Seqs.Filter(g.countries, c => !ColumnHasData(g, c))
  }

  /** `drop(columns=..., errors='ignore')`: names that are not columns are ignored. */
  function DropCountries<T>(g: Grid<T>, drop: set<string>): Grid<T> {
    Grid(g.years, Seqs.Filter(g.countries, c => c !in drop), map k | k in g.cells && k.1 !in drop :: g.cells[k])
  }

  /** `DataFrame.empty`: no row or no column. */
  predicate IsEmpty<T>(g: Grid<T>) {
    |g.years| == 0 || |g.countries| == 0
  }

  /** Year `y` survives `dropna()`: every column has a value in it. */
  predicate RowComplete<T>(g: Grid<T>, y: int) {
    forall c | c in g.countries :: (y, c) in g.cells
  }

  /** `dropna()` keeps at least one row, so `dropna().index.min()` is a year. */
  predicate HasCompleteRow<T>(g: Grid<T>) {
    exists y | y in g.years :: RowComplete(g, y)
  }

  /** `gdp_pivot.index[gdp_pivot.notna().any(axis=1)]`: the years with a value. */
  function YearsWithData<T>(g: Grid<T>): seq<int> {
    Seqs.Filter(g.years, y => RowHasData(g, y))
  }

  /** `gdp_pivot.loc[years]`. */
  function KeepYears<T>(g: Grid<T>, years: seq<int>): Grid<T> {
    Grid(years, g.countries, map k | k in g.cells && k.0 in years :: g.cells[k])
  }

  function AsSet(xs: seq<string>): set<string> {
    set x | x in xs
  }

  /** Dropping the countries in `drop` keeps the frame well formed, removes exactly those
      columns and their cells, and leaves every other cell as it was. */
  lemma DropCountriesShape<T>(g: Grid<T>, drop: set<string>)
    requires WellFormed(g)
    ensures var d := DropCountries(g, drop);
      && WellFormed(d) && d.years == g.years
      && (forall c :: c in d.countries <==> c in g.countries && c !in drop)
      && (forall k :: k in d.cells <==> k in g.cells && k.1 !in drop)
      && (forall k | k in d.cells :: d.cells[k] == g.cells[k])
  {
    Ordering.FilterKeepsSorted(g.countries, c => c !in drop, Ordering.StrLt);
  }

  /** Year `y` occurs in the rows, and every country of the rows outside `drop` has a
      value in it. */
  ghost predicate CompleteAt<T>(rows: seq<Obs<T>>, drop: set<string>, y: int) {
    && (exists i | 0 <= i < |rows| :: rows[i].year == y)
    && forall i | 0 <= i < |rows| && rows[i].country !in drop ::
         exists k | 0 <= k < |rows| :: rows[k].country == rows[i].country && rows[k].year == y && rows[k].value.Some?
  }

  lemma CompleteRowGivesYear<T>(rows: seq<Obs<T>>, drop: set<string>, y: int)
    requires !DuplicateEntries(rows)
    requires y in PivotRows(rows).value.years && RowComplete(DropCountries(PivotRows(rows).value, drop), y)
    ensures CompleteAt(rows, drop, y)
  {
    var g := PivotRows(rows).value;
    PivotHoldsRows(rows);
    DropCountriesShape(g, drop);
    var d := DropCountries(g, drop);
    forall i | 0 <= i < |rows| && rows[i].country !in drop
      ensures exists k | 0 <= k < |rows| :: rows[k].country == rows[i].country && rows[k].year == y && rows[k].value.Some?
    {
      assert rows[i].country in d.countries;
      assert (y, rows[i].country) in g.cells;
    }
  }

  lemma YearGivesCompleteRow<T>(rows: seq<Obs<T>>, drop: set<string>, y: int)
    requires !DuplicateEntries(rows)
    requires CompleteAt(rows, drop, y)
    ensures y in PivotRows(rows).value.years && RowComplete(DropCountries(PivotRows(rows).value, drop), y)
  {
    var g := PivotRows(rows).value;
    PivotHoldsRows(rows);
    DropCountriesShape(g, drop);
    var d := DropCountries(g, drop);
    forall c | c in d.countries ensures (y, c) in d.cells {
      var i :| 0 <= i < |rows| && rows[i].country == c;
      var k :| 0 <= k < |rows| && rows[k].country == c && rows[k].year == y && rows[k].value.Some?;
    }
  }

  /** After pivoting the rows and dropping the columns in `drop`, `dropna()` keeps a row
      exactly when some year of the rows has a value for every country left. */
  lemma CompleteRowExactly<T>(rows: seq<Obs<T>>, drop: set<string>)
    requires !DuplicateEntries(rows)
    ensures HasCompleteRow(DropCountries(PivotRows(rows).value, drop)) <==> exists y :: CompleteAt(rows, drop, y)
  {
    var d := DropCountries(PivotRows(rows).value, drop);
    if HasCompleteRow(d) {
      var y :| y in d.years && RowComplete(d, y);
      CompleteRowGivesYear(rows, drop, y);
    }
    if exists y :: CompleteAt(rows, drop, y) {
      var y :| CompleteAt(rows, drop, y);
      YearGivesCompleteRow(rows, drop, y);
    }
  }

  lemma NoDataCountriesExactly<T>(g: Grid<T>)
    ensures forall c :: c in NoDataCountries(g) <==> c in g.countries && !ColumnHasData(g, c)
  {
  }

  lemma PrunedCountries<T>(g: Grid<T>)
    requires WellFormed(g)
    ensures WellFormed(Pruned(g)) && Pruned(g).years == g.years
    ensures forall c :: c in Pruned(g).countries <==> c in g.countries && ColumnHasData(g, c)
    ensures forall k :: k in Pruned(g).cells <==> k in g.cells && k.1 !in NoDataCountries(g)
    ensures forall k | k in Pruned(g).cells :: Pruned(g).cells[k] == g.cells[k]
  {
    DropCountriesShape(g, AsSet(NoDataCountries(g)));
    NoDataCountriesExactly(g);
  }

  lemma PrunedCells<T>(g: Grid<T>)
    requires WellFormed(g)
    ensures Pruned(g).cells == g.cells
  {
    PrunedCountries(g);
    forall k | k in g.cells ensures k in Pruned(g).cells {
      assert ColumnHasData(g, k.1);
    }
  }

  lemma PrunedColumnsHaveData<T>(g: Grid<T>)
    requires WellFormed(g)
    ensures forall c | c in Pruned(g).countries :: ColumnHasData(Pruned(g), c)
  {
    PrunedCountries(g);
    PrunedCells(g);
    forall c | c in Pruned(g).countries ensures ColumnHasData(Pruned(g), c) {
      var y :| y in g.years && (y, c) in g.cells;
      assert (y, c) in Pruned(g).cells;
    }
  }

  /** Pruning the all-missing columns: every remaining column has a value, the dropped
      columns are exactly the all-missing ones, and no value is lost. */
  lemma PruneNoDataCountries<T>(g: Grid<T>)
    requires WellFormed(g)
    ensures var missing := NoDataCountries(g);
      var p := Pruned(g);
      && WellFormed(p) && p.years == g.years
      && (forall c :: c in missing <==> c in g.countries && !ColumnHasData(g, c))
      && (forall c :: c in p.countries <==> c in g.countries && ColumnHasData(g, c))
      && (forall c | c in p.countries :: ColumnHasData(p, c))
      && p.cells == g.cells
  {
    NoDataCountriesExactly(g);
    PrunedCountries(g);
    PrunedCells(g);
    PrunedColumnsHaveData(g);
  }

  /** After the prune the frame is empty exactly when it held no value at all: the "no
      data" placeholder is shown if and only if every cell was missing. */
  lemma PrunedEmptyIffNoValue<T>(g: Grid<T>)
    requires WellFormed(g)
    ensures IsEmpty(Pruned(g)) <==> g.cells == map[]
  {
    PruneNoDataCountries(g);
    var p := DropCountries(g, AsSet(NoDataCountries(g)));
    if g.cells != map[] {
      var k :| k in g.cells;
      assert ColumnHasData(g, k.1);
      assert k.1 in p.countries;
    } else {
      Seqs.FilterNone(g.countries, c => c !in AsSet(NoDataCountries(g)));
    }
  }

  lemma KeepYearsCells<T>(g: Grid<T>)
    requires WellFormed(g)
    ensures var f := KeepYears(g, YearsWithData(g));
      && WellFormed(f) && f.countries == g.countries && f.cells == g.cells
      && (forall y :: y in f.years <==> y in g.years && RowHasData(g, y))
  {
    Ordering.FilterKeepsSorted(g.years, y => RowHasData(g, y), Ordering.IntLt);
    var f := KeepYears(g, YearsWithData(g));
    forall k | k in g.cells ensures k in f.cells {
      assert RowHasData(g, k.0);
    }
  }

  /** Keeping the years with data: the kept years are exactly those with a value, still
      ascending, and no value is lost. */
  lemma KeepYearsWithData<T>(g: Grid<T>)
    requires WellFormed(g)
    ensures var f := KeepYears(g, YearsWithData(g));
      && WellFormed(f) && f.countries == g.countries && f.cells == g.cells
      && (forall y :: y in f.years <==> y in g.years && RowHasData(g, y))
      && (forall y | y in f.years :: RowHasData(f, y))
  {
    KeepYearsCells(g);
    var f := KeepYears(g, YearsWithData(g));
    forall y | y in f.years ensures RowHasData(f, y) {
      var c :| c in g.countries && (y, c) in g.cells;
      assert (y, c) in f.cells;
    }
  }

  /** `gdp_pivot.drop(columns=missing_countries, errors='ignore')` with the all-missing
      columns as `missing_countries`. */
  function Pruned<T>(g: Grid<T>): Grid<T> {
    DropCountries(g, AsSet(NoDataCountries(g)))
  }

  /** The frame a bar or line chart is drawn from: pruned, then restricted to its years
      with data. */
  function Trimmed<T>(g: Grid<T>): Grid<T> {
    var p := Pruned(g);
    KeepYears(p, YearsWithData(p))
  }

  lemma TrimmedCells<T>(g: Grid<T>)
    requires WellFormed(g)
    ensures WellFormed(Trimmed(g)) && Trimmed(g).cells == g.cells
    ensures Trimmed(g).countries == Pruned(g).countries
    ensures forall c :: c in Pruned(g).countries <==> c in g.countries && ColumnHasData(g, c)
    ensures forall y :: y in Trimmed(g).years <==> y in g.years && RowHasData(Pruned(g), y)
  {
    PruneNoDataCountries(g);
    KeepYearsWithData(Pruned(g));
  }

  lemma TrimmedRows<T>(g: Grid<T>)
    requires WellFormed(g)
    ensures forall y :: RowHasData(Pruned(g), y) <==> RowHasData(g, y)
  {
    PruneNoDataCountries(g);
    var p := Pruned(g);
    forall y | RowHasData(g, y) ensures RowHasData(p, y) {
      var c :| c in g.countries && (y, c) in g.cells;
      assert ColumnHasData(g, c);
      assert c in p.countries;
    }
  }

  lemma TrimmedCountryHasCell<T>(g: Grid<T>, c: string)
    requires WellFormed(g) && c in Trimmed(g).countries
    ensures exists y :: y in g.years && (y, c) in g.cells
  {
    TrimmedCells(g);
  }

  lemma TrimmedYearHasCell<T>(g: Grid<T>, y: int)
    requires WellFormed(g) && y in Trimmed(g).years
    ensures exists c :: c in g.countries && (y, c) in g.cells
  {
    TrimmedCells(g);
    TrimmedRows(g);
  }

  lemma CellKeptYear<T>(g: Grid<T>, c: string, y: int)
    requires WellFormed(g) && y in g.years && (y, c) in g.cells
    ensures y in Trimmed(g).years
  {
    TrimmedCells(g);
    TrimmedRows(g);
    assert RowHasData(g, y);
  }

  lemma CellKeptCountry<T>(g: Grid<T>, c: string, y: int)
    requires WellFormed(g) && c in g.countries && (y, c) in g.cells
    ensures c in Trimmed(g).countries
  {
    TrimmedCells(g);
    assert ColumnHasData(g, c);
  }

  lemma CellShowsColumn<T>(g: Grid<T>, c: string, y: int)
    requires WellFormed(g) && c in Trimmed(g).countries && y in Trimmed(g).years && (y, c) in g.cells
    ensures ColumnHasData(Trimmed(g), c)
  {
    TrimmedCells(g);
  }

  lemma CellShowsRow<T>(g: Grid<T>, c: string, y: int)
    requires WellFormed(g) && c in Trimmed(g).countries && y in Trimmed(g).years && (y, c) in g.cells
    ensures RowHasData(Trimmed(g), y)
  {
    TrimmedCells(g);
  }

  lemma TrimmedColumn<T>(g: Grid<T>, c: string)
    requires WellFormed(g) && c in Trimmed(g).countries
    ensures ColumnHasData(Trimmed(g), c)
  {
    TrimmedCountryHasCell(g, c);
    var y :| y in g.years && (y, c) in g.cells;
    CellKeptYear(g, c, y);
    CellShowsColumn(g, c, y);
  }

  lemma TrimmedRow<T>(g: Grid<T>, y: int)
    requires WellFormed(g) && y in Trimmed(g).years
    ensures RowHasData(Trimmed(g), y)
  {
    TrimmedYearHasCell(g, y);
    var c :| c in g.countries && (y, c) in g.cells;
    CellKeptCountry(g, c, y);
    CellShowsRow(g, c, y);
  }

  /** The drawn frame holds every value of the pivot, shows exactly the countries and the
      years that have a value, and each of them has one in the drawn frame. */
  lemma TrimmedShape<T>(g: Grid<T>)
    requires WellFormed(g)
    ensures var f := Trimmed(g);
      && WellFormed(f) && f.cells == g.cells
      && (forall c :: c in f.countries <==> c in g.countries && ColumnHasData(g, c))
      && (forall y :: y in f.years <==> y in g.years && RowHasData(g, y))
      && (forall c | c in f.countries :: ColumnHasData(f, c))
      && (forall y | y in f.years :: RowHasData(f, y))
  {
    TrimmedCells(g);
    TrimmedRows(g);
    forall c | c in Trimmed(g).countries ensures ColumnHasData(Trimmed(g), c) {
      TrimmedColumn(g, c);
    }
    forall y | y in Trimmed(g).years ensures RowHasData(Trimmed(g), y) {
      TrimmedRow(g, y);
    }
  }
}
