/** What the analysis tab draws for each topic and indicator
    (Economics_DashBoard.py:419-568 and 664-666): the chart shape, the pivoted and pruned
    series behind a bar or line chart, and the combined population chart that joins
    population total with population growth. Figures themselves are not modelled; a
    panel records what would be drawn. A `pivot` that raises, or the population chart's
    earliest-year line meeting `pd.NA`, is not caught anywhere, so it ends the whole run:
    a panel function returns `None` then, and the topic and tab levels stop at the first
    such indicator. */
module Charts {
  import opened Wrappers
  import Seqs
  import Catalog
  import Reshape
  import Pivot
  import Keys
  import Decimal

  datatype Shape = Combined | Bar | Line

  /** Lines 443 and 546-549: population total takes the combined branch before the rank
      test; a rank indicator is drawn as bars; anything else as lines. */
  function ChartShape(id: string): Shape {
    if id == Catalog.PopulationTotalId then Combined
    else if id in Catalog.RankIndicators then Bar
    else Line
  }

  /** Every rank indicator is drawn as bars (population total is not one of them, so the
      earlier population test never takes one away), every other id but population total
      as lines. */
  lemma ShapeOfRankIndicators(id: string)
    ensures id in Catalog.RankIndicators ==> ChartShape(id) == Bar
    ensures id !in Catalog.RankIndicators && id != Catalog.PopulationTotalId ==> ChartShape(id) == Line
    ensures ChartShape(id) == Combined <==> id == Catalog.PopulationTotalId
  {
    assert Catalog.PopulationTotalId !in Catalog.RankIndicators;
  }

  /** The observations of one indicator: `df_topic[df_topic["indicator_id"] == id]`. */
  function IndicatorObs<T>(rows: seq<Reshape.Record<T>>, id: string): (obs: seq<Pivot.Obs<T>>)
    ensures forall o | o in obs :: exists r | r in rows ::
      r.entry.Some? && r.entry.value.id == id && o == Pivot.Obs(r.country, r.year, r.value)
    ensures forall r | r in rows && r.entry.Some? && r.entry.value.id == id ::
      Pivot.Obs(r.country, r.year, r.value) in obs
  {
    if rows == [] then []
    else
      var r := rows[0];
      assert forall x | x in rows :: x == r || x in rows[1..];
      (if r.entry.Some? && r.entry.value.id == id then [Pivot.Obs(r.country, r.year, r.value)] else [])
        + IndicatorObs(rows[1..], id)
  }

  /** Record `r` belongs to indicator `id`. */
  predicate Selects<T>(r: Reshape.Record<T>, id: string) {
    r.entry.Some? && r.entry.value.id == id
  }

  /** Two records of indicator `id` share a (year, country). */
  ghost predicate RepeatedKey<T>(rows: seq<Reshape.Record<T>>, id: string) {
    exists i, j | 0 <= i < j < |rows| ::
      Selects(rows[i], id) && Selects(rows[j], id) && rows[i].year == rows[j].year && rows[i].country == rows[j].country
  }

  lemma DuplicatesCons<T>(o: Pivot.Obs<T>, rest: seq<Pivot.Obs<T>>)
    ensures Pivot.DuplicateEntries([o] + rest) <==>
      Pivot.DuplicateEntries(rest) || exists k | 0 <= k < |rest| :: rest[k].year == o.year && rest[k].country == o.country
  {
    var xs := [o] + rest;
    if Pivot.DuplicateEntries(xs) {
      var i, j :| 0 <= i < j < |xs| && xs[i].year == xs[j].year && xs[i].country == xs[j].country;
      if i > 0 {
        assert rest[i - 1] == xs[i] && rest[j - 1] == xs[j];
      } else {
        assert rest[j - 1] == xs[j];
      }
    }
    if Pivot.DuplicateEntries(rest) {
      var i, j :| 0 <= i < j < |rest| && rest[i].year == rest[j].year && rest[i].country == rest[j].country;
      assert xs[i + 1] == rest[i] && xs[j + 1] == rest[j];
    }
    if exists k | 0 <= k < |rest| :: rest[k].year == o.year && rest[k].country == o.country {
      var k :| 0 <= k < |rest| && rest[k].year == o.year && rest[k].country == o.country;
      assert xs[k + 1] == rest[k] && xs[0] == o;
    }
  }

  lemma RepeatedKeyCons<T>(rows: seq<Reshape.Record<T>>, id: string)
    requires rows != []
    ensures RepeatedKey(rows, id) <==>
      RepeatedKey(rows[1..], id) ||
      (Selects(rows[0], id) && exists r | r in rows[1..] ::
         Selects(r, id) && r.year == rows[0].year && r.country == rows[0].country)
  {
    var rest := rows[1..];
    if RepeatedKey(rows, id) {
      var i, j :| 0 <= i < j < |rows| && Selects(rows[i], id) && Selects(rows[j], id) &&
        rows[i].year == rows[j].year && rows[i].country == rows[j].country;
      assert rest[j - 1] == rows[j];
      if i > 0 {
        assert rest[i - 1] == rows[i];
      }
    }
    if RepeatedKey(rest, id) {
      var i, j :| 0 <= i < j < |rest| && Selects(rest[i], id) && Selects(rest[j], id) &&
        rest[i].year == rest[j].year && rest[i].country == rest[j].country;
      assert rows[i + 1] == rest[i] && rows[j + 1] == rest[j];
    }
    if Selects(rows[0], id) && exists r | r in rest :: Selects(r, id) && r.year == rows[0].year && r.country == rows[0].country {
      var r :| r in rest && Selects(r, id) && r.year == rows[0].year && r.country == rows[0].country;
      var k :| 0 <= k < |rest| && rest[k] == r;
      assert rows[k + 1] == r;
    }
  }

  /** The observations of one indicator repeat a (year, country), so that its `pivot`
      raises, exactly when two records of that indicator share one. */
  lemma {:induction false} IndicatorObsDuplicates<T>(rows: seq<Reshape.Record<T>>, id: string)
    ensures Pivot.DuplicateEntries(IndicatorObs(rows, id)) <==> RepeatedKey(rows, id)
  {
    if rows != [] {
      var rest := IndicatorObs(rows[1..], id);
      IndicatorObsDuplicates(rows[1..], id);
      RepeatedKeyCons(rows, id);
      var r := rows[0];
      if Selects(r, id) {
        var o := Pivot.Obs(r.country, r.year, r.value);
        assert IndicatorObs(rows, id) == [o] + rest;
        DuplicatesCons(o, rest);
        if exists k | 0 <= k < |rest| :: rest[k].year == o.year && rest[k].country == o.country {
          var k :| 0 <= k < |rest| && rest[k].year == o.year && rest[k].country == o.country;
          assert rest[k] in rest;
        }
        if exists x | x in rows[1..] :: Selects(x, id) && x.year == r.year && x.country == r.country {
          var x :| x in rows[1..] && Selects(x, id) && x.year == r.year && x.country == r.country;
          var k :| 0 <= k < |rest| && rest[k] == Pivot.Obs(x.country, x.year, x.value);
        }
      } else {
        assert IndicatorObs(rows, id) == rest;
      }
    }
  }

  /** What one indicator's cell of the grid shows. A `pivot` that raises is not a panel:
      it ends the run (see `DrawPanels`). */
  datatype Panel<T> =
    | NoSeriesData(excluded: seq<string>)                      // line 563
    | Series(shape: Shape, excluded: seq<string>, grid: Pivot.Grid<T>, key: string)
    | GrowthMissing                                            // line 451
    | NoPopulationData(dropped: set<string>)                  // line 475
    | Population(dropped: set<string>, total: Pivot.Grid<T>, growth: Pivot.Grid<T>)

  /** Lines 551-568 and 664-666: pivot, drop the all-missing countries, show the
      placeholder if nothing is left, otherwise keep the years with a value. `None` when
      the pivot raises. */
  function SeriesPanel<T>(obs: seq<Pivot.Obs<T>>, shape: Shape, key: string): Option<Panel<T>> {
    match Pivot.PivotRows(obs)
    case None => None
    case Some(g) =>
      if Pivot.IsEmpty(Pivot.Pruned(g)) then Some(NoSeriesData(Pivot.NoDataCountries(g)))
      else Some(Series(shape, Pivot.NoDataCountries(g), Pivot.Trimmed(g), key))
  }

  /** The panel drawn is a bar or line chart. */
  predicate IsSeries<T>(p: Option<Panel<T>>) {
    p.Some? && p.value.Series?
  }

  ghost predicate HasValue<T>(obs: seq<Pivot.Obs<T>>, c: string) {
    exists i | 0 <= i < |obs| :: obs[i].country == c && obs[i].value.Some?
  }

  ghost predicate HasRow<T>(obs: seq<Pivot.Obs<T>>, c: string) {
    exists i | 0 <= i < |obs| :: obs[i].country == c
  }

  lemma ColumnHasDataIffValue<T>(obs: seq<Pivot.Obs<T>>)
    requires !Pivot.DuplicateEntries(obs)
    ensures var g := Pivot.PivotRows(obs).value;
      forall c :: Pivot.ColumnHasData(g, c) <==> HasValue(obs, c)
  {
    var g := Pivot.PivotRows(obs).value;
    Pivot.PivotHoldsRows(obs);
    forall c | HasValue(obs, c) ensures Pivot.ColumnHasData(g, c) {
      var i :| 0 <= i < |obs| && obs[i].country == c && obs[i].value.Some?;
      assert (obs[i].year, c) in g.cells;
    }
  }

  /** The "no data" placeholder appears exactly when the pivot succeeds and every value of
      the indicator is missing; the pivot raises exactly on duplicate (year, country) rows. */
  lemma SeriesPanelPlaceholder<T>(obs: seq<Pivot.Obs<T>>, shape: Shape, key: string)
    ensures SeriesPanel(obs, shape, key).None? <==> Pivot.DuplicateEntries(obs)
    ensures SeriesPanel(obs, shape, key).Some? && SeriesPanel(obs, shape, key).value.NoSeriesData? <==>
      !Pivot.DuplicateEntries(obs) && forall i | 0 <= i < |obs| :: obs[i].value.None?
  {
    if !Pivot.DuplicateEntries(obs) {
      var g := Pivot.PivotRows(obs).value;
      Pivot.PivotHoldsRows(obs);
      Pivot.PrunedEmptyIffNoValue(g);
      if g.cells != map[] {
        var k :| k in g.cells;
      }
    }
  }

  /** The countries a pivot of `obs` shows and prunes, in terms of the observations. */
  lemma SeriesGridFacts<T>(obs: seq<Pivot.Obs<T>>)
    requires !Pivot.DuplicateEntries(obs)
    ensures var g := Pivot.PivotRows(obs).value;
      && (forall c :: c in Pivot.Trimmed(g).countries <==> HasValue(obs, c))
      && (forall c :: c in Pivot.NoDataCountries(g) <==> HasRow(obs, c) && !HasValue(obs, c))
  {
    var g := Pivot.PivotRows(obs).value;
    Pivot.PivotHoldsRows(obs);
    ColumnHasDataIffValue(obs);
    Pivot.PruneNoDataCountries(g);
    Pivot.TrimmedShape(g);
  }

  /** A drawn series shows each country that has a value and no other, lists as excluded
      exactly the countries whose every value is missing, and every country it shows has a
      value in the years it shows. */
  lemma SeriesPanelCountries<T>(obs: seq<Pivot.Obs<T>>, shape: Shape, key: string)
    requires IsSeries(SeriesPanel(obs, shape, key))
    ensures var p := SeriesPanel(obs, shape, key).value;
      && p.shape == shape && p.key == key && Pivot.WellFormed(p.grid)
      && (forall c :: c in p.grid.countries <==> HasValue(obs, c))
      && (forall c :: c in p.excluded <==> HasRow(obs, c) && !HasValue(obs, c))
      && (forall c | c in p.grid.countries :: Pivot.ColumnHasData(p.grid, c))
  {
    SeriesGridFacts(obs);
    Pivot.TrimmedShape(Pivot.PivotRows(obs).value);
  }

  /** A drawn series keeps exactly the years in which some country has a value. */
  lemma SeriesPanelYears<T>(obs: seq<Pivot.Obs<T>>, shape: Shape, key: string)
    requires IsSeries(SeriesPanel(obs, shape, key))
    ensures var p := SeriesPanel(obs, shape, key).value;
      forall y :: y in p.grid.years <==> exists i | 0 <= i < |obs| :: obs[i].year == y && obs[i].value.Some?
  {
    Pivot.TrimmedShape(Pivot.PivotRows(obs).value);
    RowHasDataIffValue(obs);
  }

  lemma RowHasDataIffValue<T>(obs: seq<Pivot.Obs<T>>)
    requires !Pivot.DuplicateEntries(obs)
    ensures var g := Pivot.PivotRows(obs).value;
      forall y :: y in g.years && Pivot.RowHasData(g, y) <==>
        exists i | 0 <= i < |obs| :: obs[i].year == y && obs[i].value.Some?
  {
    var g := Pivot.PivotRows(obs).value;
    Pivot.PivotHoldsRows(obs);
    forall y | exists i | 0 <= i < |obs| :: obs[i].year == y && obs[i].value.Some?
      ensures y in g.years && Pivot.RowHasData(g, y)
    {
      var i :| 0 <= i < |obs| && obs[i].year == y && obs[i].value.Some?;
      assert (y, obs[i].country) in g.cells;
    }
  }

  /** A drawn series shows every value of the indicator at its (year, country) and no cell
      that no observation supplies. */
  lemma SeriesPanelCells<T>(obs: seq<Pivot.Obs<T>>, shape: Shape, key: string)
    requires IsSeries(SeriesPanel(obs, shape, key))
    ensures var p := SeriesPanel(obs, shape, key).value;
      && (forall i | 0 <= i < |obs| && obs[i].value.Some? ::
            (obs[i].year, obs[i].country) in p.grid.cells && p.grid.cells[(obs[i].year, obs[i].country)] == obs[i].value.value)
      && (forall y, c :: (y, c) in p.grid.cells ==>
            exists i | 0 <= i < |obs| :: obs[i].year == y && obs[i].country == c && obs[i].value.Some?)
  {
    Pivot.PivotHoldsRows(obs);
    Pivot.TrimmedShape(Pivot.PivotRows(obs).value);
  }

  /** Cell (row i, column j) of the wide table `t` holds value `v` for indicator `id` at
      year `y` and country `c`: row i is country `c` with a date that reads as `y`, and
      column j's label is the name of a catalog entry with that id. */
  ghost predicate TableCell<T>(t: Reshape.WideTable<T>, catalog: seq<Catalog.CatalogRow>, id: string, y: int, c: string, v: T)
    requires Reshape.Rectangular(t)
  {
    exists i, j | 0 <= i < |t.rows| && 0 <= j < |t.labels| ::
      && t.rows[i].country == c && Decimal.ToNumeric(t.rows[i].date) == Decimal.Integral(y)
      && t.rows[i].cells[j] == Some(v)
      && exists e | e in catalog :: e.id == id && e.name == t.labels[j]
  }

  lemma RecordIsTableCell<T>(filled: Reshape.WideTable<T>, catalog: seq<Catalog.CatalogRow>,
                             r: Reshape.Record<T>, i: int, j: int, id: string)
    requires Reshape.Rectangular(filled) && Reshape.FromCell(filled, catalog, r, i, j)
    requires Selects(r, id) && r.value.Some?
    ensures TableCell(filled, catalog, id, r.year, r.country, r.value.value)
  {
    assert r.entry.value in catalog && r.entry.value.name == filled.labels[j];
  }

  lemma RecordsAreTableCells<T>(filled: Reshape.WideTable<T>, catalog: seq<Catalog.CatalogRow>,
                                records: seq<Reshape.Record<T>>, id: string)
    requires Reshape.Rectangular(filled)
    requires forall r | r in records :: exists i, j :: Reshape.FromCell(filled, catalog, r, i, j)
    ensures var obs := IndicatorObs(records, id);
      forall k | 0 <= k < |obs| && obs[k].value.Some? ::
        TableCell(filled, catalog, id, obs[k].year, obs[k].country, obs[k].value.value)
  {
    var obs := IndicatorObs(records, id);
    forall k | 0 <= k < |obs| && obs[k].value.Some?
      ensures TableCell(filled, catalog, id, obs[k].year, obs[k].country, obs[k].value.value)
    {
      assert obs[k] in obs;
      var r :| r in records && Selects(r, id) && obs[k] == Pivot.Obs(r.country, r.year, r.value);
      var i, j :| Reshape.FromCell(filled, catalog, r, i, j);
      RecordIsTableCell(filled, catalog, r, i, j, id);
    }
  }

  /** The record that a table cell under the name of catalog entry `e` became, when every
      cell with a parsed date became one and catalog names are unique. */
  lemma CellRecord<T>(filled: Reshape.WideTable<T>, catalog: seq<Catalog.CatalogRow>,
                      records: seq<Reshape.Record<T>>, i: nat, j: nat, e: Catalog.CatalogRow)
    returns (r: Reshape.Record<T>)
    requires Reshape.Rectangular(filled) && Reshape.UniqueNames(catalog)
    requires forall i, j | 0 <= i < |filled.rows| && 0 <= j < |filled.labels| && Decimal.ToNumeric(filled.rows[i].date).Integral? ::
      Reshape.CellKept(filled, catalog, records, i, j)
    requires i < |filled.rows| && j < |filled.labels| && Decimal.ToNumeric(filled.rows[i].date).Integral?
    requires e in catalog && e.name == filled.labels[j]
    ensures r in records && r.entry == Some(e) && Reshape.FromCell(filled, catalog, r, i, j)
  {
    assert Reshape.CellKept(filled, catalog, records, i, j);
    r :| r in records && Reshape.FromCell(filled, catalog, r, i, j);
    assert Reshape.HasName(catalog, filled.labels[j]);
    var a :| 0 <= a < |catalog| && catalog[a] == e;
    var b :| 0 <= b < |catalog| && catalog[b] == r.entry.value;
    assert a == b;
  }

  /** With unique catalog names, every value in the table under a label of indicator
      `id`, on a row whose date reads as a year, is among the indicator's observations,
      when every such cell became a record. */
  lemma RecordsCoverTableCells<T>(filled: Reshape.WideTable<T>, catalog: seq<Catalog.CatalogRow>,
                                  records: seq<Reshape.Record<T>>, id: string)
    requires Reshape.Rectangular(filled) && Reshape.UniqueNames(catalog)
    requires forall i, j | 0 <= i < |filled.rows| && 0 <= j < |filled.labels| && Decimal.ToNumeric(filled.rows[i].date).Integral? ::
      Reshape.CellKept(filled, catalog, records, i, j)
    ensures forall y, c, v | TableCell(filled, catalog, id, y, c, v) :: Pivot.Obs(c, y, Some(v)) in IndicatorObs(records, id)
  {
    forall y, c, v | TableCell(filled, catalog, id, y, c, v)
      ensures Pivot.Obs(c, y, Some(v)) in IndicatorObs(records, id)
    {
      var i, j :| 0 <= i < |filled.rows| && 0 <= j < |filled.labels| &&
        filled.rows[i].country == c && Decimal.ToNumeric(filled.rows[i].date) == Decimal.Integral(y) &&
        filled.rows[i].cells[j] == Some(v) &&
        exists e | e in catalog :: e.id == id && e.name == filled.labels[j];
      var e :| e in catalog && e.id == id && e.name == filled.labels[j];
      var r := CellRecord(filled, catalog, records, i, j, e);
      assert Selects(r, id);
    }
  }

  /** A series panel over observations that are exactly the cells of a table: drawn
      exactly when some cell holds a value, and then showing exactly those cells. */
  lemma SeriesShowsCells<T>(obs: seq<Pivot.Obs<T>>, shape: Shape, key: string,
                            filled: Reshape.WideTable<T>, catalog: seq<Catalog.CatalogRow>, id: string)
    requires Reshape.Rectangular(filled)
    requires SeriesPanel(obs, shape, key).Some?
    requires forall k | 0 <= k < |obs| && obs[k].value.Some? ::
      TableCell(filled, catalog, id, obs[k].year, obs[k].country, obs[k].value.value)
    requires forall y, c, v | TableCell(filled, catalog, id, y, c, v) :: Pivot.Obs(c, y, Some(v)) in obs
    ensures var p := SeriesPanel(obs, shape, key).value;
      && (p.Series? <==> exists y, c, v :: TableCell(filled, catalog, id, y, c, v))
      && (p.Series? ==> forall y, c, v ::
            ((y, c) in p.grid.cells && p.grid.cells[(y, c)] == v) <==> TableCell(filled, catalog, id, y, c, v))
  {
    SeriesPanelPlaceholder(obs, shape, key);
    var p := SeriesPanel(obs, shape, key).value;
    if exists y, c, v :: TableCell(filled, catalog, id, y, c, v) {
      var y, c, v :| TableCell(filled, catalog, id, y, c, v);
      var k :| 0 <= k < |obs| && obs[k] == Pivot.Obs(c, y, Some(v));
    }
    if p.Series? {
      var k :| 0 <= k < |obs| && obs[k].value.Some?;
      assert TableCell(filled, catalog, id, obs[k].year, obs[k].country, obs[k].value.value);
      SeriesPanelCells(obs, shape, key);
      forall y, c, v | (y, c) in p.grid.cells && p.grid.cells[(y, c)] == v
        ensures TableCell(filled, catalog, id, y, c, v)
      {
        var k :| 0 <= k < |obs| && obs[k].year == y && obs[k].country == c && obs[k].value.Some?;
      }
      forall y, c, v | TableCell(filled, catalog, id, y, c, v)
        ensures (y, c) in p.grid.cells && p.grid.cells[(y, c)] == v
      {
        var k :| 0 <= k < |obs| && obs[k] == Pivot.Obs(c, y, Some(v));
      }
    }
  }

  /** From the fetched table to the drawn chart: once the pivot of indicator `id` succeeds,
      a bar or line chart is drawn exactly when the country-filled table holds a value
      for it, and the chart shows at (year, country) exactly the value of that table cell,
      and nothing else (with unique catalog names). */
  lemma PanelShowsTableCells<T>(selected: seq<string>, startYear: int, endYear: int,
                                t: Reshape.WideTable<T>, catalog: seq<Catalog.CatalogRow>,
                                prepared: Reshape.Prepared<T>, id: string, shape: Shape, key: string)
    requires Reshape.Rectangular(t) && Reshape.UniqueNames(catalog)
    requires Reshape.Prepare(selected, startYear, endYear, Some(t), catalog) == Success(prepared)
    requires SeriesPanel(IndicatorObs(prepared.records, id), shape, key).Some?
    ensures |selected| > 0
    ensures var filled := Reshape.FillCountry(t, selected).0;
      var p := SeriesPanel(IndicatorObs(prepared.records, id), shape, key).value;
      && (p.Series? <==> exists y, c, v :: TableCell(filled, catalog, id, y, c, v))
      && (p.Series? ==> forall y, c, v ::
            ((y, c) in p.grid.cells && p.grid.cells[(y, c)] == v) <==> TableCell(filled, catalog, id, y, c, v))
  {
    Reshape.PrepareFromCells(selected, startYear, endYear, t, catalog);
    var filled := Reshape.FillCountry(t, selected).0;
    RecordsAreTableCells(filled, catalog, prepared.records, id);
    RecordsCoverTableCells(filled, catalog, prepared.records, id);
    SeriesShowsCells(IndicatorObs(prepared.records, id), shape, key, filled, catalog, id);
  }

  /** Two different records of indicator `id` with the same (year, country) repeat a key. */
  lemma RepeatedKeyOfMembers<T>(rows: seq<Reshape.Record<T>>, id: string, r1: Reshape.Record<T>, r2: Reshape.Record<T>)
    requires r1 in rows && r2 in rows && r1 != r2
    requires Selects(r1, id) && Selects(r2, id) && r1.year == r2.year && r1.country == r2.country
    ensures RepeatedKey(rows, id)
  {
    var a :| 0 <= a < |rows| && rows[a] == r1;
    var b :| 0 <= b < |rows| && rows[b] == r2;
    if b < a {
      assert Selects(rows[b], id) && Selects(rows[a], id) && rows[b].year == rows[a].year;
    }
  }

  /** Line 375: when the table has no country column and several countries were selected,
      every row is "Unknown". Then two rows of the same year that differ under the label of
      a catalog entry make that entry's records of its topic repeat a (year, country), so
      its `pivot` raises and the run ends (unless it is population total, whose pivot is
      over the joined rows). */
  lemma UnknownCountryRaises<T(!new)>(selected: seq<string>, startYear: int, endYear: int,
                                t: Reshape.WideTable<T>, catalog: seq<Catalog.CatalogRow>,
                                prepared: Reshape.Prepared<T>, e: Catalog.CatalogRow,
                                i1: nat, i2: nat, j: nat, y: int)
    requires Reshape.Rectangular(t) && Reshape.UniqueNames(catalog)
    requires Reshape.Prepare(selected, startYear, endYear, Some(t), catalog) == Success(prepared)
    requires !t.hasCountry && |selected| > 1
    requires i1 < |t.rows| && i2 < |t.rows| && j < |t.labels|
    requires Decimal.ToNumeric(t.rows[i1].date) == Decimal.Integral(y)
    requires Decimal.ToNumeric(t.rows[i2].date) == Decimal.Integral(y)
    requires t.rows[i1].cells[j] != t.rows[i2].cells[j]
    requires e in catalog && e.name == t.labels[j]
    ensures RepeatedKey(TopicRecords(prepared.records, e.topic), e.id)
    ensures e.id != Catalog.PopulationTotalId ==> Raises(TopicRecords(prepared.records, e.topic), e)
  {
    Reshape.PrepareFromCells(selected, startYear, endYear, t, catalog);
    var filled := Reshape.FillCountry(t, selected).0;
    var r1 := CellRecord(filled, catalog, prepared.records, i1, j, e);
    var r2 := CellRecord(filled, catalog, prepared.records, i2, j, e);
    assert r1.value != r2.value;
    var rows := TopicRecords(prepared.records, e.topic);
    assert r1 in rows && r2 in rows;
    RepeatedKeyOfMembers(rows, e.id, r1, r2);
  }

  /** One row of `df_combined`: a (country, date) present in both series, with both values. */
  datatype Joined<T> = Joined(country: string, year: int, total: Option<T>, growth: Option<T>)

  function JoinRow<T>(t: Pivot.Obs<T>, growth: seq<Pivot.Obs<T>>): seq<Joined<T>> {
    if growth == [] then []
    else
      (if growth[0].country == t.country && growth[0].year == t.year
       then [Joined(t.country, t.year, t.value, growth[0].value)] else [])
      + JoinRow(t, growth[1..])
  }

  /** `pd.merge(total, growth, on=['country', 'date'])`: an inner join, in the order of the
      left rows. */
  function InnerJoin<T>(total: seq<Pivot.Obs<T>>, growth: seq<Pivot.Obs<T>>): seq<Joined<T>> {
    if total == [] then [] else JoinRow(total[0], growth) + InnerJoin(total[1..], growth)
  }

  ghost predicate JoinedFrom<T>(total: seq<Pivot.Obs<T>>, growth: seq<Pivot.Obs<T>>, p: Joined<T>) {
    exists i, j | 0 <= i < |total| && 0 <= j < |growth| ::
      && total[i].country == growth[j].country && total[i].year == growth[j].year
      && p == Joined(total[i].country, total[i].year, total[i].value, growth[j].value)
  }

  lemma {:induction false} JoinRowExactly<T>(t: Pivot.Obs<T>, growth: seq<Pivot.Obs<T>>)
    ensures forall p :: p in JoinRow(t, growth) <==>
      exists j | 0 <= j < |growth| :: growth[j].country == t.country && growth[j].year == t.year &&
        p == Joined(t.country, t.year, t.value, growth[j].value)
  {
    if growth != [] {
      JoinRowExactly(t, growth[1..]);
      forall p | (exists j | 0 <= j < |growth| :: growth[j].country == t.country && growth[j].year == t.year &&
                    p == Joined(t.country, t.year, t.value, growth[j].value))
        ensures p in JoinRow(t, growth)
      {
        var j :| 0 <= j < |growth| && growth[j].country == t.country && growth[j].year == t.year &&
          p == Joined(t.country, t.year, t.value, growth[j].value);
        if j > 0 {
          assert growth[1..][j - 1] == growth[j];
        }
      }
    }
  }

  /** Only (country, date) pairs present in both series survive the inner join, and every
      such pair of rows gives one joined row with both values. */
  lemma {:induction false} InnerJoinExactly<T>(total: seq<Pivot.Obs<T>>, growth: seq<Pivot.Obs<T>>)
    ensures forall p :: p in InnerJoin(total, growth) <==> JoinedFrom(total, growth, p)
  {
    if total != [] {
      InnerJoinExactly(total[1..], growth);
      JoinRowExactly(total[0], growth);
      forall p ensures p in InnerJoin(total, growth) <==> JoinedFrom(total, growth, p) {
        if JoinedFrom(total, growth, p) {
          var i, j :| 0 <= i < |total| && 0 <= j < |growth| &&
            total[i].country == growth[j].country && total[i].year == growth[j].year &&
            p == Joined(total[i].country, total[i].year, total[i].value, growth[j].value);
          if i > 0 {
            assert total[1..][i - 1] == total[i];
            assert JoinedFrom(total[1..], growth, p);
          }
        }
        if JoinedFrom(total[1..], growth, p) {
          var i, j :| 0 <= i < |total[1..]| && 0 <= j < |growth| &&
            total[1..][i].country == growth[j].country && total[1..][i].year == growth[j].year &&
            p == Joined(total[1..][i].country, total[1..][i].year, total[1..][i].value, growth[j].value);
          assert total[i + 1] == total[1..][i];
        }
      }
    }
  }

  /** The number of rows of `growth` with the (country, date) of `t`. */
  function MatchCount<T>(t: Pivot.Obs<T>, growth: seq<Pivot.Obs<T>>): nat {
    if growth == [] then 0
    else (if growth[0].country == t.country && growth[0].year == t.year then 1 else 0) + MatchCount(t, growth[1..])
  }

  /** The number of (total, growth) row pairs that share a (country, date). */
  function PairCount<T>(total: seq<Pivot.Obs<T>>, growth: seq<Pivot.Obs<T>>): nat {
    if total == [] then 0 else MatchCount(total[0], growth) + PairCount(total[1..], growth)
  }

  lemma MatchCountPrefix<T>(t: Pivot.Obs<T>, growth: seq<Pivot.Obs<T>>, j: nat)
    requires 0 < j <= |growth|
    ensures MatchCount(t, growth[..j]) ==
      (if growth[0].country == t.country && growth[0].year == t.year then 1 else 0) + MatchCount(t, growth[1..][..j - 1])
  {
    assert growth[..j][1..] == growth[1..][..j - 1];
  }

  lemma PairCountPrefix<T>(total: seq<Pivot.Obs<T>>, growth: seq<Pivot.Obs<T>>, i: nat)
    requires 0 < i <= |total|
    ensures PairCount(total[..i], growth) == MatchCount(total[0], growth) + PairCount(total[1..][..i - 1], growth)
  {
    assert total[..i][1..] == total[1..][..i - 1];
  }

  /** The rows one total row contributes: one per growth row with its (country, date), in
      growth order (growth row j lands after the matching rows before it). */
  lemma {:induction false} JoinRowPositions<T>(t: Pivot.Obs<T>, growth: seq<Pivot.Obs<T>>)
    ensures |JoinRow(t, growth)| == MatchCount(t, growth)
    ensures forall j | 0 <= j < |growth| && growth[j].country == t.country && growth[j].year == t.year ::
      && MatchCount(t, growth[..j]) < |JoinRow(t, growth)|
      && JoinRow(t, growth)[MatchCount(t, growth[..j])] == Joined(t.country, t.year, t.value, growth[j].value)
  {
    if growth != [] {
      JoinRowPositions(t, growth[1..]);
      var head := if growth[0].country == t.country && growth[0].year == t.year
        then [Joined(t.country, t.year, t.value, growth[0].value)] else [];
      assert JoinRow(t, growth) == head + JoinRow(t, growth[1..]);
      forall j | 0 <= j < |growth| && growth[j].country == t.country && growth[j].year == t.year
        ensures && MatchCount(t, growth[..j]) < |JoinRow(t, growth)|
                && JoinRow(t, growth)[MatchCount(t, growth[..j])] == Joined(t.country, t.year, t.value, growth[j].value)
      {
        if j == 0 {
          assert growth[..0] == [];
        } else {
          MatchCountPrefix(t, growth, j);
          assert growth[1..][j - 1] == growth[j];
        }
      }
    }
  }

  lemma {:induction false} InnerJoinLength<T>(total: seq<Pivot.Obs<T>>, growth: seq<Pivot.Obs<T>>)
    ensures |InnerJoin(total, growth)| == PairCount(total, growth)
  {
    if total != [] {
      InnerJoinLength(total[1..], growth);
      JoinRowPositions(total[0], growth);
    }
  }

  lemma {:induction false} InnerJoinAt<T>(total: seq<Pivot.Obs<T>>, growth: seq<Pivot.Obs<T>>, i: nat, j: nat)
    requires i < |total| && j < |growth| && total[i].country == growth[j].country && total[i].year == growth[j].year
    ensures PairCount(total[..i], growth) + MatchCount(total[i], growth[..j]) < |InnerJoin(total, growth)|
    ensures InnerJoin(total, growth)[PairCount(total[..i], growth) + MatchCount(total[i], growth[..j])]
      == Joined(total[i].country, total[i].year, total[i].value, growth[j].value)
  {
    var head := JoinRow(total[0], growth);
    var rest := InnerJoin(total[1..], growth);
    assert InnerJoin(total, growth) == head + rest;
    JoinRowPositions(total[0], growth);
    if i == 0 {
      assert total[..0] == [];
      assert PairCount(total[..i], growth) == 0;
    } else {
      assert total[1..][i - 1] == total[i];
      InnerJoinAt(total[1..], growth, i - 1, j);
      PairCountPrefix(total, growth, i);
      var k := PairCount(total[1..][..i - 1], growth) + MatchCount(total[i], growth[..j]);
      assert (head + rest)[|head| + k] == rest[k];
    }
  }

  /** `df_combined` has one row per (total, growth) pair sharing a (country, date) and no
      other: the pair (i, j) is at the position after the pairs of the total rows before i
      and the growth rows before j that match total row i. So the rows come total row by
      total row, each in growth order. */
  lemma InnerJoinPositions<T>(total: seq<Pivot.Obs<T>>, growth: seq<Pivot.Obs<T>>)
    ensures |InnerJoin(total, growth)| == PairCount(total, growth)
    ensures forall i, j | 0 <= i < |total| && 0 <= j < |growth| &&
                          total[i].country == growth[j].country && total[i].year == growth[j].year ::
      && PairCount(total[..i], growth) + MatchCount(total[i], growth[..j]) < |InnerJoin(total, growth)|
      && InnerJoin(total, growth)[PairCount(total[..i], growth) + MatchCount(total[i], growth[..j])]
           == Joined(total[i].country, total[i].year, total[i].value, growth[j].value)
  {
    InnerJoinLength(total, growth);
    forall i, j | 0 <= i < |total| && 0 <= j < |growth| &&
                  total[i].country == growth[j].country && total[i].year == growth[j].year
      ensures && PairCount(total[..i], growth) + MatchCount(total[i], growth[..j]) < |InnerJoin(total, growth)|
              && InnerJoin(total, growth)[PairCount(total[..i], growth) + MatchCount(total[i], growth[..j])]
                   == Joined(total[i].country, total[i].year, total[i].value, growth[j].value)
    {
      InnerJoinAt(total, growth, i, j);
    }
  }

  /** The `value_total` and `value_growth` columns of `df_combined`, as observations. */
  function TotalSide<T>(joined: seq<Joined<T>>): seq<Pivot.Obs<T>> {
    seq(|joined|, i requires 0 <= i < |joined| => Pivot.Obs(joined[i].country, joined[i].year, joined[i].total))
  }

  function GrowthSide<T>(joined: seq<Joined<T>>): seq<Pivot.Obs<T>> {
    seq(|joined|, i requires 0 <= i < |joined| => Pivot.Obs(joined[i].country, joined[i].year, joined[i].growth))
  }

  /** `df_combined` for a topic's rows. */
  function PopulationJoined<T>(rows: seq<Reshape.Record<T>>): seq<Joined<T>> {
    InnerJoin(IndicatorObs(rows, Catalog.PopulationTotalId), IndicatorObs(rows, Catalog.PopulationGrowthId))
  }

  /** `all_missing = set(missing_total) | set(missing_growth)` (lines 459-463). */
  function NoDataInEither<T>(gt: Pivot.Grid<T>, gg: Pivot.Grid<T>): set<string> {
    Pivot.AsSet(Pivot.NoDataCountries(gt)) + Pivot.AsSet(Pivot.NoDataCountries(gg))
  }

  /** Lines 443-480: population total and growth are inner-joined on (country, date), both
      pivoted, and the union of the countries that are all-missing in either pivot is
      dropped from both. When something is left to draw but one of the two pivots has no
      year with a value for every country left, its `dropna()` is empty, its
      `index.min()` on the `Int64` index is `pd.NA`, and `filter(None, ...)` at line 480
      raises `TypeError` on it: `None` here too. */
  function PopulationPanel<T>(rows: seq<Reshape.Record<T>>): Option<Panel<T>> {
    if IndicatorObs(rows, Catalog.PopulationGrowthId) == [] then Some(GrowthMissing)
    else
      var joined := PopulationJoined(rows);
      match (Pivot.PivotRows(TotalSide(joined)), Pivot.PivotRows(GrowthSide(joined)))
      case (Some(gt), Some(gg)) =>
        var dropped := NoDataInEither(gt, gg);
        var pt := Pivot.DropCountries(gt, dropped);
        var pg := Pivot.DropCountries(gg, dropped);
        if Pivot.IsEmpty(pt) && Pivot.IsEmpty(pg) then Some(NoPopulationData(dropped))
        else if !Pivot.HasCompleteRow(pt) || !Pivot.HasCompleteRow(pg) then None
        else Some(Population(dropped, pt, pg))
      case _ => None
  }

  /** The growth warning is shown exactly when the topic has no population-growth row. */
  lemma PopulationGrowthWarning<T>(rows: seq<Reshape.Record<T>>)
    ensures PopulationPanel(rows) == Some(GrowthMissing) <==>
      !exists r | r in rows :: r.entry.Some? && r.entry.value.id == Catalog.PopulationGrowthId
  {
    var growth := IndicatorObs(rows, Catalog.PopulationGrowthId);
    if growth != [] {
      assert growth[0] in growth;
    }
  }

  lemma SidesShareKeys<T>(joined: seq<Joined<T>>)
    ensures Pivot.DuplicateEntries(TotalSide(joined)) <==> Pivot.DuplicateEntries(GrowthSide(joined))
    ensures !Pivot.DuplicateEntries(TotalSide(joined)) ==>
      Pivot.PivotRows(TotalSide(joined)).value.years == Pivot.PivotRows(GrowthSide(joined)).value.years &&
      Pivot.PivotRows(TotalSide(joined)).value.countries == Pivot.PivotRows(GrowthSide(joined)).value.countries
  {
    assert Pivot.YearsOf(TotalSide(joined)) == Pivot.YearsOf(GrowthSide(joined));
    assert Pivot.CountriesOf(TotalSide(joined)) == Pivot.CountriesOf(GrowthSide(joined));
    var ts, gs := TotalSide(joined), GrowthSide(joined);
    if Pivot.DuplicateEntries(ts) {
      var i, j :| 0 <= i < j < |ts| && ts[i].year == ts[j].year && ts[i].country == ts[j].country;
      assert gs[i].year == gs[j].year && gs[i].country == gs[j].country;
    }
    if Pivot.DuplicateEntries(gs) {
      var i, j :| 0 <= i < j < |gs| && gs[i].year == gs[j].year && gs[i].country == gs[j].country;
      assert ts[i].year == ts[j].year && ts[i].country == ts[j].country;
    }
  }

  /** Two rows of `df_combined` share a (country, date). */
  ghost predicate JoinRepeats<T>(joined: seq<Joined<T>>) {
    exists i, j | 0 <= i < j < |joined| :: joined[i].year == joined[j].year && joined[i].country == joined[j].country
  }

  /** The population panel raises exactly when the topic has growth rows and either the
      inner join repeats a (country, date) or the earliest-year computation meets `pd.NA`. */
  lemma PopulationRaises<T>(rows: seq<Reshape.Record<T>>)
    ensures PopulationPanel(rows).None? <==>
      && IndicatorObs(rows, Catalog.PopulationGrowthId) != []
      && (JoinRepeats(PopulationJoined(rows)) || EarliestYearRaises(PopulationJoined(rows)))
  {
    var joined := PopulationJoined(rows);
    SidesShareKeys(joined);
    JoinRepeatsIffDuplicates(joined);
    if !JoinRepeats(joined) {
      var gt := Pivot.PivotRows(TotalSide(joined)).value;
      var gg := Pivot.PivotRows(GrowthSide(joined)).value;
      EarliestYearExactly(joined, gt, gg);
    }
  }

  lemma JoinRepeatsIffDuplicates<T>(joined: seq<Joined<T>>)
    ensures JoinRepeats(joined) <==> Pivot.DuplicateEntries(TotalSide(joined))
  {
    var ts := TotalSide(joined);
    if JoinRepeats(joined) {
      var i, j :| 0 <= i < j < |joined| && joined[i].year == joined[j].year && joined[i].country == joined[j].country;
      assert ts[i].year == ts[j].year && ts[i].country == ts[j].country;
    }
    if Pivot.DuplicateEntries(ts) {
      var i, j :| 0 <= i < j < |ts| && ts[i].year == ts[j].year && ts[i].country == ts[j].country;
      assert joined[i].year == joined[j].year && joined[i].country == joined[j].country;
    }
  }

  ghost predicate InJoin<T>(joined: seq<Joined<T>>, c: string) {
    exists i | 0 <= i < |joined| :: joined[i].country == c
  }

  ghost predicate AllTotalMissing<T>(joined: seq<Joined<T>>, c: string) {
    forall i | 0 <= i < |joined| && joined[i].country == c :: joined[i].total.None?
  }

  ghost predicate AllGrowthMissing<T>(joined: seq<Joined<T>>, c: string) {
    forall i | 0 <= i < |joined| && joined[i].country == c :: joined[i].growth.None?
  }

  lemma SideValues<T>(joined: seq<Joined<T>>)
    ensures forall c :: HasRow(TotalSide(joined), c) <==> InJoin(joined, c)
    ensures forall c :: HasRow(GrowthSide(joined), c) <==> InJoin(joined, c)
    ensures forall c :: HasValue(TotalSide(joined), c) <==> !AllTotalMissing(joined, c)
    ensures forall c :: HasValue(GrowthSide(joined), c) <==> !AllGrowthMissing(joined, c)
  {
    var ts, gs := TotalSide(joined), GrowthSide(joined);
    forall c ensures HasRow(ts, c) <==> InJoin(joined, c) {
      if InJoin(joined, c) {
        var i :| 0 <= i < |joined| && joined[i].country == c;
        assert ts[i].country == c;
      }
    }
    forall c ensures HasRow(gs, c) <==> InJoin(joined, c) {
      if InJoin(joined, c) {
        var i :| 0 <= i < |joined| && joined[i].country == c;
        assert gs[i].country == c;
      }
    }
    forall c ensures HasValue(ts, c) <==> !AllTotalMissing(joined, c) {
      if !AllTotalMissing(joined, c) {
        var k :| 0 <= k < |joined| && joined[k].country == c && joined[k].total.Some?;
        assert ts[k].country == c && ts[k].value.Some?;
      }
    }
    forall c ensures HasValue(gs, c) <==> !AllGrowthMissing(joined, c) {
      if !AllGrowthMissing(joined, c) {
        var k :| 0 <= k < |joined| && joined[k].country == c && joined[k].growth.Some?;
        assert gs[k].country == c && gs[k].value.Some?;
      }
    }
  }

  /** The countries dropped from both population pivots are exactly the joined countries
      whose total is missing throughout or whose growth is missing throughout. */
  lemma {:induction false} PopulationDropped<T>(joined: seq<Joined<T>>)
    requires !Pivot.DuplicateEntries(TotalSide(joined)) && !Pivot.DuplicateEntries(GrowthSide(joined))
    ensures var gt := Pivot.PivotRows(TotalSide(joined)).value;
      var gg := Pivot.PivotRows(GrowthSide(joined)).value;
      forall c :: c in NoDataInEither(gt, gg) <==>
        InJoin(joined, c) && (AllTotalMissing(joined, c) || AllGrowthMissing(joined, c))
  {
    SidesShareKeys(joined);
    SeriesGridFacts(TotalSide(joined));
    SeriesGridFacts(GrowthSide(joined));
    SideValues(joined);
  }

  /** A joined country kept in both population pivots: neither of its series is missing
      throughout. */
  ghost predicate Kept<T>(joined: seq<Joined<T>>, c: string) {
    !AllTotalMissing(joined, c) && !AllGrowthMissing(joined, c)
  }

  /** The joined countries that are not kept: `all_missing` as a property of the join. */
  ghost function DroppedOf<T>(joined: seq<Joined<T>>): set<string> {
    set i | 0 <= i < |joined| && !Kept(joined, joined[i].country) :: joined[i].country
  }

  ghost predicate SomeKept<T>(joined: seq<Joined<T>>) {
    exists i | 0 <= i < |joined| :: Kept(joined, joined[i].country)
  }

  /** `gdp_pivot_total.dropna()` keeps a year: some year of the join has a total for every
      kept country. */
  ghost predicate TotalHasComplete<T>(joined: seq<Joined<T>>) {
    exists y :: Pivot.CompleteAt(TotalSide(joined), DroppedOf(joined), y)
  }

  /** `gdp_pivot_growth.dropna()` keeps a year. */
  ghost predicate GrowthHasComplete<T>(joined: seq<Joined<T>>) {
    exists y :: Pivot.CompleteAt(GrowthSide(joined), DroppedOf(joined), y)
  }

  /** Line 480 raises: some country is kept, but the total or the growth series has no
      year complete across the kept countries. */
  ghost predicate EarliestYearRaises<T>(joined: seq<Joined<T>>) {
    SomeKept(joined) && !(TotalHasComplete(joined) && GrowthHasComplete(joined))
  }

  /** The countries dropped from both population pivots, as a property of the join. */
  ghost predicate DroppedExactly<T>(joined: seq<Joined<T>>, dropped: set<string>) {
    forall c :: c in dropped <==> InJoin(joined, c) && (AllTotalMissing(joined, c) || AllGrowthMissing(joined, c))
  }

  lemma KeptIffNotDropped<T>(joined: seq<Joined<T>>, dropped: set<string>, i: nat)
    requires DroppedExactly(joined, dropped) && i < |joined|
    ensures joined[i].country !in dropped <==> Kept(joined, joined[i].country)
  {
    assert InJoin(joined, joined[i].country);
  }

  /** One side of the join, pivoted to `g` with the `dropped` countries removed, has a
      column left exactly when some joined country is kept. */
  lemma PopulationShown<T>(joined: seq<Joined<T>>, side: seq<Pivot.Obs<T>>, g: Pivot.Grid<T>, dropped: set<string>)
    requires side == TotalSide(joined) || side == GrowthSide(joined)
    requires Pivot.PivotRows(side) == Some(g)
    requires DroppedExactly(joined, dropped)
    ensures !Pivot.IsEmpty(Pivot.DropCountries(g, dropped)) <==> SomeKept(joined)
  {
    SidesAligned(joined);
    Pivot.PivotHoldsRows(side);
    Pivot.DropCountriesShape(g, dropped);
    var d := Pivot.DropCountries(g, dropped);
    if |d.countries| > 0 {
      var c := d.countries[0];
      assert c in g.countries && c !in dropped;
      var i :| 0 <= i < |side| && side[i].country == c;
      KeptIffNotDropped(joined, dropped, i);
    }
    if SomeKept(joined) {
      var i :| 0 <= i < |joined| && Kept(joined, joined[i].country);
      KeptIffNotDropped(joined, dropped, i);
      assert side[i].country in d.countries;
      assert side[i].year in d.years;
    }
  }

  /** `all_missing` is the set of joined countries that are not kept. */
  lemma DroppedOfPivots<T>(joined: seq<Joined<T>>, gt: Pivot.Grid<T>, gg: Pivot.Grid<T>)
    requires Pivot.PivotRows(TotalSide(joined)) == Some(gt) && Pivot.PivotRows(GrowthSide(joined)) == Some(gg)
    ensures DroppedExactly(joined, NoDataInEither(gt, gg))
    ensures NoDataInEither(gt, gg) == DroppedOf(joined)
  {
    PopulationDropped(joined);
    var dropped := NoDataInEither(gt, gg);
    forall c | c in dropped ensures c in DroppedOf(joined) {
      var i :| 0 <= i < |joined| && joined[i].country == c;
    }
  }

  lemma SidesAligned<T>(joined: seq<Joined<T>>)
    ensures |TotalSide(joined)| == |joined| && |GrowthSide(joined)| == |joined|
    ensures forall i | 0 <= i < |joined| ::
      && TotalSide(joined)[i].country == joined[i].country && TotalSide(joined)[i].year == joined[i].year
      && GrowthSide(joined)[i].country == joined[i].country && GrowthSide(joined)[i].year == joined[i].year
  {
  }

  lemma ShownEither<T>(joined: seq<Joined<T>>, gt: Pivot.Grid<T>, gg: Pivot.Grid<T>, dropped: set<string>)
    requires Pivot.PivotRows(TotalSide(joined)) == Some(gt) && Pivot.PivotRows(GrowthSide(joined)) == Some(gg)
    requires DroppedExactly(joined, dropped)
    ensures !(Pivot.IsEmpty(Pivot.DropCountries(gt, dropped)) && Pivot.IsEmpty(Pivot.DropCountries(gg, dropped)))
      <==> SomeKept(joined)
  {
    PopulationShown(joined, TotalSide(joined), gt, dropped);
    PopulationShown(joined, GrowthSide(joined), gg, dropped);
  }

  lemma CompleteBoth<T>(joined: seq<Joined<T>>, gt: Pivot.Grid<T>, gg: Pivot.Grid<T>)
    requires Pivot.PivotRows(TotalSide(joined)) == Some(gt) && Pivot.PivotRows(GrowthSide(joined)) == Some(gg)
    ensures (Pivot.HasCompleteRow(Pivot.DropCountries(gt, DroppedOf(joined)))
             && Pivot.HasCompleteRow(Pivot.DropCountries(gg, DroppedOf(joined))))
      <==> TotalHasComplete(joined) && GrowthHasComplete(joined)
  {
    Pivot.CompleteRowExactly(TotalSide(joined), DroppedOf(joined));
    Pivot.CompleteRowExactly(GrowthSide(joined), DroppedOf(joined));
  }

  /** Without a repeated (country, date), the population panel raises exactly when line
      480 does. */
  lemma EarliestYearExactly<T>(joined: seq<Joined<T>>, gt: Pivot.Grid<T>, gg: Pivot.Grid<T>)
    requires Pivot.PivotRows(TotalSide(joined)) == Some(gt) && Pivot.PivotRows(GrowthSide(joined)) == Some(gg)
    ensures var pt := Pivot.DropCountries(gt, NoDataInEither(gt, gg));
      var pg := Pivot.DropCountries(gg, NoDataInEither(gt, gg));
      (!(Pivot.IsEmpty(pt) && Pivot.IsEmpty(pg)) && !(Pivot.HasCompleteRow(pt) && Pivot.HasCompleteRow(pg)))
        <==> EarliestYearRaises(joined)
  {
    DroppedOfPivots(joined, gt, gg);
    ShownEither(joined, gt, gg, NoDataInEither(gt, gg));
    CompleteBoth(joined, gt, gg);
  }

  /** Dropping the same countries from both pivots leaves them the same years and the same
      countries, each with a total and a growth value somewhere. */
  lemma {:induction false} PopulationAlike<T>(joined: seq<Joined<T>>)
    requires !Pivot.DuplicateEntries(TotalSide(joined)) && !Pivot.DuplicateEntries(GrowthSide(joined))
    ensures var gt := Pivot.PivotRows(TotalSide(joined)).value;
      var gg := Pivot.PivotRows(GrowthSide(joined)).value;
      var pt := Pivot.DropCountries(gt, NoDataInEither(gt, gg));
      var pg := Pivot.DropCountries(gg, NoDataInEither(gt, gg));
      && pt.years == pg.years && pt.countries == pg.countries
      && forall c | c in pt.countries :: Pivot.ColumnHasData(pt, c) && Pivot.ColumnHasData(pg, c)
  {
    SidesShareKeys(joined);
    var gt := Pivot.PivotRows(TotalSide(joined)).value;
    var gg := Pivot.PivotRows(GrowthSide(joined)).value;
    var dropped := NoDataInEither(gt, gg);
    Pivot.PruneNoDataCountries(gt);
    Pivot.PruneNoDataCountries(gg);
    Pivot.DropCountriesShape(gt, dropped);
    Pivot.DropCountriesShape(gg, dropped);
    var pt := Pivot.DropCountries(gt, dropped);
    var pg := Pivot.DropCountries(gg, dropped);
    forall c | c in pt.countries ensures Pivot.ColumnHasData(pt, c) && Pivot.ColumnHasData(pg, c) {
      assert c !in Pivot.NoDataCountries(gt) && c !in Pivot.NoDataCountries(gg);
      var y :| y in gt.years && (y, c) in gt.cells;
      assert (y, c) in pt.cells;
      var y' :| y' in gg.years && (y', c) in gg.cells;
      assert (y', c) in pg.cells;
    }
  }

  /** The population panel: the excluded countries are those missing throughout one of the
      two joined series; a drawn combined chart has both series non-empty over the same
      years and countries, none of them excluded and each with values in both. */
  lemma PopulationPanelFacts<T>(rows: seq<Reshape.Record<T>>)
    ensures var q := PopulationPanel(rows);
      var joined := PopulationJoined(rows);
      q.Some? && (q.value.NoPopulationData? || q.value.Population?) ==>
        forall c :: c in q.value.dropped <==>
          InJoin(joined, c) && (AllTotalMissing(joined, c) || AllGrowthMissing(joined, c))
    ensures var q := PopulationPanel(rows);
      q.Some? && q.value.Population? ==>
        var p := q.value;
        && p.total.years == p.growth.years && p.total.countries == p.growth.countries
        && !Pivot.IsEmpty(p.total) && !Pivot.IsEmpty(p.growth)
        && Pivot.HasCompleteRow(p.total) && Pivot.HasCompleteRow(p.growth)
        && forall c | c in p.total.countries ::
             c !in p.dropped && Pivot.ColumnHasData(p.total, c) && Pivot.ColumnHasData(p.growth, c)
  {
    var q := PopulationPanel(rows);
    var joined := PopulationJoined(rows);
    if q.Some? && (q.value.NoPopulationData? || q.value.Population?) {
      SidesShareKeys(joined);
      PopulationDropped(joined);
      PopulationAlike(joined);
      var gt := Pivot.PivotRows(TotalSide(joined)).value;
      Pivot.DropCountriesShape(gt, NoDataInEither(gt, Pivot.PivotRows(GrowthSide(joined)).value));
    }
  }

  /** The panel an indicator gets (lines 440-568), `None` when drawing it raises. */
  function IndicatorPanel<T>(rows: seq<Reshape.Record<T>>, topic: string, e: Catalog.CatalogRow): Option<Panel<T>> {
    match ChartShape(e.id)
    case Combined => PopulationPanel(rows)
    case shape => SeriesPanel(IndicatorObs(rows, e.id), shape, Keys.PlotKey(topic, e.name))
  }

  /** Population total never reaches the bar/line branch, and every drawn bar or line
      series carries a widget key made of word characters only. */
  lemma IndicatorPanelKind<T>(rows: seq<Reshape.Record<T>>, topic: string, e: Catalog.CatalogRow)
    ensures var q := IndicatorPanel(rows, topic, e);
      e.id == Catalog.PopulationTotalId && q.Some? ==> !q.value.Series? && !q.value.NoSeriesData?
    ensures var q := IndicatorPanel(rows, topic, e);
      IsSeries(q) ==>
        && q.value.shape == (if e.id in Catalog.RankIndicators then Bar else Line)
        && Keys.AllWordChars(q.value.key)
    ensures var q := IndicatorPanel(rows, topic, e);
      e.id != Catalog.PopulationTotalId && q.Some? ==> !q.value.GrowthMissing? && !q.value.Population?
  {
    ShapeOfRankIndicators(e.id);
  }

  /** When drawing indicator `e` from a topic's `rows` raises: for population total, when
      growth rows exist and either the inner join repeats a (country, date) or line 480
      meets `pd.NA`; for any other indicator, when two of its records share a
      (year, country). */
  ghost predicate Raises<T>(rows: seq<Reshape.Record<T>>, e: Catalog.CatalogRow) {
    if e.id == Catalog.PopulationTotalId then
      && IndicatorObs(rows, Catalog.PopulationGrowthId) != []
      && (JoinRepeats(PopulationJoined(rows)) || EarliestYearRaises(PopulationJoined(rows)))
    else RepeatedKey(rows, e.id)
  }

  lemma IndicatorPanelRaises<T>(rows: seq<Reshape.Record<T>>, topic: string, e: Catalog.CatalogRow)
    ensures IndicatorPanel(rows, topic, e).None? <==> Raises(rows, e)
  {
    ShapeOfRankIndicators(e.id);
    if e.id == Catalog.PopulationTotalId {
      PopulationRaises(rows);
    } else {
      IndicatorObsDuplicates(rows, e.id);
      SeriesPanelPlaceholder(IndicatorObs(rows, e.id), ChartShape(e.id), Keys.PlotKey(topic, e.name));
    }
  }

  /** Why the analysis run ends with an exception: drawing `indicator` of `topic` raised,
      in its pivot or, for population total, at line 480. The panels and topics before it
      have been drawn. */
  datatype Crash = Raised(topic: string, indicator: Catalog.CatalogRow)

  /** One indicator's step of the grid loop: its panel, or the crash its pivot causes. */
  function DrawIndicator<T>(rows: seq<Reshape.Record<T>>, topic: string, e: Catalog.CatalogRow): Result<Panel<T>, Crash> {
    match IndicatorPanel(rows, topic, e)
    case None => Failure(Raised(topic, e))
    case Some(p) => Success(p)
  }

  /** Lines 434-568 for one topic: the indicators' panels in grid order, stopping at the
      first one that raises. */
  function DrawPanels<T>(rows: seq<Reshape.Record<T>>, topic: string, indicators: seq<Catalog.CatalogRow>): Result<seq<Panel<T>>, Crash> {
    Sequence(DrawSteps(rows, topic, indicators))
  }

  function DrawSteps<T>(rows: seq<Reshape.Record<T>>, topic: string, indicators: seq<Catalog.CatalogRow>): (steps: seq<Result<Panel<T>, Crash>>)
    ensures |steps| == |indicators|
    ensures forall k | 0 <= k < |indicators| :: steps[k] == DrawIndicator(rows, topic, indicators[k])
  {
    if indicators == [] then []
    else [DrawIndicator(rows, topic, indicators[0])] + DrawSteps(rows, topic, indicators[1..])
  }

  lemma DrawPanelsSteps<T>(rows: seq<Reshape.Record<T>>, topic: string, indicators: seq<Catalog.CatalogRow>)
    ensures var d := DrawPanels(rows, topic, indicators);
      && (d.Success? <==> forall k | 0 <= k < |indicators| :: DrawIndicator(rows, topic, indicators[k]).Success?)
      && (d.Success? ==>
            && |d.value| == |indicators|
            && forall k | 0 <= k < |indicators| :: DrawIndicator(rows, topic, indicators[k]) == Success(d.value[k]))
      && (d.Failure? ==> exists k | 0 <= k < |indicators| ::
            && DrawIndicator(rows, topic, indicators[k]) == Failure(d.error)
            && forall l | 0 <= l < k :: DrawIndicator(rows, topic, indicators[l]).Success?)
  {
    SequenceExactly(DrawSteps(rows, topic, indicators));
  }

  lemma DrawIndicatorRaises<T>(rows: seq<Reshape.Record<T>>, topic: string, e: Catalog.CatalogRow)
    ensures DrawIndicator(rows, topic, e).Failure? <==> Raises(rows, e)
    ensures DrawIndicator(rows, topic, e).Failure? ==> DrawIndicator(rows, topic, e).error == Raised(topic, e)
    ensures DrawIndicator(rows, topic, e).Success? ==>
      IndicatorPanel(rows, topic, e) == Some(DrawIndicator(rows, topic, e).value)
  {
    IndicatorPanelRaises(rows, topic, e);
  }

  /** `DrawPanels` succeeds exactly when no indicator raises, with panel k the panel of
      indicator k; otherwise it reports the first indicator that raises. */
  lemma DrawPanelsExactly<T>(rows: seq<Reshape.Record<T>>, topic: string, indicators: seq<Catalog.CatalogRow>)
    ensures var d := DrawPanels(rows, topic, indicators);
      && (d.Success? <==> forall k | 0 <= k < |indicators| :: !Raises(rows, indicators[k]))
      && (d.Success? ==>
            && |d.value| == |indicators|
            && forall k | 0 <= k < |indicators| :: IndicatorPanel(rows, topic, indicators[k]) == Some(d.value[k]))
      && (d.Failure? ==> exists k | 0 <= k < |indicators| ::
            && d.error == Raised(topic, indicators[k]) && Raises(rows, indicators[k])
            && forall l | 0 <= l < k :: !Raises(rows, indicators[l]))
  {
    DrawPanelsSteps(rows, topic, indicators);
    forall k | 0 <= k < |indicators| {
      DrawIndicatorRaises(rows, topic, indicators[k]);
    }
  }

  /** The catalog row of each record of a topic, in record order. */
  function EntriesOf<T>(rows: seq<Reshape.Record<T>>): (es: seq<Catalog.CatalogRow>)
    requires forall i | 0 <= i < |rows| :: rows[i].entry.Some?
    ensures |es| == |rows| && forall i | 0 <= i < |rows| :: es[i] == rows[i].entry.value
  {
    seq(|rows|, i requires 0 <= i < |rows| => rows[i].entry.value)
  }

  /** `df_merged[df_merged["topic"] == topic]` (line 422). */
  function TopicRecords<T(!new)>(records: seq<Reshape.Record<T>>, topic: string): (rows: seq<Reshape.Record<T>>)
    ensures forall i | 0 <= i < |rows| :: rows[i].entry.Some? && rows[i].entry.value.topic == topic
  {
    var rows := Seqs.Filter(records, (r: Reshape.Record<T>) => r.entry.Some? && r.entry.value.topic == topic);
    assert forall i | 0 <= i < |rows| :: rows[i] in rows;
    rows
  }

  /** `topic_indicators_df` (line 428): the topic's distinct indicators (`drop_duplicates`),
      in order of their first record. */
  function TopicIndicators<T(!new)>(records: seq<Reshape.Record<T>>, topic: string): seq<Catalog.CatalogRow> {
    Seqs.Distinct(EntriesOf(TopicRecords(records, topic)))
  }

  /** The topic's indicators are each catalog row that some record of the topic carries,
      once each, in the order of their first record in the topic. */
  lemma TopicIndicatorsOrder<T(!new)>(records: seq<Reshape.Record<T>>, topic: string)
    ensures var inds := TopicIndicators(records, topic);
      && Seqs.NoDuplicates(inds)
      && (forall e :: e in inds <==> e.topic == topic && exists r | r in records :: r.entry == Some(e))
      && forall k, l | 0 <= k < l < |inds| ::
           Seqs.FirstIndex(EntriesOf(TopicRecords(records, topic)), inds[k]) <
           Seqs.FirstIndex(EntriesOf(TopicRecords(records, topic)), inds[l])
  {
    var rows := TopicRecords(records, topic);
    var es := EntriesOf(rows);
    forall e ensures e in es <==> e.topic == topic && exists r | r in records :: r.entry == Some(e) {
      if e in es {
        var i :| 0 <= i < |es| && es[i] == e;
        assert rows[i] in rows;
      }
      if e.topic == topic && exists r | r in records :: r.entry == Some(e) {
        var r :| r in records && r.entry == Some(e);
        assert r in rows;
        var i :| 0 <= i < |rows| && rows[i] == r;
        assert es[i] == e;
      }
    }
  }

  datatype Section<T> =
    | NoTopicData                                                     // line 425
    | Panels(indicators: seq<Catalog.CatalogRow>, panels: seq<Panel<T>>)

  /** Lines 419-568 for one topic: the placeholder when no record belongs to it, otherwise
      one panel per indicator in grid order, or the crash of the first that raises. */
  function TopicSection<T(!new)>(records: seq<Reshape.Record<T>>, topic: string): Result<Section<T>, Crash> {
    var rows := TopicRecords(records, topic);
    if rows == [] then Success(NoTopicData)
    else
      var indicators := TopicIndicators(records, topic);
      match DrawPanels(rows, topic, indicators)
      case Failure(c) => Failure(c)
      case Success(panels) => Success(Panels(indicators, panels))
  }

  /** A topic shows its placeholder exactly when no record belongs to it. Otherwise it shows
      panel k for its indicator k, for every indicator, or stops at the first indicator
      that raises. */
  lemma TopicSectionShape<T(!new)>(records: seq<Reshape.Record<T>>, topic: string)
    ensures TopicSection(records, topic) == Success(NoTopicData) <==>
      !exists r | r in records :: r.entry.Some? && r.entry.value.topic == topic
    ensures var rows := TopicRecords(records, topic);
      var inds := TopicIndicators(records, topic);
      var s := TopicSection(records, topic);
      && (s.Success? <==> forall k | 0 <= k < |inds| :: !Raises(rows, inds[k]))
      && (s.Success? && s.value.Panels? ==>
            && s.value.indicators == inds && |s.value.panels| == |inds|
            && forall k | 0 <= k < |inds| :: IndicatorPanel(rows, topic, inds[k]) == Some(s.value.panels[k]))
      && (s.Failure? ==> exists k | 0 <= k < |inds| ::
            && s.error == Raised(topic, inds[k]) && Raises(rows, inds[k])
            && forall l | 0 <= l < k :: !Raises(rows, inds[l]))
  {
    var rows := TopicRecords(records, topic);
    if rows != [] {
      assert rows[0] in rows;
      assert rows[0].entry.value in EntriesOf(rows);
    } else {
      assert TopicIndicators(records, topic) == [];
    }
    DrawPanelsExactly(rows, topic, TopicIndicators(records, topic));
  }

  /** Lines 419-568: the topics in catalog order, stopping at the first topic whose
      drawing raises. */
  function AnalysisCharts<T(!new)>(records: seq<Reshape.Record<T>>, groups: seq<Catalog.Group>): Result<seq<Section<T>>, Crash> {
    Sequence(TopicSteps(records, groups))
  }

  function TopicSteps<T(!new)>(records: seq<Reshape.Record<T>>, groups: seq<Catalog.Group>): (steps: seq<Result<Section<T>, Crash>>)
    ensures |steps| == |groups|
    ensures forall k | 0 <= k < |groups| :: steps[k] == TopicSection(records, groups[k].topic)
  {
    if groups == [] then []
    else [TopicSection(records, groups[0].topic)] + TopicSteps(records, groups[1..])
  }

  /** The run draws every topic, section k for topic k, exactly when no topic's drawing
      raises; otherwise it ends with the crash of the first topic that raises. */
  lemma AnalysisChartsExactly<T(!new)>(records: seq<Reshape.Record<T>>, groups: seq<Catalog.Group>)
    ensures var a := AnalysisCharts(records, groups);
      && (a.Success? <==> forall k | 0 <= k < |groups| :: TopicSection(records, groups[k].topic).Success?)
      && (a.Success? ==>
            && |a.value| == |groups|
            && forall k | 0 <= k < |groups| :: TopicSection(records, groups[k].topic) == Success(a.value[k]))
      && (a.Failure? ==> exists k | 0 <= k < |groups| ::
            && TopicSection(records, groups[k].topic) == Failure(a.error)
            && forall l | 0 <= l < k :: TopicSection(records, groups[l].topic).Success?)
  {
    SequenceExactly(TopicSteps(records, groups));
  }

  /** The run ends with an exception exactly when some topic has an indicator whose
      drawing raises on that topic's records. */
  lemma AnalysisAbortsExactly<T(!new)>(records: seq<Reshape.Record<T>>, groups: seq<Catalog.Group>)
    ensures AnalysisCharts(records, groups).Failure? <==>
      exists k, e | 0 <= k < |groups| && e in TopicIndicators(records, groups[k].topic) ::
        Raises(TopicRecords(records, groups[k].topic), e)
  {
    AnalysisChartsExactly(records, groups);
    forall k | 0 <= k < |groups| {
      TopicSectionShape(records, groups[k].topic);
    }
  }
}
