/** The reshape pipeline written inline in `EconomicAnalysisTab`
    (Economics_DashBoard.py:331-415): validate the selection, fill a missing country
    column, melt the wide table, left-join it against the flattened catalog, report the
    labels that found no topic, coerce the date to an integer year and drop the rows whose
    date does not parse. Cell values are opaque (`T`) and only ever moved. */
module Reshape {
  import opened Wrappers
  import Seqs
  import Catalog
  import Decimal

  /** One row of the fetched table after `reset_index()`: its country and date, then one
      cell per indicator column. */
  datatype WideRow<T> = WideRow(country: string, date: string, cells: seq<Option<T>>)

  /** `hasCountry` says whether the table has a `country` column at all; `labels` are the
      indicator columns, in column order. */
  datatype WideTable<T> = WideTable(hasCountry: bool, labels: seq<string>, rows: seq<WideRow<T>>)

  /** A data frame is rectangular: every row has one cell per indicator column. */
  ghost predicate Rectangular<T>(t: WideTable<T>) {
    forall i | 0 <= i < |t.rows| :: |t.rows[i].cells| == |t.labels|
  }

  /** `df.empty`: no row or no indicator column. */
  predicate IsEmptyTable<T>(t: WideTable<T>) {
    |t.rows| == 0 || |t.labels| == 0
  }

  /** Lines 371-376: without a `country` column, every row gets the one selected country's
      name, or "Unknown" together with a warning when several were selected. */
  function FillCountry<T>(t: WideTable<T>, selected: seq<string>): (r: (WideTable<T>, bool))
    requires |selected| > 0
    ensures r.0.hasCountry && r.0.labels == t.labels && |r.0.rows| == |t.rows|
    ensures forall i | 0 <= i < |t.rows| ::
      r.0.rows[i].date == t.rows[i].date && r.0.rows[i].cells == t.rows[i].cells
    ensures t.hasCountry ==> r.0 == t
    ensures !t.hasCountry ==> forall i | 0 <= i < |t.rows| ::
      r.0.rows[i].country == (if |selected| == 1 then selected[0] else "Unknown")
    ensures r.1 <==> !t.hasCountry && |selected| != 1
    ensures Rectangular(t) ==> Rectangular(r.0)
  {
    if t.hasCountry then (t, false)
    else
      var name := if |selected| == 1 then selected[0] else "Unknown";
      var rows := seq(|t.rows|, i requires 0 <= i < |t.rows| => t.rows[i].(country := name));
      (WideTable(true, t.labels, rows), |selected| != 1)
  }

  /** One row of `df_melted`. */
  datatype LongRow<T> = LongRow(country: string, date: string, indicator: string, value: Option<T>)

  /** The long row that cell (row `i`, indicator column `j`) becomes. */
  function CellRow<T>(t: WideTable<T>, i: nat, j: nat): LongRow<T>
    requires Rectangular(t) && i < |t.rows| && j < |t.labels|
  {
    LongRow(t.rows[i].country, t.rows[i].date, t.labels[j], t.rows[i].cells[j])
  }

  function MeltColumn<T>(t: WideTable<T>, j: nat): seq<LongRow<T>>
    requires Rectangular(t) && j < |t.labels|
  {
    seq(|t.rows|, i requires 0 <= i < |t.rows| => CellRow(t, i, j))
  }

  function MeltFrom<T>(t: WideTable<T>, j: nat): seq<LongRow<T>>
    requires Rectangular(t) && j <= |t.labels|
    decreases |t.labels| - j
  {
    if j == |t.labels| then [] else MeltColumn(t, j) + MeltFrom(t, j + 1)
  }

  /** `df.melt(id_vars=["country", "date"], var_name="indicator", value_name="value")`:
      pandas stacks the value columns one after another, so the cells come column by
      column, and missing cells are kept. */
  function Melt<T>(t: WideTable<T>): seq<LongRow<T>>
    requires Rectangular(t)
  {
    MeltFrom(t, 0)
  }

  lemma MulStep(a: nat, n: nat)
    ensures (a + 1) * n == n + a * n
  {
  }

  lemma {:induction false} MeltFromAt<T>(t: WideTable<T>, j0: nat, i: nat, j: nat)
    requires Rectangular(t) && j0 <= j < |t.labels| && i < |t.rows|
    ensures (j - j0) * |t.rows| + i < |MeltFrom(t, j0)|
    ensures MeltFrom(t, j0)[(j - j0) * |t.rows| + i] == CellRow(t, i, j)
    decreases j - j0
  {
    var n := |t.rows|;
    var col := MeltColumn(t, j0);
    var rest := MeltFrom(t, j0 + 1);
    assert MeltFrom(t, j0) == col + rest;
    if j == j0 {
      assert (j - j0) * n + i == i;
      assert (col + rest)[i] == col[i];
    } else {
      MeltFromAt(t, j0 + 1, i, j);
      var k' := (j - (j0 + 1)) * n + i;
      MulStep(j - (j0 + 1), n);
      assert (j - j0) * n + i == n + k';
      assert (col + rest)[n + k'] == rest[k'];
    }
  }

  lemma {:induction false} MeltFromLength<T>(t: WideTable<T>, j0: nat)
    requires Rectangular(t) && j0 <= |t.labels|
    ensures |MeltFrom(t, j0)| == (|t.labels| - j0) * |t.rows|
    decreases |t.labels| - j0
  {
    if j0 < |t.labels| {
      MeltFromLength(t, j0 + 1);
      MulStep(|t.labels| - (j0 + 1), |t.rows|);
    }
  }

  /** Melting lays out every cell exactly once: there are as many long rows as cells, and
      cell (row `i`, column `j`) is long row `j * |rows| + i`, with the same country, date
      and value and the column's label as indicator. */
  lemma MeltAt<T>(t: WideTable<T>, i: nat, j: nat)
    requires Rectangular(t) && i < |t.rows| && j < |t.labels|
    ensures |Melt(t)| == |t.labels| * |t.rows|
    ensures j * |t.rows| + i < |Melt(t)| && Melt(t)[j * |t.rows| + i] == CellRow(t, i, j)
    ensures CellRow(t, i, j) in Melt(t)
  {
    MeltFromLength(t, 0);
    MeltFromAt(t, 0, i, j);
  }

  lemma {:induction false} MeltFromOnlyCells<T>(t: WideTable<T>, j0: nat)
    requires Rectangular(t) && j0 <= |t.labels|
    ensures forall x | x in MeltFrom(t, j0) ::
      exists i, j | 0 <= i < |t.rows| && j0 <= j < |t.labels| :: x == CellRow(t, i, j)
    decreases |t.labels| - j0
  {
    if j0 < |t.labels| {
      MeltFromOnlyCells(t, j0 + 1);
      forall x | x in MeltColumn(t, j0)
        ensures exists i, j | 0 <= i < |t.rows| && j0 <= j < |t.labels| :: x == CellRow(t, i, j)
      {
        var i :| 0 <= i < |t.rows| && MeltColumn(t, j0)[i] == x;
        assert x == CellRow(t, i, j0);
      }
    }
  }

  /** Melting invents nothing: every long row is some cell of the wide table. */
  lemma MeltOnlyCells<T>(t: WideTable<T>)
    requires Rectangular(t)
    ensures forall x | x in Melt(t) ::
      exists i, j | 0 <= i < |t.rows| && 0 <= j < |t.labels| :: x == CellRow(t, i, j)
  {
    MeltFromOnlyCells(t, 0);
  }

  /** One row of `df_merged`: the long row and, when its label is in the catalog, the
      matching catalog row (indicator_id, indicator_name, topic); `None` is the NaN that a
      left join leaves in those columns. */
  datatype MergedRow<T> =
    MergedRow(country: string, date: string, indicator: string, value: Option<T>, entry: Option<Catalog.CatalogRow>)

  function Unjoined<T>(y: MergedRow<T>): LongRow<T> {
    LongRow(y.country, y.date, y.indicator, y.value)
  }

  predicate HasName(catalog: seq<Catalog.CatalogRow>, name: string) {
    exists e | e in catalog :: e.name == name
  }

  /** The catalog rows whose indicator_name equals `name`, in catalog order. */
  function Matches(catalog: seq<Catalog.CatalogRow>, name: string): (m: seq<Catalog.CatalogRow>)
    ensures forall e :: e in m <==> e in catalog && e.name == name
  {
    Seqs.Filter(catalog, (e: Catalog.CatalogRow) => e.name == name)
  }

  /** The merged rows that one long row produces: one per matching catalog row, or one with
      no catalog columns when nothing matches. */
  function JoinOne<T>(x: LongRow<T>, catalog: seq<Catalog.CatalogRow>): seq<MergedRow<T>> {
    var m := Matches(catalog, x.indicator);
    if m == [] then [MergedRow(x.country, x.date, x.indicator, x.value, None)]
    else seq(|m|, k requires 0 <= k < |m| => MergedRow(x.country, x.date, x.indicator, x.value, Some(m[k])))
  }

  /** `df_melted.merge(indicators_df, how="left", left_on="indicator",
      right_on="indicator_name")`: the left rows in their order, each followed by its
      matches in catalog order. */
  function LeftJoin<T>(long: seq<LongRow<T>>, catalog: seq<Catalog.CatalogRow>): seq<MergedRow<T>> {
    if long == [] then [] else JoinOne(long[0], catalog) + LeftJoin(long[1..], catalog)
  }

  /** What a merged row says about the catalog: a matched row carries a catalog row of the
      same name; an unmatched row's label is absent from the catalog. */
  ghost predicate JoinedCorrectly<T>(y: MergedRow<T>, catalog: seq<Catalog.CatalogRow>) {
    match y.entry
    case None => !HasName(catalog, y.indicator)
    case Some(e) => e in catalog && e.name == y.indicator
  }

  lemma {:induction false} JoinOneShape<T>(x: LongRow<T>, catalog: seq<Catalog.CatalogRow>)
    ensures |JoinOne(x, catalog)| > 0
    ensures forall y | y in JoinOne(x, catalog) :: Unjoined(y) == x && JoinedCorrectly(y, catalog)
  {
    var m := Matches(catalog, x.indicator);
    if m != [] {
      forall y | y in JoinOne(x, catalog) ensures Unjoined(y) == x && JoinedCorrectly(y, catalog) {
        var k :| 0 <= k < |m| && JoinOne(x, catalog)[k] == y;
        assert m[k] in m;
      }
    }
  }

  /** The left join loses no row and invents none: every long row is still there, every
      merged row is a long row, and its catalog columns are right. */
  lemma {:induction false} LeftJoinKeepsRows<T>(long: seq<LongRow<T>>, catalog: seq<Catalog.CatalogRow>)
    ensures forall x | x in long :: exists y | y in LeftJoin(long, catalog) :: Unjoined(y) == x
    ensures forall y | y in LeftJoin(long, catalog) :: Unjoined(y) in long && JoinedCorrectly(y, catalog)
  {
    if long != [] {
      LeftJoinKeepsRows(long[1..], catalog);
      JoinOneShape(long[0], catalog);
      var first := JoinOne(long[0], catalog);
      assert first[0] in LeftJoin(long, catalog);
      forall x | x in long ensures exists y | y in LeftJoin(long, catalog) :: Unjoined(y) == x {
        if x != long[0] {
          assert x in long[1..];
          var y :| y in LeftJoin(long[1..], catalog) && Unjoined(y) == x;
          assert y in LeftJoin(long, catalog);
        }
      }
    }
  }

  /** No two catalog entries share an indicator name. */
  ghost predicate UniqueNames(catalog: seq<Catalog.CatalogRow>) {
    forall a, b | 0 <= a < b < |catalog| :: catalog[a].name != catalog[b].name
  }

  lemma {:induction false} NoMatches(catalog: seq<Catalog.CatalogRow>, name: string)
    requires forall e | e in catalog :: e.name != name
    ensures Matches(catalog, name) == []
  {
    if catalog != [] {
      NoMatches(catalog[1..], name);
    }
  }

  lemma {:induction false} AtMostOneMatch(catalog: seq<Catalog.CatalogRow>, name: string)
    requires UniqueNames(catalog)
    ensures |Matches(catalog, name)| <= 1
  {
    if catalog != [] {
      assert UniqueNames(catalog[1..]) by {
        forall a, b | 0 <= a < b < |catalog[1..]| ensures catalog[1..][a].name != catalog[1..][b].name {
          assert catalog[1..][a] == catalog[a + 1] && catalog[1..][b] == catalog[b + 1];
        }
      }
      AtMostOneMatch(catalog[1..], name);
      if catalog[0].name == name {
        forall e | e in catalog[1..] ensures e.name != name {
          var k :| 0 <= k < |catalog[1..]| && catalog[1..][k] == e;
          assert catalog[k + 1] == e;
        }
        NoMatches(catalog[1..], name);
      }
    }
  }

  /** With unique names the left join is one-to-one: merged row `i` is long row `i` with
      its catalog columns attached. */
  lemma {:induction false} LeftJoinOneToOne<T>(long: seq<LongRow<T>>, catalog: seq<Catalog.CatalogRow>)
    requires UniqueNames(catalog)
    ensures |LeftJoin(long, catalog)| == |long|
    ensures forall i | 0 <= i < |long| :: Unjoined(LeftJoin(long, catalog)[i]) == long[i]
  {
    if long != [] {
      LeftJoinOneToOne(long[1..], catalog);
      AtMostOneMatch(catalog, long[0].indicator);
      JoinOneShape(long[0], catalog);
      var first := JoinOne(long[0], catalog);
      var rest := LeftJoin(long[1..], catalog);
      assert |first| == 1;
      assert first[0] in first;
      assert LeftJoin(long, catalog) == first + rest;
      forall i | 0 <= i < |long| ensures Unjoined((first + rest)[i]) == long[i] {
        if i > 0 {
          assert (first + rest)[i] == rest[i - 1];
          assert long[1..][i - 1] == long[i];
        }
      }
    }
  }

  function UnmatchedNames<T>(merged: seq<MergedRow<T>>): seq<string> {
    if merged == [] then []
    else (if merged[0].entry.None? then [merged[0].indicator] else []) + UnmatchedNames(merged[1..])
  }

  /** `df_merged[df_merged["topic"].isna()]["indicator"].unique()` (line 405). */
  function Unmatched<T>(merged: seq<MergedRow<T>>): seq<string> {
    Seqs.Distinct(UnmatchedNames(merged))
  }

  lemma {:induction false} UnmatchedNamesMembers<T>(merged: seq<MergedRow<T>>)
    ensures forall name :: name in UnmatchedNames(merged) <==>
      exists y | y in merged :: y.entry.None? && y.indicator == name
  {
    if merged != [] {
      UnmatchedNamesMembers(merged[1..]);
      assert forall y | y in merged :: y == merged[0] || y in merged[1..];
    }
  }

  /** The warning at lines 405-407 lists each label of the melted table that has no
      catalog entry, once, and nothing else. */
  lemma UnmatchedExactly<T>(long: seq<LongRow<T>>, catalog: seq<Catalog.CatalogRow>)
    ensures Seqs.NoDuplicates(Unmatched(LeftJoin(long, catalog)))
    ensures forall name :: name in Unmatched(LeftJoin(long, catalog)) <==>
      (exists x | x in long :: x.indicator == name) && !HasName(catalog, name)
  {
    var merged := LeftJoin(long, catalog);
    UnmatchedNamesMembers(merged);
    LeftJoinKeepsRows(long, catalog);
    forall name | (exists x | x in long :: x.indicator == name) && !HasName(catalog, name)
      ensures name in Unmatched(merged)
    {
      var x :| x in long && x.indicator == name;
      var y :| y in merged && Unjoined(y) == x;
      assert JoinedCorrectly(y, catalog);
    }
    forall name | name in Unmatched(merged)
      ensures (exists x | x in long :: x.indicator == name) && !HasName(catalog, name)
    {
      var y :| y in merged && y.entry.None? && y.indicator == name;
      assert Unjoined(y) in long;
      assert JoinedCorrectly(y, catalog);
    }
  }

  /** A row of the final table: the date is now an integer year. */
  datatype Record<T> =
    Record(country: string, year: int, indicator: string, value: Option<T>, entry: Option<Catalog.CatalogRow>)

  function WithYear<T>(y: MergedRow<T>, year: int): Record<T> {
    Record(y.country, year, y.indicator, y.value, y.entry)
  }

  /** The rows whose date is an integer, given their year; the others are dropped
      (`dropna(subset=["date"])`). */
  function KeepParsed<T>(merged: seq<MergedRow<T>>): seq<Record<T>> {
    if merged == [] then []
    else
      var rest := KeepParsed(merged[1..]);
      match Decimal.ToNumeric(merged[0].date)
      case Integral(year) => [WithYear(merged[0], year)] + rest
      case _ => rest
  }

  /** Every kept row is an input row whose date parsed to its year, and every input row
      whose date parses is kept with that year: the rows dropped are exactly those whose
      date is not a number. */
  lemma {:induction false} KeepParsedExactly<T>(merged: seq<MergedRow<T>>)
    ensures forall r | r in KeepParsed(merged) ::
      exists y | y in merged :: Decimal.ToNumeric(y.date) == Decimal.Integral(r.year) && r == WithYear(y, r.year)
    ensures forall y | y in merged && Decimal.ToNumeric(y.date).Integral? ::
      WithYear(y, Decimal.ToNumeric(y.date).n) in KeepParsed(merged)
  {
    if merged != [] {
      KeepParsedExactly(merged[1..]);
      assert forall y | y in merged :: y == merged[0] || y in merged[1..];
    }
  }

  predicate HasFractionalDate<T>(merged: seq<MergedRow<T>>) {
    exists i | 0 <= i < |merged| :: Decimal.ToNumeric(merged[i].date).Fractional?
  }

  /** Why the analysis run stops before any chart. The first four are handled: a message
      and a `return`. The cast at line 410 raises `TypeError` on a fractional date, which
      the `except ValueError` at lines 411-413 does not catch, so that run ends with an
      uncaught exception instead. */
  datatype Failure =
    | NoCountrySelected      // warning at line 333
    | EndBeforeStart         // error at line 337
    | FetchFailed            // error at line 362
    | NoDataFound            // error at line 366
    | DateCastRaised         // uncaught TypeError at line 410

  /** A stopped run, with the warnings it had shown by then: the labels with no catalog
      entry (line 407) and whether the country column was filled with "Unknown" (line 376). */
  datatype Stopped = Stopped(reason: Failure, unmatched: seq<string>, unknownCountry: bool)

  /** Lines 410-415: the cast to Int64 raises when some date has a fraction; otherwise the
      rows whose date is not a number are dropped. */
  function CoerceDates<T>(merged: seq<MergedRow<T>>): Result<seq<Record<T>>, Failure> {
    if HasFractionalDate(merged) then Failure(DateCastRaised) else Success(KeepParsed(merged))
  }

  /** What the analysis tab holds after line 415, with the two warnings it may have shown. */
  datatype Prepared<T> = Prepared(records: seq<Record<T>>, unmatched: seq<string>, unknownCountry: bool)

  /** Lines 331-415 after the button press, with the fetch result as a parameter (`None`
      when `fetch_data` raised). */
  function Prepare<T>(selected: seq<string>, startYear: int, endYear: int,
                      fetched: Option<WideTable<T>>, catalog: seq<Catalog.CatalogRow>): Result<Prepared<T>, Stopped>
    requires fetched.Some? ==> Rectangular(fetched.value)
  {
    if selected == [] then Failure(Stopped(NoCountrySelected, [], false))
    else if endYear < startYear then Failure(Stopped(EndBeforeStart, [], false))
    else match fetched
      case None => Failure(Stopped(FetchFailed, [], false))
      case Some(t) =>
        if IsEmptyTable(t) then Failure(Stopped(NoDataFound, [], false))
        else
          var (filled, warned) := FillCountry(t, selected);
          var merged := LeftJoin(Melt(filled), catalog);
          match CoerceDates(merged)
          case Failure(e) => Failure(Stopped(e, Unmatched(merged), warned))
          case Success(records) => Success(Prepared(records, Unmatched(merged), warned))
  }

  /** Some row of `t` has a date with a non-zero fraction. */
  predicate FractionalRow<T>(t: WideTable<T>) {
    exists i | 0 <= i < |t.rows| :: Decimal.ToNumeric(t.rows[i].date).Fractional?
  }

  lemma FractionalDateFromRow<T>(t: WideTable<T>, catalog: seq<Catalog.CatalogRow>)
    requires Rectangular(t)
    ensures HasFractionalDate(LeftJoin(Melt(t), catalog)) ==> FractionalRow(t)
  {
    var long := Melt(t);
    var merged := LeftJoin(long, catalog);
    if HasFractionalDate(merged) {
      var k :| 0 <= k < |merged| && Decimal.ToNumeric(merged[k].date).Fractional?;
      LeftJoinKeepsRows(long, catalog);
      assert Unjoined(merged[k]) in long;
      MeltOnlyCells(t);
      var i, j :| 0 <= i < |t.rows| && 0 <= j < |t.labels| && Unjoined(merged[k]) == CellRow(t, i, j);
      assert t.rows[i].date == merged[k].date;
    }
  }

  lemma FractionalDateReachesJoin<T>(t: WideTable<T>, catalog: seq<Catalog.CatalogRow>)
    requires Rectangular(t) && |t.labels| > 0
    ensures FractionalRow(t) ==> HasFractionalDate(LeftJoin(Melt(t), catalog))
  {
    var long := Melt(t);
    var merged := LeftJoin(long, catalog);
    if FractionalRow(t) {
      var i :| 0 <= i < |t.rows| && Decimal.ToNumeric(t.rows[i].date).Fractional?;
      MeltAt(t, i, 0);
      LeftJoinKeepsRows(long, catalog);
      var y :| y in merged && Unjoined(y) == CellRow(t, i, 0);
      var k :| 0 <= k < |merged| && merged[k] == y;
      assert merged[k].date == t.rows[i].date;
    }
  }

  /** Once the table has an indicator column, some merged row has a fractional date exactly
      when some row of the table has one. */
  lemma FractionalDateExactly<T>(t: WideTable<T>, catalog: seq<Catalog.CatalogRow>)
    requires Rectangular(t) && |t.labels| > 0
    ensures HasFractionalDate(LeftJoin(Melt(t), catalog)) <==> FractionalRow(t)
  {
    FractionalDateFromRow(t, catalog);
    FractionalDateReachesJoin(t, catalog);
  }

  /** When and how the run stops: each early return happens exactly under its own guard
      and shows no warning; the date cast raises exactly when, past those guards, some
      fetched row has a fractional date, and the warnings shown by then are kept. */
  lemma PrepareStops<T>(selected: seq<string>, startYear: int, endYear: int,
                        fetched: Option<WideTable<T>>, catalog: seq<Catalog.CatalogRow>)
    requires fetched.Some? ==> Rectangular(fetched.value)
    ensures var p := Prepare(selected, startYear, endYear, fetched, catalog);
      && (p == Failure(Stopped(NoCountrySelected, [], false)) <==> selected == [])
      && (p == Failure(Stopped(EndBeforeStart, [], false)) <==> selected != [] && endYear < startYear)
      && (p == Failure(Stopped(FetchFailed, [], false)) <==>
            selected != [] && startYear <= endYear && fetched.None?)
      && (p == Failure(Stopped(NoDataFound, [], false)) <==>
            selected != [] && startYear <= endYear && fetched.Some? && IsEmptyTable(fetched.value))
      && (p.Failure? && p.error.reason == DateCastRaised <==>
            selected != [] && startYear <= endYear && fetched.Some? && !IsEmptyTable(fetched.value)
            && FractionalRow(fetched.value))
  {
    if selected != [] && startYear <= endYear && fetched.Some? && !IsEmptyTable(fetched.value) {
      var t := fetched.value;
      var filled := FillCountry(t, selected).0;
      FractionalDateExactly(filled, catalog);
      assert FractionalRow(filled) <==> FractionalRow(t) by {
        assert forall i | 0 <= i < |t.rows| :: filled.rows[i].date == t.rows[i].date;
      }
    }
  }

  /** With at least one row, the indicators of the long table are exactly the labels. */
  lemma MeltLabels<T>(t: WideTable<T>)
    requires Rectangular(t) && |t.rows| > 0
    ensures forall name :: (exists x | x in Melt(t) :: x.indicator == name) <==> name in t.labels
  {
    MeltOnlyCells(t);
    forall name | name in t.labels ensures exists x | x in Melt(t) :: x.indicator == name {
      var j :| 0 <= j < |t.labels| && t.labels[j] == name;
      MeltAt(t, 0, j);
    }
  }

  /** The warnings shown before the date cast, whether it succeeds or stops the run: the
      unmatched-label warning lists each column label of the fetched table that names no
      catalog entry, once, and nothing else; the "Unknown" warning is shown exactly when
      the table has no country column and several countries were selected. */
  lemma DateCastKeepsWarnings<T>(selected: seq<string>, startYear: int, endYear: int,
                                 t: WideTable<T>, catalog: seq<Catalog.CatalogRow>)
    requires Rectangular(t)
    requires var r := Prepare(selected, startYear, endYear, Some(t), catalog);
      r.Success? || r.error.reason == DateCastRaised
    ensures |selected| > 0 && !IsEmptyTable(t)
    ensures var r := Prepare(selected, startYear, endYear, Some(t), catalog);
      var unmatched := if r.Success? then r.value.unmatched else r.error.unmatched;
      var unknown := if r.Success? then r.value.unknownCountry else r.error.unknownCountry;
      && Seqs.NoDuplicates(unmatched)
      && (forall name :: name in unmatched <==> name in t.labels && !HasName(catalog, name))
      && (unknown <==> !t.hasCountry && |selected| > 1)
  {
    var filled := FillCountry(t, selected).0;
    MeltLabels(filled);
    UnmatchedExactly(Melt(filled), catalog);
  }

  /** Record `r` comes from cell (row `i`, column `j`) of `t`: same country, indicator and
      value, a date that parsed to `r.year`, and catalog columns that are right. */
  ghost predicate FromCell<T>(t: WideTable<T>, catalog: seq<Catalog.CatalogRow>, r: Record<T>, i: int, j: int)
    requires Rectangular(t)
  {
    && 0 <= i < |t.rows| && 0 <= j < |t.labels|
    && r.country == t.rows[i].country && r.indicator == t.labels[j] && r.value == t.rows[i].cells[j]
    && Decimal.ToNumeric(t.rows[i].date) == Decimal.Integral(r.year)
    && JoinedCorrectly(MergedRow(r.country, t.rows[i].date, r.indicator, r.value, r.entry), catalog)
  }

  /** Cell (row `i`, column `j`) of `t` is among `records`. */
  ghost predicate CellKept<T>(t: WideTable<T>, catalog: seq<Catalog.CatalogRow>, records: seq<Record<T>>, i: int, j: int)
    requires Rectangular(t)
  {
    exists r | r in records :: FromCell(t, catalog, r, i, j)
  }

  lemma PipelineSound<T>(t: WideTable<T>, catalog: seq<Catalog.CatalogRow>)
    requires Rectangular(t)
    ensures forall r | r in KeepParsed(LeftJoin(Melt(t), catalog)) :: exists i, j :: FromCell(t, catalog, r, i, j)
  {
    var long := Melt(t);
    var merged := LeftJoin(long, catalog);
    MeltOnlyCells(t);
    LeftJoinKeepsRows(long, catalog);
    KeepParsedExactly(merged);
    forall r | r in KeepParsed(merged) ensures exists i, j :: FromCell(t, catalog, r, i, j) {
      var y :| y in merged && Decimal.ToNumeric(y.date) == Decimal.Integral(r.year) && r == WithYear(y, r.year);
      assert Unjoined(y) in long && JoinedCorrectly(y, catalog);
      var i, j :| 0 <= i < |t.rows| && 0 <= j < |t.labels| && Unjoined(y) == CellRow(t, i, j);
      assert FromCell(t, catalog, r, i, j);
    }
  }

  lemma CellSurvives<T>(t: WideTable<T>, catalog: seq<Catalog.CatalogRow>, i: nat, j: nat)
    requires Rectangular(t) && i < |t.rows| && j < |t.labels|
    requires Decimal.ToNumeric(t.rows[i].date).Integral?
    ensures CellKept(t, catalog, KeepParsed(LeftJoin(Melt(t), catalog)), i, j)
  {
    var long := Melt(t);
    var merged := LeftJoin(long, catalog);
    MeltAt(t, i, j);
    var x := CellRow(t, i, j);
    LeftJoinKeepsRows(long, catalog);
    var y :| y in merged && Unjoined(y) == x;
    assert JoinedCorrectly(y, catalog);
    assert y.date == t.rows[i].date;
    KeepParsedExactly(merged);
    var r := WithYear(y, Decimal.ToNumeric(y.date).n);
    assert r in KeepParsed(merged);
    assert FromCell(t, catalog, r, i, j);
  }

  lemma PipelineComplete<T>(t: WideTable<T>, catalog: seq<Catalog.CatalogRow>)
    requires Rectangular(t)
    ensures forall i, j | 0 <= i < |t.rows| && 0 <= j < |t.labels| && Decimal.ToNumeric(t.rows[i].date).Integral? ::
      CellKept(t, catalog, KeepParsed(LeftJoin(Melt(t), catalog)), i, j)
  {
    forall i, j | 0 <= i < |t.rows| && 0 <= j < |t.labels| && Decimal.ToNumeric(t.rows[i].date).Integral?
      ensures CellKept(t, catalog, KeepParsed(LeftJoin(Melt(t), catalog)), i, j)
    {
      CellSurvives(t, catalog, i, j);
    }
  }

  /** The output rows are a subset of the input cells: every record is a cell of the table
      (after the country fill) whose date parsed, and every such cell is a record. */
  lemma PrepareFromCells<T>(selected: seq<string>, startYear: int, endYear: int,
                            t: WideTable<T>, catalog: seq<Catalog.CatalogRow>)
    requires Rectangular(t)
    requires Prepare(selected, startYear, endYear, Some(t), catalog).Success?
    ensures |selected| > 0
    ensures var filled := FillCountry(t, selected).0;
      var records := Prepare(selected, startYear, endYear, Some(t), catalog).value.records;
      && (forall r | r in records :: exists i, j :: FromCell(filled, catalog, r, i, j))
      && (forall i, j | 0 <= i < |filled.rows| && 0 <= j < |filled.labels| && Decimal.ToNumeric(filled.rows[i].date).Integral? ::
            CellKept(filled, catalog, records, i, j))
  {
    var filled := FillCountry(t, selected).0;
    var merged := LeftJoin(Melt(filled), catalog);
    assert !HasFractionalDate(merged);
    assert Prepare(selected, startYear, endYear, Some(t), catalog).value.records == KeepParsed(merged);
    PipelineSound(filled, catalog);
    PipelineComplete(filled, catalog);
  }
}
