# Economics dashboard: a Dafny model of the analysis pipeline

`Economics_DashBoard.py` is a Streamlit dashboard over World Bank indicators. Its analysis
tab fetches a wide table (one column per indicator, one row per country and year), reshapes
it into one row per observation, and joins that against a catalog of indicators grouped by
topic. For each topic it then draws one chart per indicator in a two-column grid. It
pivots each indicator by year and country, drops countries with no value at all and keeps
only years that have one. Population total gets a special combined chart with population
growth. The projections tab looks for the latest IMF World Economic Outlook release of the
current year, trying October first and then earlier months.

Three exceptions are not caught and end the run. A `pivot` over rows that repeat a
(date, country) raises. Casting a fractional date to `Int64` raises `TypeError`, and the
`except ValueError` around that cast does not catch it. In the population chart, a pivot
with no year complete across its countries makes `dropna().index.min()` return `pd.NA`,
and `filter(None, ...)` raises `TypeError` on it. The model shows each as a `Failure` that
stops the run at that point.

This project models that logic:

- `Keys`: `sanitize_key`, the widget-key normaliser, with the regular expression `\W+`
  written out.
- `Catalog`: the topic catalog and the two loops that flatten it.
- `Reshape`: the reshape pipeline. It covers the country fill, `melt`, the left join, the
  unmatched-label warning and the date coercion.
- `Pivot`: `pivot` and the pruning of missing countries and years.
- `Charts`: the chart decision per indicator. It covers the bar or line choice, the
  pruned series, the population inner join and the topic sections.
- `Layout`: the plot-grid loop.
- `Releases`: the release search, with the download as an oracle.

`Seqs`, `Ordering`, `Decimal` and `Wrappers` are the supporting pieces. They cover
filtering, first-occurrence `unique()`, sorted order as pandas sorts an index, `str` and
`pd.to_numeric` on year strings, and `Option`/`Result`. Cell values are opaque (`T`): the
pipeline only moves them.

## Model

| member | source | states |
|---|---|---|
| Keys.SanitizeKeyCharwise | Economics_DashBoard.py:246-253 | Deleting maximal `\W+` runs after replacing spaces gives the same text as a one-character-at-a-time definition: a space becomes `_`, other word characters are kept, everything else is deleted |
| Keys.SanitizeKeyWordOnly | Economics_DashBoard.py:246-253 | A key holds only word characters and is never longer than its text |
| Keys.SanitizeKeyFixesWordText | Economics_DashBoard.py:246-253 | A text made only of word characters is its own key |
| Keys.SanitizeKeyIdempotent | Economics_DashBoard.py:246-253 | Sanitising a key a second time changes nothing |
| Keys.SanitizeKeyAppend | Economics_DashBoard.py:246-253 | The key of a concatenation is the concatenation of the keys |
| Keys.PlotKey | Economics_DashBoard.py:664-666 | `plot_<key of topic>_<key of name>` holds only word characters and equals the key of the whole `plot_<topic>_<name>` text |
| Catalog.FlatListsEveryEntry | Economics_DashBoard.py:388-396 | The flattened catalog holds exactly the (id, name, topic) entries of the nested catalog |
| Catalog.FlattenCatalog | Economics_DashBoard.py:388-396 | The nested loop builds the flat list in topic-then-entry order, and an entry is in it exactly when the nested catalog lists it under that topic |
| Catalog.CollectIndicators | Economics_DashBoard.py:345-348 | The loop builds the (id, name) pairs of the flattened catalog, in the same order and with the same length |
| Catalog.PopulationPairInSocialIndicators | Economics_DashBoard.py:69-88 | Population total and population growth are both listed under "Social Indicators", so a topic that has one can reach the other |
| Decimal.ToNumericOfDecimal | Economics_DashBoard.py:410 | A year written in decimal parses back to that same integer year |
| Decimal.ToNumericOfInteger | Economics_DashBoard.py:410 | A signed run of digits parses to the integer it denotes |
| Decimal.ToNumericOfFraction | Economics_DashBoard.py:410 | A signed `a.b` with a digit on either side parses to an integer when every digit of `b` is zero, and is fractional otherwise |
| Decimal.ToNumericWithoutDigits | Economics_DashBoard.py:410 | Text with no digit is not a number, so its row is dropped |
| Reshape.FillCountry | Economics_DashBoard.py:371-376 | A table with a country column is unchanged. Without one, every row gets the only selected country, or "Unknown" plus a warning when several were selected. Dates, cells and labels are unchanged |
| Reshape.MeltAt | Economics_DashBoard.py:379-383 | The melted table has labels × rows rows, and cell (i, j) is long row `j·rows + i` with that row's country, date and value and column j's label |
| Reshape.MeltOnlyCells | Economics_DashBoard.py:379-383 | Every melted row is a cell of the wide table |
| Reshape.LeftJoinKeepsRows | Economics_DashBoard.py:398-403 | The left join keeps every long row and invents none. A merged row carries a catalog entry of its own label's name, or none when no entry has that name |
| Reshape.LeftJoinOneToOne | Economics_DashBoard.py:398-403 | When catalog names are unique, merged row i is long row i with its catalog columns attached |
| Reshape.UnmatchedExactly | Economics_DashBoard.py:405-407 | The warning lists each label that has no catalog entry, exactly once, and nothing else |
| Reshape.KeepParsedExactly | Economics_DashBoard.py:410-415 | The kept rows are exactly the rows whose date parses to an integer, each with that year |
| Reshape.FractionalDateExactly | Economics_DashBoard.py:379-410 | Once the table has an indicator column, some merged row has a fractional date exactly when some row of the table has one |
| Reshape.PrepareStops | Economics_DashBoard.py:331-413 | Each early return happens exactly under its own guard and shows no warning. The date cast stops the run exactly when, past those guards, some fetched row has a fractional date |
| Reshape.MeltLabels | Economics_DashBoard.py:379-383 | With at least one row, the indicators of the melted table are exactly the column labels |
| Reshape.DateCastKeepsWarnings | Economics_DashBoard.py:371-413 | Whether the date cast succeeds or stops the run, the warnings already shown are the same. The unmatched-label warning lists each column label that names no catalog entry, once, and nothing else. The "Unknown" warning appears exactly when there is no country column and several countries were selected |
| Reshape.PrepareFromCells | Economics_DashBoard.py:331-415 | On success a country was selected. Every record is a cell of the country-filled table whose date parsed, with the right catalog columns. Every such cell becomes a record |
| Pivot.PivotRows | Economics_DashBoard.py:553 | Pivoting fails exactly when two rows share a (date, country). Otherwise the index is ascending, the columns are in string order, and every cell is at an index year and column country |
| Pivot.PivotHoldsRows | Economics_DashBoard.py:553 | The pivot index is exactly the years of the rows, and its columns exactly their countries. A cell has a value exactly when some row supplies one, and it is that row's value |
| Pivot.PruneNoDataCountries | Economics_DashBoard.py:555-557 | The dropped columns are exactly the all-missing ones. Every remaining column has a value, and no value is lost |
| Pivot.PrunedEmptyIffNoValue | Economics_DashBoard.py:562-564 | After the prune the frame is empty exactly when the pivot held no value at all |
| Pivot.KeepYearsWithData | Economics_DashBoard.py:566-568 | The kept years are exactly the years with a value, still ascending, each with a value, and no value is lost |
| Pivot.TrimmedShape | Economics_DashBoard.py:553-568 | The drawn frame keeps every value and shows exactly the countries and the years that have one. Each of them has a value in the drawn frame |
| Charts.ShapeOfRankIndicators | Economics_DashBoard.py:546-549 | Population total alone takes the combined branch at line 443. Every rank indicator is drawn as bars, and every other indicator as lines |
| Charts.IndicatorObs | Economics_DashBoard.py:551 | The selected observations are exactly those of the records carrying that indicator id |
| Charts.IndicatorObsDuplicates | Economics_DashBoard.py:551-553 | The selected observations repeat a (year, country) exactly when two records of that indicator share one |
| Charts.SeriesPanelPlaceholder | Economics_DashBoard.py:553-564 | The pivot raises exactly on duplicate (date, country) rows. The "no data" placeholder appears exactly when the pivot succeeds and every value of the indicator is missing |
| Charts.SeriesPanelCountries | Economics_DashBoard.py:555-560 | A drawn series shows exactly the countries that have a value, and each shown country has one. The exclusion notice lists exactly the countries present whose every value is missing |
| Charts.SeriesPanelYears | Economics_DashBoard.py:566-568 | A drawn series keeps exactly the years in which some country has a value |
| Charts.SeriesPanelCells | Economics_DashBoard.py:553-568 | A drawn series shows every value of the indicator at its (year, country) and no cell that no observation supplies |
| Charts.PanelShowsTableCells | Economics_DashBoard.py:371-568 | From fetched table to chart, with unique catalog names: once the pivot succeeds, a series is drawn exactly when the country-filled table has a value for the indicator. It shows at (year, country) exactly the value of that table cell, and nothing else |
| Charts.UnknownCountryRaises | Economics_DashBoard.py:371-553 | With no country column and several countries selected, two rows of one year that differ under an indicator's label make that indicator's records repeat a (year, country). Its pivot raises unless it is population total |
| Charts.InnerJoinExactly | Economics_DashBoard.py:454-459 | A row is in the merge, with both values, exactly when some pair of total and growth rows shares its (country, date) |
| Charts.JoinRowPositions | Economics_DashBoard.py:454-459 | One total row contributes one merged row per growth row with its (country, date), in growth order |
| Charts.InnerJoinPositions | Economics_DashBoard.py:454-459 | The merge has one row per matching (total, growth) pair and no more. The pairs of total row i come after those of the earlier total rows, in growth order |
| Charts.PopulationGrowthWarning | Economics_DashBoard.py:447-452 | The growth warning is shown exactly when the topic has no population-growth row |
| Charts.PopulationRaises | Economics_DashBoard.py:447-480 | The population panel raises exactly when the topic has growth rows and either the inner join repeats a (country, date) or the earliest-year line raises |
| Pivot.CompleteRowExactly | Economics_DashBoard.py:478-479 | After the pivot and the column drop, `dropna()` keeps a row exactly when some year of the rows has a value for every country left |
| Charts.EarliestYearExactly | Economics_DashBoard.py:461-480 | Without a repeated (country, date), line 480 raises exactly when some joined country is kept but the total or the growth series has no year with a value for every kept country |
| Charts.PopulationDropped | Economics_DashBoard.py:461-469 | The countries dropped from both pivots are exactly the joined countries whose total, or whose growth, is missing throughout |
| Charts.PopulationAlike | Economics_DashBoard.py:461-469 | After the common drop, both pivots have the same years and the same countries, each with a total value and a growth value |
| Charts.PopulationPanelFacts | Economics_DashBoard.py:443-480 | The population panel's exclusions are exactly those countries. A drawn combined chart has two non-empty series over the same years and countries, none of them excluded and each with values in both. Each series has a year with a value for every country |
| Charts.IndicatorPanelKind | Economics_DashBoard.py:443-568 | Population total never reaches the bar or line branch, and other indicators never reach the population one. A drawn series is bars exactly for a rank indicator, and its widget key holds only word characters |
| Charts.IndicatorPanelRaises | Economics_DashBoard.py:443-553 | An indicator's panel is missing, because drawing it raised, exactly when its records repeat a (year, country). For population total the condition is on the joined rows and includes the earliest-year line |
| Charts.DrawPanelsExactly | Economics_DashBoard.py:434-568 | A topic's grid loop draws every panel exactly when no indicator raises, panel k being indicator k's. Otherwise it stops with the crash of the first indicator that raises |
| Charts.TopicIndicatorsOrder | Economics_DashBoard.py:422-428 | A topic's indicators are each catalog entry carried by one of its records, once each, in the order of their first record |
| Charts.TopicSectionShape | Economics_DashBoard.py:419-568 | A topic shows its placeholder exactly when no record belongs to it. Otherwise it shows its indicators in first-record order, panel k for indicator k, exactly when none raises. If one does, it stops at the first that raises |
| Charts.AnalysisChartsExactly | Economics_DashBoard.py:419-568 | The run draws section k for topic k, for every topic, exactly when no topic raises. Otherwise it ends with the crash of the first topic that raises |
| Charts.AnalysisAbortsExactly | Economics_DashBoard.py:419-568 | The run ends with an exception exactly when some topic has an indicator whose drawing raises on that topic's records |
| Layout.RowCount | Economics_DashBoard.py:430-432 | The row count is the fewest rows of two that hold every plot |
| Layout.LayoutPlots | Economics_DashBoard.py:434-439 | The nested loop with its early `break` places every plot exactly once, in order. Plot k goes at row k div 2 and column k mod 2, inside the grid |
| Releases.Latest | Economics_DashBoard.py:689-701 | The result is the latest month, from the start month down to January, whose download succeeds, or none when every download fails |
| Releases.FindLatestRelease | Economics_DashBoard.py:689-701 | The loop returns the file name and abbreviation of the latest release from October down to January that downloads, or nothing. It warns about each release tried before that one, October first |
| Releases.ReleaseFilesDistinct | Economics_DashBoard.py:694-696 | Different months of the same year give different file names |

## Left out

- Streamlit widgets, messages, layout columns and Plotly figures, including the choropleth
  map, axis ranges, the values of `earliest_year` and `latest_year`, legends and
  descriptions, are not modelled. A panel records what would be drawn.
- Charts.EarliestYearExactly: the crash at line 480 follows pandas 2, where the pivot of
  an `Int64` column keeps a nullable `Int64` index and `min()` of an empty one is `pd.NA`.
  Under a pandas whose empty index gives `NaN` instead, line 480 does not raise, and the
  model would report a crash that does not happen.
- `filter(None, ...)` at line 480 would also drop an earliest year equal to 0. World Bank
  years are never 0, and this is not modelled.
- `wbdata.get_countries` and `fetch_data` are network calls. The fetched table is a
  parameter of `Reshape.Prepare`, `None` when the fetch raised. The country-name-to-id
  lookup is not modelled.
- `weo.download` is a network call. It is the oracle `downloads(year, release, filename)`
  of `Releases.FindLatestRelease`.
- The year slider's bounds depend on the clock and are parameters. `Releases.FindLatestRelease`
  takes the year as a parameter and requires `1 <= year <= 9999`, the range
  `datetime.datetime` accepts. Outside that range the source's handler names
  `release_str` before it is bound, which is not modelled.
- Releases.FindLatestRelease: the source ignores its `desired_month` argument and uses the
  enclosing `desired_release_month`. Both are 10, and the model uses that constant.
- `strftime('%b')` is taken in the C locale: English three-letter month names.
- The WEO projection charts that follow a successful download are not modelled, and
  neither are any other parts of the projections tab.
- Keys.SanitizeKeyCharwise: word characters are ASCII letters, digits and `_`. Python's
  `\w` also matches other Unicode letters and digits, which this model deletes.
- Decimal.ToNumericOfInteger: integers are unbounded. `pd.to_numeric` gives an `int64`
  only within the 64-bit range. A longer run of digits becomes `uint64`, a float or an
  object, and the `Int64` cast does not give that year. The model returns the exact
  integer. Years are far inside the range.
- Decimal.ToNumericOfDecimal: `pd.to_numeric` is modelled for an optional sign and digits
  with an optional decimal point, with at least one digit. Exponents, surrounding blanks,
  `inf` and `nan` count as "not a number", and floating-point rounding is not modelled.
- The `KeyError` branch of `melt` (lines 384-386) cannot happen in the model, because the
  table always has its country and date columns after the fill.
- Reshape.LeftJoinOneToOne: requires unique names in the catalog. Uniqueness of the names
  in the actual `grouped_indicators` constant is not proved.
- `all_indicators_dict` (line 350) is not modelled. It only feeds the fetch, which is a
  parameter.
- The order of the population exclusion notice comes from `list(set(...))` and is
  unspecified. The model keeps it as a set.
- An uncaught exception is a `Failure` naming its cause. The traceback Streamlit shows is
  not modelled. Neither are the sections and panels already drawn before it, beyond the
  fact that everything before the failing indicator succeeded.
- Charts.IndicatorPanelRaises: for population total, the condition is stated on the
  inner-joined rows, not on the records of the two indicators.
- Charts.PanelShowsTableCells: requires unique names in the catalog, as
  Reshape.LeftJoinOneToOne does.
- Charts.UnknownCountryRaises: requires the two rows to differ under the label. The model
  does not track how many records equal cells give, only which records there are.
- `st.cache_data` memoises the fetch. It does not change results and is not modelled.
