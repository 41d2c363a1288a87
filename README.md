# Set-piece dashboard core, modelled in Dafny

The dashboard (`streamlit_app.py`) loads a spreadsheet of dead-ball actions
(ABP: corners, free kicks, throw-ins) and shows filtered views of it. This
project models the logic inside the dashboard and proves what it computes.
Widgets, plotting and file I/O are not modelled.

- **Events** (`events.dfy`). The event table: rows with categorical cells, a
  coerced `jornada` (matchday) and an `xg_tiro` value. Also covers `col_ok`,
  which lists the sorted distinct non-null values of a column, the
  `pd.to_numeric(errors='coerce')` coercion of the matchday column, and the
  matchday slider bounds.
- **Filters** (`filters.dfy`). `aplicar_filtros`:
  - An inclusive matchday range, plus membership in seven always-applied
    selections.
  - Ten optional selections, each applied only when it is non-empty and
    the table has that column.
  - `ApplyFilters` builds the boolean mask step by step, as the page does.
    It is proved equal to the declarative `Filtered`.
  - A required column the table lacks is the pandas `KeyError`, modelled
    as `Failure`.
- **Timeline** (`timeline.dfy`). The time-bucket options offered for the
  selected match half.
- **Aggregates** (`aggregates.dfy`). These figures:
  - the case-insensitive "SI" counts of `tiro` and `gol`;
  - the shot percentage;
  - `value_counts` and the top ten executors;
  - the defensive ranking and its top-ten chart.
- **Series** (`series.dfy`). Actions per matchday (`groupby('jornada').size()`),
  and the two-team comparison, an outer merge on the matchday with 0 filling
  the gaps.
- **Xg** (`xg.dfy`). The accumulated-xG chart: sums per (attacking team,
  matchday), zero-filled over the selected teams × every matchday of the
  unfiltered table.
- **Network** (`network.dfy`). The executor → target `DiGraph`, built by
  one `add_edge` per filtered row that has both players. `DiGraph` is a
  class whose `nodes` and `succ` fields `AddEdge` updates in place.
- **Seqs** (`seqs.dfy`). Generic list facts the others rely on:
  - order-preserving filtering, and subsequences;
  - sorting into distinct ascending values;
  - sorting records by a numeric key;
  - sums over key lists.

The page reads its selections from module-level widget globals. In the
model they are an explicit `FilterSpec` value:
- the matchday range;
- one list per column.

A column with no entry in the spec stands for an empty list, as a column
without options always has on the page.

Three facts about the code shape the model:

- The filter reads `temporada`, `abp_tipo`, `jugador_ejecutor`, `tiro`,
  `gol`, `equipo_atacante` and `equipo_defensor` unconditionally
  (`streamlit_app.py:137-146`). A table without one of them makes
  `aplicar_filtros` raise `KeyError`, which `Filtered` returns as `Failure`.
- `gol` is one of those seven columns. So on every page that gets past the
  filter, the `'gol' in ... columns` tests always succeed
  (`GoalsAlwaysCounted`).
- `value_counts()` and `sort_values()` do not fix an order among equal
  counts or ratios, so the model asserts none.

## Model

| member | source | states |
|---|---|---|
| Events.NonNullValues | streamlit_app.py:43 | `dropna()`: at most one value per row, and a value is listed iff some row has it in that column |
| Events.DistinctValues | streamlit_app.py:43 | `sorted(unique())`: strictly ascending (hence duplicate-free), and holds exactly the non-null values of the column |
| Events.ColumnOptions | streamlit_app.py:41-43 | `col_ok`: strictly ascending and duplicate-free, `[]` when the column is absent, and otherwise holds exactly the column's non-null values |
| Events.ColumnOptionsUnique | streamlit_app.py:41-43 | any strictly ascending list with exactly the column's non-null values equals `col_ok`'s answer, so the option list is fully determined |
| Events.ToNumeric | streamlit_app.py:45 | numeric cells pass unchanged, blanks become NaN, text becomes a number iff it is optionally signed decimal digits |
| Events.DigitsRoundTrip | streamlit_app.py:45 | reading the decimal rendering of a natural number gives that number back |
| Events.ToNumericReadsDecimal | streamlit_app.py:45 | every integer written in decimal, signed or unsigned (`+n` too), coerces back to itself |
| Events.Matchdays | streamlit_app.py:275 | the numeric matchdays of the rows, exactly those occurring |
| Events.MatchdayDomain | streamlit_app.py:275 | `sorted(df['jornada'].dropna().unique())`: strictly ascending, duplicate-free, exactly the matchdays of the table |
| Events.MatchdayBounds | streamlit_app.py:56-57 | no bounds iff every matchday is NaN; otherwise min and max bound every matchday and both are attained |
| Filters.ColumnsPartitioned | streamlit_app.py:137-166 | every column is in exactly one of the seven required selections or the ten optional ones |
| Filters.FirstMissing | streamlit_app.py:137-146 | no missing column iff every required column is present; otherwise the reported column is absent and is the first absent one in reading order, since every earlier column is present |
| Filters.Filtered | streamlit_app.py:136-167 | fails iff some required column is absent from the table; the failure names the first absent required column in the order lines 138-145 read them, as the `KeyError` does |
| Filters.ApplyFilters | streamlit_app.py:136-167 | the step-by-step mask construction returns exactly `Filtered(t, spec)` |
| Filters.BuildMask | streamlit_app.py:137-166 | the mask has one entry per row, and the entry is true iff the row passes the range test and every applied selection |
| Filters.SelectMasked | streamlit_app.py:167 | `df[condiciones]` is the passing rows in their original order |
| Filters.MaskMatchesKeep | streamlit_app.py:137-166 | base terms plus all applied optional terms agree with the declarative per-row condition |
| Filters.SelectedExact | streamlit_app.py:167 | the result is an order-preserving subsequence of the input, with each passing row as often as in the input and no failing row |
| Filters.FilteredRowsSatisfy | streamlit_app.py:138-166 | every kept row has a numeric matchday inside the inclusive range and meets every applied selection |
| Filters.UnparsableMatchdayNeverKept | streamlit_app.py:140 | a row whose `jornada` cell coerces to NaN (a blank, or text that is not a number) fails the `between` test and is never in the filtered table |
| Filters.EmptyRequiredSelectsNothing | streamlit_app.py:137-146 | an empty selection in any required column yields no rows |
| Filters.MissingOptionalIgnored | streamlit_app.py:147-166 | an optional selection whose column the table lacks has no effect, whatever it holds |
| Filters.EmptyOptionalAsIfAbsent | streamlit_app.py:147-166 | an empty optional selection filters exactly as if the table had no such column |
| Filters.ClearingOptionalWidens | streamlit_app.py:147-166 | clearing an optional selection only brings rows back: the old result is a subsequence of the new |
| Filters.FilterCommutesWithTeam | streamlit_app.py:472-473 | filtering one attacking team's rows gives that team's rows of the filtered table |
| Timeline.BucketsInData | streamlit_app.py:121 | `franjas_data` is exactly the set of buckets occurring in the rows |
| Timeline.PresentIn | streamlit_app.py:123-129 | the list comprehension is a subsequence of the vocabulary holding exactly its members present in the data |
| Timeline.AvailableBuckets | streamlit_app.py:120-131 | `[]` without a bucket column; always a subsequence of the ordered vocabulary containing only buckets in the data; exactly first-half ∩ data for `["Primera"]`, second-half ∩ data for `["Segunda"]`, full vocabulary ∩ data otherwise |
| Timeline.TimelineDistinct | streamlit_app.py:116-118 | the vocabulary lists each bucket once and the halves share no bucket |
| Timeline.HalvesAreSeparated | streamlit_app.py:122-125 | selecting only one half never offers a bucket of the other |
| Timeline.NarrowingOnlyRemoves | streamlit_app.py:122-129 | the narrowed options are always among the unnarrowed ones |
| Aggregates.Upper | streamlit_app.py:230 | `str.upper()` keeps the length and upper-cases each character |
| Aggregates.YesSpellings | streamlit_app.py:230 | a cell counts as "SI" iff it is one of `SI`, `Si`, `sI`, `si` |
| Aggregates.CountYes | streamlit_app.py:230 | the "SI" count never exceeds the number of rows |
| Aggregates.CountYesExtremes | streamlit_app.py:230 | the count is 0 iff no row says "SI", and equals the row count iff every row does |
| Aggregates.CountYesIsMaskSize | streamlit_app.py:230 | the count is the size of the rows the "SI" mask selects |
| Aggregates.ShotPercentage | streamlit_app.py:373-375 | 0 on no rows; otherwise percentage × rows = 100 × shots; within [0,100]; 0 iff no row ends in a shot; 100 iff there are rows and all do |
| Aggregates.OccurrencesPositive | streamlit_app.py:239 | a value that occurs in the column is counted at least once |
| Aggregates.OccurrencesZero | streamlit_app.py:239 | a value absent from the column is counted zero times |
| Aggregates.ValueCountsEntries | streamlit_app.py:239 | every `value_counts` line is a value of the column with its exact row count, which is at least 1 |
| Aggregates.ValueCountsCovers | streamlit_app.py:239 | every value occurring in the column has a line |
| Aggregates.ValueCountsOrder | streamlit_app.py:239 | no value is listed twice and counts never increase along the list |
| Aggregates.TopExecutors | streamlit_app.py:267 | at most ten lines, exactly min(10, distinct executors), and a prefix of the full frequency table |
| Aggregates.TopExecutorsAreTop | streamlit_app.py:267 | an executor missing from the top ten has no more actions than any executor listed |
| Aggregates.GoalRatio | streamlit_app.py:510-511 | `Goles/ABP` exists iff the goal count does, and for a non-empty group, times the action count gives the goals |
| Aggregates.TeamRowBounds | streamlit_app.py:501-509 | for a present team: actions ≥ 1, shots ≤ actions, ratio × actions = shots, ratio in [0,1], a goal count iff the goal column exists, goals ≤ actions |
| Aggregates.RankingEntries | streamlit_app.py:508 | each ranking line is the aggregate of the group of a defending team present in the rows |
| Aggregates.RankingCovers | streamlit_app.py:508 | every defending team present in the rows has a line |
| Aggregates.RankingOrder | streamlit_app.py:513 | no team is listed twice and `Tiros/ABP` never decreases along the list |
| Aggregates.RankingChart | streamlit_app.py:515 | the chart has exactly min(10, teams) lines and is a prefix of the sorted ranking |
| Aggregates.RankingChartIsTop | streamlit_app.py:515 | a team left off the chart concedes shots per action at no lower rate than any team on it |
| Aggregates.GoalsAlwaysCounted | streamlit_app.py:505-506 | after a successful filter the goal column exists and every ranking line carries a goal count |
| Series.RowsOnDayPresent | streamlit_app.py:245 | a matchday occurring in the rows has at least one row |
| Series.RowsOnDayAbsent | streamlit_app.py:245 | a matchday occurring in no row has no rows |
| Series.CountsByMatchdayCorrect | streamlit_app.py:245 | groups in strictly ascending matchday order, one iff the matchday occurs, each with its exact row count ≥ 1 |
| Series.CountsByMatchdayTotal | streamlit_app.py:245 | the group sizes add up to the number of rows with a numeric matchday: none lost, none counted twice |
| Series.OuterMergeCorrect | streamlit_app.py:489 | merging two ascending series is ascending, holds exactly the matchdays of either, and carries each side's count or 0 |
| Series.CountOnListed | streamlit_app.py:489 | in an ascending series the looked-up count of a listed matchday is that group's count |
| Series.CountOnGroups | streamlit_app.py:487-489 | looking a matchday up in a grouped series gives the number of rows on it, 0 included |
| Series.TeamComparison | streamlit_app.py:486-496 | the corrected comparison (see Findings): drawn iff both teams' filtered rows are non-empty |
| Series.TeamComparisonCorrect | streamlit_app.py:486-489 | ascending matchdays, exactly those where either team has a row, each with both teams' row counts |
| Series.SameTeamComparison | streamlit_app.py:486-489 | comparing a team with itself gives equal counts on every matchday |
| Series.TeamRowsAreFilteredShare | streamlit_app.py:472-473 | filtering one team's rows gives that team's share of the filtered table, or the same failure |
| Series.MergedColumns | streamlit_app.py:487-489 | three columns headed by `jornada`; distinct team names both appear, a repeated name does not |
| Series.SameTeamLookupFails | streamlit_app.py:491-492 | for any team selected twice (other than one named `jornada`), the team's own name is not a column of the merged frame, while `<team>_x` and `<team>_y` are |
| Xg.XgSumIsGroupTotal | streamlit_app.py:276-278 | each sum is the total xG of exactly the rows of its (team, matchday) group |
| Xg.XgGridLength | streamlit_app.py:283-284 | the reindexed grid has exactly teams × matchdays points |
| Xg.XgGridAt | streamlit_app.py:283-284 | the point at `i * |mds| + j` is (teams[i], mds[j]) with that group's sum |
| Xg.XgSeries | streamlit_app.py:273 | no chart iff the table has no `xg_tiro` column or the filter kept no rows |
| Xg.XgSeriesCorrect | streamlit_app.py:273-284 | when drawn: |teams| × |table matchdays| points, team-major, each with its group's sum |
| Xg.XgSumAbsent | streamlit_app.py:284 | a pair with no rows is filled with 0 |
| Xg.GridTotal | streamlit_app.py:276-284 | when every row lies on the grid (its team among the distinct selected teams, its matchday among the distinct matchdays), the grid total is the rows' total xG |
| Xg.FilteredRowsOnGrid | streamlit_app.py:274-275 | every filtered row's team is a selected one and its matchday one of the table's |
| Xg.XgSeriesConservesTotal | streamlit_app.py:273-284 | the reindex drops no xG: the chart's values add up to the total xG of the filtered rows |
| Network.Pairs | streamlit_app.py:535 | exactly one pair per row that has both players, in row order, each pair being that row's (executor, target) cells; at most one per row overall; a pair is listed iff some row has it |
| Network.AddNew | streamlit_app.py:536 | adding a node keeps the list duplicate-free and adds exactly that node |
| Network.FirstOccurrences | streamlit_app.py:552 | duplicate-free, with the same members as the input |
| Network.LinkedEdges | streamlit_app.py:536 | `add_edge(u, v)` adds exactly the pair (u, v) to the edge set, whether or not it was there |
| Network.LinkedShape | streamlit_app.py:536 | `add_edge` keeps the graph well formed: nodes listed once, every successor a node |
| Network.DiGraph.constructor | streamlit_app.py:534 | a new graph is empty and well formed |
| Network.DiGraph.AddEdge | streamlit_app.py:536 | new nodes appended in order (u, then v) if new, the adjacency updated, edge set grows by exactly (u, v) |
| Network.BuildNetwork | streamlit_app.py:533-536 | no graph without a target column, the filter's failure propagated, otherwise nodes in first-appearance order and edges = the distinct pairs |
| Network.AddAll | streamlit_app.py:535-536 | the loop leaves nodes = first occurrences of the endpoints and edges = the distinct pairs |
| Network.NetworkStep | streamlit_app.py:535-536 | one more row adds its endpoints (if new) and its pair |
| Network.NetworkNodes | streamlit_app.py:533-536 | the nodes are exactly the players of rows with both players |
| Network.NetworkEdges | streamlit_app.py:535-536 | edges are exactly the (executor, target) pairs of the rows, so there are no more edges than rows |

## Left out

- Widgets, navigation, `multiselect_con_todo` and the session reset (`streamlit_app.py:12-17`, `66-113`, `83-87`). These are UI state. Their current values arrive as a `FilterSpec`.
- Spreadsheet upload, the cached default file and its missing-file error (`streamlit_app.py:20-35`). These are I/O; the model starts from a loaded `Table`.
- Lower-casing the headers (`streamlit_app.py:38`). Columns are the `Column` datatype, already lower-cased.
- A table without a `jornada` column. The page raises at `streamlit_app.py:45` before anything else, so the model assumes the column exists.
- CSV/Excel export (`streamlit_app.py:569-590`). This is I/O through foreign libraries.
- All plotly figures and the pitch overlay (`streamlit_app.py:170-214`, `250-264`). These are rendering.
- `nx.spring_layout` and the coordinate lists (`streamlit_app.py:537-562`). This is a stochastic floating-point layout. `G.edges()` enumeration order is left out with it: only the edge set is modelled.
- The xG mean per set-piece type (`streamlit_app.py:380`), the `nunique` KPIs (`streamlit_app.py:228-229`) and the season × matchday counts (`streamlit_app.py:525`). These are further views built from the same grouping; they are not modelled.
- Floating point. xG, ratios and percentages are exact reals; IEEE rounding and the `:.1f` display are not modelled.
- Aggregates.Upper: models ASCII upper-casing only. Python's `str.upper()` also maps `ſ` (long s) to `S` and `ı` (dotless i) to `I`, so the page would also count spellings like `ſi`.
- Aggregates.CountYes: counts 0 for a `tiro` or `gol` column that has no text cell. pandas reads such a column as float64, so `.str.upper()` raises `AttributeError` wherever the page counts "SI" (`streamlit_app.py:230`, `232`, `305-307`, `374`, `402-404`, `452`, `477-484`). `Aggregates.ShotPercentage` likewise gives 0 where the page crashes. Cells are text in this model (see `Events.ColumnOptions`), so that crash is not modelled.
- Aggregates.YesSpellings: lists the ASCII spellings only, for the same reason. Non-ASCII spellings such as `ſI` or `ſı`, which the page also counts as "SI", are missing.
- Events.ColumnOptions: every categorical cell is text, ordered by code point. pandas keeps numeric spreadsheet cells numeric. So `sorted()` at `streamlit_app.py:43` orders a numeric column numerically (9 before 10), and raises `TypeError` on a column that mixes numbers and text. Neither the numeric order nor that error is modelled.
- Events.DistinctValues: same restriction as `Events.ColumnOptions`: text cells only, so numeric order and the mixed-type `TypeError` are not modelled.
- Events.ToNumeric: parses integer text only. Pandas would also accept decimals, exponents and surrounding spaces, and would give a float matchday; matchdays are integers here.
- Events.MatchdayBounds: `None` stands for the `ValueError` that `int(NaN)` raises when every matchday is NaN. The page's crash itself is not modelled.
- Aggregates.ValueCountsOrder: states non-increasing counts but no order among equal counts, because `value_counts` does not fix one. `Aggregates.RankingOrder` likewise asserts no order among equal ratios.
- Series.TeamComparison: models the chart as evidently intended, so equal team names also get a chart with two equal lines. The page as written raises `KeyError` at `streamlit_app.py:491` for equal names (see Findings); only `Series.MergedColumns` and `Series.SameTeamLookupFails` capture that crash.
- Series.MergedColumns: does not model a team literally named `jornada`, whose count column would collide with the merge key.
- Xg.XgSeriesConservesTotal: assumes the team selection has no repeats, as a multiselect never does.
- The line-126 branch of the time-bucket narrowing (all halves selected). It yields the same list as the final `else`, so `AvailableBuckets` has one case for both.

## Findings

| source | as written | input that shows it | evidently intended | confidence | as-written member | corrected member |
|---|---|---|---|---|---|---|
| streamlit_app.py:487-492 | both per-matchday frames name their count column after their team, so comparing a team with itself makes `pd.merge` rename the columns `<team>_x` and `<team>_y`; `df_comp[equipo1]` then raises `KeyError` | a table whose only attacking team is `Team`: both selectors default to it (line 471), and the merged frame has no `Team` column | the comparison should be drawn for equal teams too, with both lines equal | not executed | Series.SameTeamLookupFails | Series.SameTeamComparison |
