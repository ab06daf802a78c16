# Oulanka flux web app, modelled in Dafny

The repository is a Flask web application for a peatland flux station. Its parts:

- An automatic-chamber browser (a Dash app). It builds one measurement cycle per chamber and time of day for the last 60 days. It fetches each cycle's CH4/CO2/DIAG table from InfluxDB on demand and finds the lag between the chamber opening and the gas maximum.
- A manual validation page over a table of cycles.
- A maintenance-log form that pushes two InfluxDB points per entry.
- Two overview pages that show 50 cycle plots per page.
- Field forms (water table, snow depth, chamber times) that become CSV lines.

This project models the core of these parts and proves what they promise.

- `measurement.dfy` (module `Measurement`): the measurement cycle.
  - The class `MeasurementCycle` keeps the cycle's fields and updates them step by step, as the source's methods do.
  - Each method is proved equal to a pure "After" function on a `CycleState` snapshot: `AfterJustGetData`, `AfterGetData`, `AfterFindMax`, `AfterDelLagtime`, `AfterGetLagtime` and `AfterGetMax`.
  - The lemmas are stated about those functions. They cover the lag search, the monotone validity verdict and the single fetch.
  - `frame.dfy` (module `Frame`) holds the table as a time-sorted sequence of rows. It also holds the window, mask, `idxmax` and DIAG-sum operations the cycle uses.
- `ac_plot.dfy` (module `AcPlot`): the browser.
  - The date lists and the day × template cycle loops.
  - The grouping of cycles by chamber.
  - The index/chamber transitions of the browsing callback, and the way that callback dispatches the find-max and delete buttons to the cycle.
- `create_graph.dfy` (module `CreateGraph`): the colour mapping, the traces of a cycle plot, and the rows of the lag graph. The lag graph first calls `get_max` on every cycle.
- `influx_queries.dfy` (module `InfluxQueries`): the Flux query strings, and how a read fills in its missing bounds.
- `chamber_validation.dfy` (module `ChamberValidation`): the index state machine of the validation page and the valid/invalid marking rule.
- `maintenance_log.dfy` (module `MaintenanceLog`): the order of the submission checks and the two points a log entry becomes.
- `overview.dfy` (module `Overview`): page selection, pandas' positional `iloc` with negative positions, padding to 50 figures, plot windows, the row filter and page total of the second overview, and the colours.
- `webapp.dfy` (module `WebApp`): the password check and the CSV lines of the three field forms.
- `util.dfy` (module `Util`): `Option`, decimal printing of plot numbers, `join`, `unique` and character replacement.

Representation:

- Instants are integer seconds and days are day numbers.
- A table is a strictly time-sorted `seq<Row>`. A missing value (`None` in Python) is `Option`.
- What the program gets from elsewhere is a parameter: an InfluxDB read result, the Pearson r of a cycle, the current time, today's date, the parsed date/time of a form field and its Europe/Helsinki localization, and a generated uuid.
- Python's exceptions on the modelled paths are modelled as `None`/`false` results. These are `KeyError`, `IndexError`, and an attribute error on a missing table.

## Model

| member | source | states |
|---|---|---|
| Measurement.MeasurementCycle.constructor | services/web/project/tools/measurement.py:9-20 | A new cycle stores its id and instants, is valid, has no lag index, lag seconds, adjusted close, DIAG window or r, and has `lag_end = open + 120 s` (set by `localize_times`). |
| Measurement.AfterFindMax | services/web/project/tools/measurement.py:22-29 | With no row strictly inside (open, open + 90 s) nothing changes. Otherwise the lag index is the time of the first row of largest gas value in that window, the lag seconds equal index − open and lie strictly between 0 and 90, and no other field changes. |
| Measurement.MeasurementCycle.FindMax | services/web/project/tools/measurement.py:22-29 | The new state is `AfterFindMax` of the old one; only the two lag fields are in the frame. |
| Measurement.FindMaxPicksTableRow | services/web/project/tools/measurement.py:22-29 | Stated over the table itself: when some table row lies strictly inside (open, open + 90 s), `find_max` records the time of a table row in that interval holding the largest gas value there, and every earlier row of the interval holds a smaller value. |
| Measurement.AfterDelLagtime | services/web/project/tools/measurement.py:31-32 | Only the lag index is cleared; lag seconds, adjusted close, validity, table, DIAG window and r are unchanged. |
| Measurement.MeasurementCycle.DelLagtime | services/web/project/tools/measurement.py:31-32 | The new state is `AfterDelLagtime` of the old one. |
| Measurement.DeleteKeepsLagSeconds | services/web/project/tools/measurement.py:31-32 | Deleting a lag found by `get_max` does not restore the earlier state: lag seconds and adjusted close stay set. |
| Measurement.AfterJustGetData | services/web/project/tools/measurement.py:42-67 | An invalid cycle or one with a table is unchanged. Otherwise the fetched result becomes the table; a missing or empty result makes the cycle invalid; a non-empty one sets the DIAG window `[close, open)`, and the cycle stays valid exactly when that window's DIAG sum is 0. Validity never goes from false to true, a second fetch is never needed, and the lag fields and r are untouched. |
| Measurement.MeasurementCycle.JustGetData | services/web/project/tools/measurement.py:42-67 | The new state is `AfterJustGetData` of the old one, and the source is queried exactly when the cycle is valid and has no table. |
| Measurement.AfterGetData | services/web/project/tools/measurement.py:69-90 | As for `just_get_data`, except that an empty table does not make the cycle invalid: its DIAG window is empty and sums to 0. |
| Measurement.MeasurementCycle.GetData | services/web/project/tools/measurement.py:69-90 | The new state is `AfterGetData` of the old one, and the source is queried exactly when the cycle is valid and has no table. |
| Measurement.MeasurementCycle.GetLagDf | services/web/project/tools/measurement.py:115-123 | Every row returned is a row of the table with time in `[lo, hi)`, every table row with such a time is returned, and the rows come in increasing time order. |
| Measurement.ShiftsTakenMeaning | services/web/project/tools/measurement.py:133-142 | The reference count of backward shifts is at most 5; every window before it has its CH4 maximum at its start, and, unless it is 5, the window it names does not. |
| Measurement.ShiftStep | services/web/project/tools/measurement.py:136-141 | When window i has its maximum at its start, the next window (10 s earlier) is non-empty and the search continues from it with the same result. |
| Measurement.StopStep | services/web/project/tools/measurement.py:136 | When window i's maximum is not at its start, or no shift is left, the search stops there with that window's maximum. |
| Measurement.NegativeLagSearchShifts | services/web/project/tools/measurement.py:133-142 | From any window, the loop-shaped search ends at the first CH4 maximum of the window given by the reference shift count. |
| Measurement.NegativeLagSearchShifted | services/web/project/tools/measurement.py:136-141 | The same for the case where window i is shifted. |
| Measurement.LagSearchResult | services/web/project/tools/measurement.py:133-142 | Starting from the lag window `[open, lag_end)`, the search ends at the first CH4 maximum of that window moved back by the reference number of shifts, at a time in `[open − 50 s, lag_end)`. |
| Measurement.MeasurementCycle.FindNegativeLagtime | services/web/project/tools/measurement.py:133-142 | The `while` loop returns what the search function gives from the initial index, window start and counter 0. |
| Measurement.AfterGetLagtime | services/web/project/tools/measurement.py:125-131 | The lag index is set and the lag seconds equal index − open (the unshifted open), within [−50, 120). The adjusted close becomes close + lag when it was unset, and is kept otherwise. Nothing else changes. |
| Measurement.GetLagtimeFindsShiftedMax | services/web/project/tools/measurement.py:125-142 | The recorded lag index is the first CH4 maximum of the lag window after the reference number of backward shifts. |
| Measurement.MeasurementCycle.GetLagtime | services/web/project/tools/measurement.py:125-131 | The new state is `AfterGetLagtime` of the old one. |
| Measurement.AfterGetMax | services/web/project/tools/measurement.py:92-113 | After the fetch: with no table the lag fields and r are reset and the cycle is invalid; with an empty lag window or an invalid cycle nothing more changes. Otherwise r is recorded, the cycle stays valid exactly when r ≥ 0.6, and the lag is computed all the same, within [−50, 120). Validity never rises and a set adjusted close is kept. |
| Measurement.MeasurementCycle.GetMax | services/web/project/tools/measurement.py:92-113 | The new state is `AfterGetMax` of the old one, and the source is queried exactly when the cycle is valid and has no table. |
| Measurement.RunMonotone | services/web/project/tools/measurement.py:43-111 | Over any sequence of the cycle's operations, an invalid cycle never becomes valid again, and a set adjusted close never changes. |
| Measurement.FetchOnce | services/web/project/tools/measurement.py:42-90 | Once a fetch has been made (or the cycle is invalid), after any further operations neither `just_get_data` nor `get_data` queries the source or changes anything. |
| Frame.CountBefore | services/web/project/tools/measurement.py:96-99 | On a sorted table, the position found by `get_datetime_index` for a time t splits the table: every row before it is earlier than t, and every row from it on is not. |
| Frame.SliceMembers | services/web/project/tools/measurement.py:115-123 | The positional window of a sorted table is a contiguous run `rows[s..e]` of the table. Every row of it is a table row with time in `[lo, hi)`, and every table row with such a time is in it. |
| Frame.StrictWindow | services/web/project/tools/measurement.py:23-25 | Every row the two boolean masks keep has open < time < open + 90 s, and every table row with such a time is kept. `StrictWindowRows` and `StrictWindowSorted` add that only table rows are kept, in the table's order. |
| Frame.StrictWindowRows | services/web/project/tools/measurement.py:23-25 | The masks keep only rows of the table. |
| Frame.StrictWindowSorted | services/web/project/tools/measurement.py:23-25 | On a time-sorted table the masked rows stay in time order. |
| Frame.StrictWindowFirstMax | services/web/project/tools/measurement.py:23-27 | `idxmax` over the masked rows of a sorted table gives the time of a table row in `(lo, hi)` with the largest value there, every earlier row of the interval holding a smaller one. |
| Frame.WindowMaxDominates | services/web/project/tools/measurement.py:27 | No table row in `(lo, hi)` holds a larger value than the row `idxmax` picks. |
| Frame.WindowMaxFirst | services/web/project/tools/measurement.py:27 | The row `idxmax` picks lies in `(lo, hi)`, and on a sorted table every earlier row of the interval holds a smaller value. |
| Frame.FirstMax | services/web/project/tools/measurement.py:27 | `idxmax`: a position holding the largest gas value, with every earlier row strictly smaller. |
| Frame.SliceWiden | services/web/project/tools/measurement.py:139 | Moving a window's start earlier gives a window that ends with every row of the old one, so it is never smaller. |
| Frame.MaxTimeInSlice | services/web/project/tools/measurement.py:140 | The time `idxmax` returns on a non-empty window lies in the window's interval. |
| AcPlot.GenerateYear | services/web/project/ac_plot.py:22-24 | 365 consecutive days in ascending order, ending today. |
| AcPlot.GenerateMonth | services/web/project/ac_plot.py:26-28 | 60 consecutive days in ascending order, ending today. |
| AcPlot.GenerateWeek | services/web/project/ac_plot.py:30-32 | 7 consecutive days in ascending order, ending today. |
| AcPlot.GenerateDay | services/web/project/ac_plot.py:34-36 | Exactly today. |
| AcPlot.GenerateDays | services/web/project/ac_plot.py:24 | The reversed countdown comprehension yields n days, with day k equal to today − (n − 1) + k. |
| AcPlot.DayPlan | services/web/project/ac_plot.py:45-52 | No planned cycle of a day starts after now. |
| AcPlot.DayPlanMembers | services/web/project/ac_plot.py:45-52 | A day's cycles are exactly the templates' cycles on that day that do not start after now. |
| AcPlot.DayPlanAppend | services/web/project/ac_plot.py:45 | Within a day the cycles follow template order. |
| AcPlot.Schedule | services/web/project/ac_plot.py:44-52 | The cycles the nested day/template loops create, computed as values. Its own contract: no planned cycle starts after now. Its membership and day-major order are proved by `ScheduleMembers` and `ScheduleAppend`, and the loops are proved to equal it by `GenerateCycles`. |
| AcPlot.ScheduleMembers | services/web/project/ac_plot.py:44-52 | The schedule holds exactly the cycles of every (day, template) pair whose start is not after now. |
| AcPlot.ScheduleAppend | services/web/project/ac_plot.py:44 | Day-major order: the schedule of two runs of days is the first run's schedule followed by the second's. |
| AcPlot.PlanDay | services/web/project/ac_plot.py:45-52 | The inner loop creates one fresh, valid, initial cycle object per planned cycle of the day, in order, with the template's chamber and that day's START/CLOSE/OPEN/END. |
| AcPlot.GenerateCycles | services/web/project/ac_plot.py:39-52 | `all_measurements` holds one fresh, valid, initial cycle object per scheduled cycle, in schedule order, with pairwise different objects. |
| AcPlot.FilterChamber | services/web/project/ac_plot.py:55-57 | One chamber's list in the `cycle_dict`: at most as long as `all_measurements`. Its meaning is proved by `FilterChamberMembers` (exactly that chamber's cycles), `FilterChamberAppend` (input order) and `GroupSizesTotal`. |
| AcPlot.FilterChamberMembers | services/web/project/ac_plot.py:55-57 | A chamber's group holds exactly the cycles with that chamber id. |
| AcPlot.FilterChamberAppend | services/web/project/ac_plot.py:55-57 | A group keeps the order of `all_measurements`: grouping two runs gives the first run's group followed by the second's. |
| AcPlot.Chambers | services/web/project/ac_plot.py:57 | The key order of `cycle_dict`: no more keys than cycles. `ChambersDistinct` and `ChambersMembers` prove that the keys are the cycles' chamber ids, each listed once, in first-appearance order. |
| AcPlot.ChambersDistinct | services/web/project/ac_plot.py:57 | The dictionary's key order lists no chamber twice. |
| AcPlot.ChambersMembers | services/web/project/ac_plot.py:57 | The keys are exactly the chamber ids of the cycles. |
| AcPlot.GroupSizesTotal | services/web/project/ac_plot.py:55-57 | The group sizes sum to the number of cycles. |
| AcPlot.GroupByChamber | services/web/project/ac_plot.py:55-57 | The `setdefault(...).append` loop yields the keys in first-appearance order, and each key's list is the in-order group of that chamber. |
| AcPlot.Selection | services/web/project/ac_plot.py:122-124 | "All" selects every cycle; another chamber selects its group, and one without a group raises. |
| AcPlot.Navigate | services/web/project/ac_plot.py:118-146 | The index/chamber transition of `update_graph`, or `None` where the source raises (an unknown chamber, or prev/next on an empty list). Its properties are `StepStaysInRange`, `NextThenPrev` and `ButtonsReset`. |
| AcPlot.StepStaysInRange | services/web/project/ac_plot.py:135-138 | Prev and next keep the index inside `[0, len)` and keep the chamber and its list. |
| AcPlot.NextThenPrev | services/web/project/ac_plot.py:135-138 | Next followed by prev, and prev followed by next, restore any index inside the list, wrapping at both ends. |
| AcPlot.ButtonsReset | services/web/project/ac_plot.py:125-146 | With no trigger the view is all cycles at index 0 under "All". A chamber button selects that chamber's group (all cycles for "All") at index 0, and raises for an unknown chamber. |
| AcPlot.Pick | services/web/project/ac_plot.py:149 | Python list indexing: succeeds exactly for −len ≤ index < len and counts negative indices from the end. |
| AcPlot.AfterDispatch | services/web/project/ac_plot.py:152-161 | The table is fetched with `get_data` only when it is absent; a loaded cycle keeps its table and verdict. Find-max runs `find_max("CH4")` on the loaded state (and raises with no table); del-lagtime runs `del_lagtime`; other triggers only load. |
| AcPlot.UpdateGraph | services/web/project/ac_plot.py:122-161 | The imperative callback navigates as `Navigate` says and picks the cycle as `Pick` says. Only that cycle changes, to the state `AfterDispatch` gives; nothing changes when a step raises. |
| CreateGraph.CreateColorMapping | services/web/project/tools/create_graph.py:155-165 | `create_color_mapping` on a column. `ColorMappingKeys`, `ColorMappingIndex` and `ColorMappingInjective` prove its keys, its palette assignment and its injectivity. |
| CreateGraph.ColorMappingKeys | services/web/project/tools/create_graph.py:155-165 | The mapping's keys are exactly the distinct values of the column. |
| CreateGraph.ColorMappingIndex | services/web/project/tools/create_graph.py:163 | The i-th distinct value, in first-appearance order, maps to `palette[i mod 10]`. |
| CreateGraph.ColorMappingInjective | services/web/project/tools/create_graph.py:163 | With at most ten distinct values, different values get different colours. |
| CreateGraph.RowColors | services/web/project/tools/create_graph.py:95-96 | Every row's colour is the mapping's colour for that row's id. |
| CreateGraph.PlotTraces | services/web/project/tools/create_graph.py:7-51 | The traces `create_plot` adds to a cycle's figure. `PlotTracesShape` proves their number and order, and `CloseLineFollowsFirstLag` where the close line sits. |
| CreateGraph.PlotTracesShape | services/web/project/tools/create_graph.py:10-51 | A cycle plot has four traces (data, open, close, lag) exactly when a lag index is set, and three otherwise. The close line is at the adjusted close when there is one, else at the close. |
| CreateGraph.CloseLineFollowsFirstLag | services/web/project/tools/create_graph.py:10-13 | After the first lag search the close line sits at close + lag seconds, and a later lag search does not move it. |
| CreateGraph.LagRows | services/web/project/tools/create_graph.py:84-85 | One row (open, lag seconds, id) per cycle, in input order; a row's position is the `idx` that `df` adds. |
| CreateGraph.MkLagGraph | services/web/project/tools/create_graph.py:82-96 | Every cycle is brought to the `get_max` state for its fetch and r. The k-th row is (open, lag seconds, id) of the k-th cycle, computed after those calls, so its position k is its `idx`. The highlight rows (`df2`, without `idx`) are those of the current cycles, and the colours follow the chamber ids. Current cycles outside the list do not change. |
| CreateGraph.LagGraphRange | services/web/project/tools/create_graph.py:84-86 | Every lag the graph shows for a cycle whose lag search ran lies within [−50, 120) seconds. |
| CreateGraph.PaletteDistinct | services/web/project/tools/create_graph.py:160-162 | The Plotly palette has ten pairwise different colours. |
| InfluxQueries.MkBucketQ | services/web/project/tools/influxdb_funcs.py:34-35 | The `from(bucket: ...)` line. It is the head of every query, as `TimestampQueriesShareUnboundedHead` and `ReadQueryDefaults` use. |
| InfluxQueries.MkRangeQ | services/web/project/tools/influxdb_funcs.py:38-39 | The `range(start:, stop:)` line. `ReadQueryDefaults` proves which bounds a read puts in it. |
| InfluxQueries.MkMeasQ | services/web/project/tools/influxdb_funcs.py:42-43 | The `_measurement` filter line, shared by all three queries. |
| InfluxQueries.MkQuery | services/web/project/tools/influxdb_funcs.py:46-54 | The read query: bucket, range, measurement, fields, then the pivot. The field clause inside it is proved invertible by `FieldClauseRecoversFields`. `ReadQueryDefaults` proves which call `read_ifdb` makes. |
| InfluxQueries.MkOldestTsQ | services/web/project/tools/influxdb_funcs.py:57-66 | The oldest-timestamp query. `TimestampQueriesShareUnboundedHead` proves it is the unbounded head followed by the `first` tail. |
| InfluxQueries.MkNewestTsQ | services/web/project/tools/influxdb_funcs.py:69-78 | The newest-timestamp query. `TimestampQueriesShareUnboundedHead` proves it is the same head followed by the `last` tail. |
| InfluxQueries.RangeBounds | services/web/project/tools/influxdb_funcs.py:122-130 | The range bounds of `read_ifdb`: the given timestamps, or `0` and `now()` when missing, as `ReadQueryDefaults` proves. |
| InfluxQueries.ReadQuery | services/web/project/tools/influxdb_funcs.py:114-133 | The query `read_ifdb` sends. `ReadQueryDefaults` proves it is `mk_query` over the comma-split fields with the defaulted bounds. |
| InfluxQueries.FieldTests | services/web/project/tools/influxdb_funcs.py:27-29 | One `r["_field"] == "f"` test per field, in input order. |
| InfluxQueries.MkFieldQ | services/web/project/tools/influxdb_funcs.py:26-31 | The accumulating loop yields the filter opening, then the tests of all fields joined by ` or `, then `)\n`. It is defined only for a non-empty field list. |
| InfluxQueries.ChainHead | services/web/project/tools/influxdb_funcs.py:27-29 | The joined tests are the first field's test followed by nothing (one field) or ` or ` and the rest. |
| InfluxQueries.FieldClauseInjective | services/web/project/tools/influxdb_funcs.py:27-29 | Field names without quotes can be read back from the joined tests: different lists give different chains. |
| InfluxQueries.FieldClauseRecoversFields | services/web/project/tools/influxdb_funcs.py:26-31 | The same for the whole field clause. |
| InfluxQueries.TimestampQueriesShareUnboundedHead | services/web/project/tools/influxdb_funcs.py:46-78 | The oldest and newest queries use the range `0`..`now()` and share every clause of an unbounded read; they differ from it only in the `first`/`yield` or `last`/`yield` tail that replaces the pivot. |
| InfluxQueries.ReadQueryDefaults | services/web/project/tools/influxdb_funcs.py:114-133 | A read's range starts at the given timestamp or `0` when it is missing, and stops at the given timestamp or `now()`. Its fields are the comma-separated parts of the field list. |
| InfluxQueries.Split | services/web/project/tools/influxdb_funcs.py:119 | `split(",")` yields at least one part, and no part contains a comma. |
| InfluxQueries.SplitJoin | services/web/project/tools/influxdb_funcs.py:119 | Joining the parts with the separator gives back the string. |
| ChamberValidation.Moved | services/web/project/chamber_validation2.py:109-122 | A clicked mark-valid, mark-invalid or next adds 1 to the index, a clicked previous subtracts 1, and a clicked jump with a target sets the index to that target. With `MoveNeedsClicks` for the unclicked cases, every action's outcome is pinned; in all cases the index stays, moves by ±1, or becomes the jump target. |
| ChamberValidation.MoveNeedsClicks | services/web/project/chamber_validation2.py:109-122 | An unclicked button, a jump without a target, or another input leaves the index unchanged. |
| ChamberValidation.Clamp | services/web/project/chamber_validation2.py:127 | `min(max(0, i), hi)` lies in `[0, hi]`, keeps an index inside it, and sends one outside it to the nearer end. |
| ChamberValidation.Unvalidated | services/web/project/chamber_validation2.py:96-97 | In skip mode, an ascending list of positions of rows not yet validated. |
| ChamberValidation.UnvalidatedComplete | services/web/project/chamber_validation2.py:96-97 | Every row not yet validated is listed. |
| ChamberValidation.TargetIndex | services/web/project/chamber_validation2.py:109-133 | The stored index is a table row, and in skip mode a row not yet validated. |
| ChamberValidation.UpdatePlot | services/web/project/chamber_validation2.py:96-133 | The if/elif chain and clamping of `update_plot` store `TargetIndex`: a table row, and in skip mode a listed unvalidated row. |
| ChamberValidation.NextThenPrevious | services/web/project/chamber_validation2.py:117-133 | Outside skip mode next then previous returns to any row but the last, and previous then next returns to any row but the first; at the ends the index stops. |
| ChamberValidation.JumpLands | services/web/project/chamber_validation2.py:121-133 | Outside skip mode a jump lands on a target inside the table, and on the nearer end otherwise. |
| ChamberValidation.IndexStaysInTable | services/web/project/chamber_validation2.py:124-133 | The stored index is always a valid input to the next call. |
| ChamberValidation.SkipPreviousCanStay | services/web/project/chamber_validation2.py:125-129 | In skip mode the stored table position is moved and clamped as a position in the list of unvalidated rows. With rows 0 and 2 unvalidated, previous from row 2 stays on row 2. |
| ChamberValidation.Marking | services/web/project/chamber_validation2.py:219-224 | The mark `validate_data` writes, or none. `MarkingCases` proves its three cases and `MarkValidates` their effect on skip mode. |
| ChamberValidation.MarkingCases | services/web/project/chamber_validation2.py:219-224 | Valid exactly when the valid count is positive and not below the invalid count (ties go to valid). Invalid exactly when the invalid count is larger. No mark exactly when both counts are 0. |
| ChamberValidation.ValidateData | services/web/project/chamber_validation2.py:215-226 | Without a mark the table is unchanged. Otherwise only the row at the current index changes, to validated with the mark's validity. |
| ChamberValidation.MarkValidates | services/web/project/chamber_validation2.py:219-224 | A marked row is validated either way, so skip mode no longer lists it. |
| MaintenanceLog.GrafanaMillis | services/web/project/maintenance_log.py:230-234 | `mk_grafana_ts`, the end instant in milliseconds, as `EndTimePresence` states. |
| MaintenanceLog.LogPoints | services/web/project/maintenance_log.py:167-215 | The two points `mk_log_point` returns. `MkLogPoint` proves the source's build-then-delete construction equals it. `LogPointsShape`, `EndTimePresence` and `InstrumentTexts` prove their names, times, uuid, `endTime` and texts. |
| MaintenanceLog.MkLogPoint | services/web/project/maintenance_log.py:167-215 | Building both points with an `endTime` entry, then deleting that entry from each when there is no end, yields exactly `LogPoints`. |
| MaintenanceLog.FieldsLiteral | services/web/project/maintenance_log.py:185-192 | The source's field dictionary, with `endTime` set to the end in milliseconds or None, is the modelled field map; without an end, deleting `endTime` gives that map. |
| MaintenanceLog.LogPointsShape | services/web/project/maintenance_log.py:176-211 | Two points: `log_message` timed at the end, then `maintenance_log_message` timed at the start. Both carry the same uuid in their fields and their tags. |
| MaintenanceLog.EndTimePresence | services/web/project/maintenance_log.py:178-214 | `endTime` is absent from both points exactly when there is no end, and otherwise holds the end in milliseconds. |
| MaintenanceLog.InstrumentTexts | services/web/project/maintenance_log.py:175-203 | The instruments are joined with `","` in the first point and `", "` in the second. The second point's text is `"{user} {project} {instruments}: {text}"`. |
| MaintenanceLog.SubmitMaintenance | services/web/project/maintenance_log.py:112-165 | `submit_maintenance`. `CheckOrder` proves the order of its refusals. `UnicodeBlankRefused` covers a Unicode-blank message. `PushedPassedChecks` proves what a pushed entry satisfies and holds, and `StartAfterEndRefused` proves that a start after the end is refused. |
| MaintenanceLog.CheckOrder | services/web/project/maintenance_log.py:123-135 | The checks run in order and the first failing one decides: each message appears exactly when its check fails and every earlier one passes. A message is blank when every character is one `str.strip()` removes, the full Unicode `isspace` set. |
| MaintenanceLog.UnicodeBlankRefused | services/web/project/maintenance_log.py:129-130 | A message made only of Unicode spaces (no-break, ideographic, line separator) is refused with "Please enter log message." |
| MaintenanceLog.PushedPassedChecks | services/web/project/maintenance_log.py:123-165 | A pushed entry passed every check and its (localized) start is no later than its end. With both end fields given, its points are those of `mk_log_point` for the localized start and end. Otherwise they are those for the naive, unlocalized start reading and no end. |
| MaintenanceLog.StartAfterEndRefused | services/web/project/maintenance_log.py:137-146 | A start whose localized instant is later than the localized end is refused with its message and produces no point. |
| Overview.Page | services/web/project/create_overview_app.py:69 | The page number of both overviews. `PageIsDifference` proves it is next − prev, and `NonNegativePage` and `NegativePage` prove which rows a page shows. |
| Overview.PageIsDifference | services/web/project/create_overview_app.py:69 | The page is always the difference of the click counts, and negative exactly when previous was clicked more often than next. |
| Overview.PageRows | services/web/project/create_overview_app.py:70-74 | A page visits at most 50 positions. |
| Overview.ILoc | services/web/project/create_overview_app.py:78 | `iloc[i]` succeeds exactly for −n ≤ i < n, reading row i or row n + i. |
| Overview.Rendered | services/web/project/create_overview_app.py:74-78 | A successful run of lookups reads one row per position, each the row `iloc` finds. |
| Overview.RenderedFails | services/web/project/create_overview_app.py:74-78 | A run of lookups fails exactly when one of its lookups fails. |
| Overview.Padded | services/web/project/create_overview_app.py:144-146 | Exactly 50 figures: the rendered rows in order, then empty figures. |
| Overview.RenderRows | services/web/project/create_overview_app.py:74-142 | The loop succeeds exactly when every lookup succeeds, and then yields one figure per row read, in order. |
| Overview.PadFigs | services/web/project/create_overview_app.py:145-146 | The padding loop keeps the figures and appends empty ones up to 50. |
| Overview.UpdateOverviewGraphs | services/web/project/create_overview_app.py:68-148 | The callback returns, when no lookup raises, exactly 50 figures: those of the page's rows in order, then empty ones. |
| Overview.NonNegativePage | services/web/project/create_overview_app.py:70-74 | A page k ≥ 0 shows the rows 50k, 50k + 1, … below min(50k + 50, n), in order, and never fails. |
| Overview.NegativePage | services/web/project/create_overview_app.py:70-78 | A negative page k fails unless the table has at least −50k rows, and then shows the 50 rows starting −50k from the end. |
| Overview.TrimmedDataInsideWindow | services/web/project/create_overview_app.py:83-85 | The first overview plots a data row exactly when it lies in [start − 115 s, end + 115 s], which is 5 s inside the drawn window [start − 2 min, end + 2 min], and every such row is one the untrimmed window keeps. |
| Overview.InWindowMembers | services/web/project/create_overview_app.py:85 | The data filter keeps exactly the times within the window, both ends included. |
| Overview.EevaRows | services/web/project/create_overview_app.py:169-176 | The rows the second overview keeps. `EevaRowsMembers` proves which rows they are and `EevaRowsAppend` that their order is kept. |
| Overview.EevaRowsMembers | services/web/project/create_overview_app.py:169-176 | The second overview keeps exactly the rows with `is_valid == 1`, r < 0.975 and a time strictly between 2021-10-19 and 2022-10-31. |
| Overview.EevaRowsAppend | services/web/project/create_overview_app.py:169-176 | The filter keeps the rows' order. |
| Overview.PageTotal | services/web/project/create_overview_app.py:231 | The second overview's page total, proved the nearest whole page count (ties to even) by `PageTotalNearest`. |
| Overview.PageTotalNearest | services/web/project/create_overview_app.py:231 | The page total is the whole number of pages nearest to count / 50, with ties going to the even one. |
| Overview.TitleColor | services/web/project/create_overview_app.py:128-131 | The first overview's title colour, green exactly for valid rows by `ColorsFollowValidity`. |
| Overview.FillColor | services/web/project/create_overview_app.py:267-272 | The second overview's rectangle colour, red exactly for invalid rows. `ColorsFollowValidity` proves it is green for every row that overview shows. |
| Overview.ColorsFollowValidity | services/web/project/create_overview_app.py:128-131 | The first overview's title is green exactly for valid rows. Every row the second overview shows passed its validity mask, so its rectangle is always green. |
| WebApp.VerifyPassword | services/web/project/__init__.py:35-38 | Returns the user name exactly for a known user whose password matches, and nothing otherwise. |
| WebApp.Get | services/web/project/__init__.py:147-148 | `request.form.get`: the submitted text, or None exactly when the field is missing. |
| WebApp.Note | services/web/project/__init__.py:228-231 | A note holds no comma after the replacement. |
| WebApp.Fields | services/web/project/__init__.py:150 | Every row has at least three fields and begins with its plot number. |
| WebApp.Plots | services/web/project/__init__.py:146-150 | The plots with rows are ascending, lie in 1..n, and each has a row by its sheet's rule. |
| WebApp.PlotsComplete | services/web/project/__init__.py:146-150 | Every plot in 1..n whose values call for a row is listed. |
| WebApp.PlotsIff | services/web/project/__init__.py:149 | A plot gets a row exactly when its values say so. |
| WebApp.LinesAfterHeader | services/web/project/__init__.py:136-150 | After the header, the k-th line is the row of the k-th plot with a row. |
| WebApp.SubmitWater | services/web/project/__init__.py:135-154 | The response is `Lines(Water)` joined with `<br>` and the file is the same lines joined with newlines. The lines are three headers, then an `i,in,out` row for each plot 1..72 with either value given. |
| WebApp.SubmitSnow | services/web/project/__init__.py:180-208 | The same for the snow sheet. A row is emitted for each plot with any of the three depths given; an empty palvi becomes 100. |
| WebApp.PalviDefault | services/web/project/__init__.py:196-198 | The palvi field is 100 for an empty value, the value itself when one is given, and `None` when the field is missing. |
| WebApp.SubmitTimes | services/web/project/__init__.py:212-240 | The same for the time sheet. A time with a height gives `i,time,note,height`, a time with an empty height gives `i,time,0`, and anything else gives no row. |
| WebApp.LineJoinsFields | services/web/project/__init__.py:150 | A row line is its fields joined with commas. |
| WebApp.SplitJoinedFields | services/web/project/__init__.py:150 | A line whose fields contain no comma splits back into those fields. |
| WebApp.RowNamesPlot | services/web/project/__init__.py:150 | The text before a row's first comma is its plot number and reads back as that number. |
| WebApp.TimesRowFields | services/web/project/__init__.py:232-233 | A four-field time row reads back as plot, time, note and height. The note's commas were replaced, so it adds no field. |
| WebApp.TimesRowWithoutHeight | services/web/project/__init__.py:234-236 | A time row with an empty height is emitted and reads back as plot, time and 0. |
| Util.NatToStringRoundTrip | services/web/project/__init__.py:150 | The decimal text of a plot number reads back as that number. |
| Util.UniqueMembers | services/web/project/tools/create_graph.py:157 | `unique()` keeps exactly the values of the column. |
| Util.UniqueDistinct | services/web/project/tools/create_graph.py:157 | `unique()` lists no value twice. |

## Left out

- I/O and libraries, left out as library semantics or I/O:
  - InfluxDB client work. `init_client`, `read_aux_ifdb`, the query call inside `read_ifdb`/`just_read`, `ifdb_push` and `push_point.py` are not modelled. A read result is a parameter `fetched: Option<seq<Row>>`.
  - Flask routing, Dash layouts and callback wiring, Plotly styling, figure titles, `print`, and feather/CSV/JSON file reads and writes.
  - The CSV handlers return the file body rather than writing it. `submit_times` rewrites the file on every loop turn; the last write, the only one that remains, holds the returned body.
- Timezones, clocks and parsing:
  - `tz_localize`, pytz and `mk_grafana_ts`'s timezone conversion are left out; instants are epoch seconds.
  - In `submit_maintenance`, `local_tz.localize` is a parameter `localize`. It is applied to the start and end only when both end fields are given. Without an end the source parses the start again without localizing it, so the pushed start is the naive reading, which InfluxDB takes as UTC; the model keeps that difference.
  - `datetime.now()` and `datetime.today()` are parameters.
  - `strptime` in `submit_maintenance` is a parameter `parse` giving the wall-clock reading as epoch seconds, whose `None` stands for a parse error.
  - `mk_ifdb_ts` is left out; its text is the given bound.
  - `mk_uuid` is left out; the uuid is a parameter.
  - `submit_ac`, which only applies `strptime` to two fields, is not modelled.
- Floating point and foreign code:
  - Pearson's r (`get_r` and `gas_funcs`, which are not part of this model) is an opaque real passed to `GetMax`; only the 0.6 threshold is modelled.
  - Gas values are reals.
  - `round(r, 3)` in titles is left out.
- `get_datetime_index` (`tools/filter.py`) is not part of this model. It is taken to return the positions of the first rows at or after the two keys, which makes the window the half-open interval [lo, hi).
- `MeasurementCycle.r` and `calc_data` are not set by `__init__` in the source. The model starts them as absent.
- `Measurement.MeasurementCycle.GetMax` takes r as a parameter. It does not model the attribute error that `get_r` raises when a cycle constructed with a table never set `calc_data`.
- `update_graph`'s plotting tail (line 163 onwards) is left out. It reads `measurement.no_data_in_db`, which `MeasurementCycle` never sets, so that line raises. The lag graph it would draw is modelled separately by `MkLagGraph`. Because the callback never returns, the `stored-index` and `stored-chamber` stores (initially 0 and "All") are never updated, so in the running app every click navigates from that initial view, while the in-place changes to the picked cycle (`find_max`, `del_lagtime`, the fetched table) do persist. `AcPlot.NextThenPrev` and `AcPlot.StepStaysInRange` are therefore properties of one transition of `Navigate`, not of a sequence of clicks in the app.
- `generate_buttons` (a button per key of `cycle_dict` after "All") is not modelled beyond its key order, `Chambers`.
- `CreateGraph.MkLagGraph` requires the cycles to be pairwise different objects, which the source does not state. The chamber groups and `all_measurements`, its only inputs, always are (`GenerateCycles`, `FilterChamber`).
- `CreateGraph.PlotTraces` treats `if measurement.lagtime_index` as "a lag index is set": a timestamp is always truthy. The y extents and styling of the traces are left out.
- `ChamberValidation.UpdatePlot` requires the callback to have rows to show, because otherwise the source returns an unbound `fig` and raises. Its in-callback marking of its own table copy is left out, since only the dropped figure shows it. Its figure is left out.
- `ChamberValidation.Moved` takes the jump target as an optional integer. The source's number input (`chamber_validation2.py` lines 43-49) can also deliver a non-integer number; clamping keeps it, and the positional lookup that follows then raises. That case is not modelled.
- `save_progress` in the validation page only writes a file and is left out.
- `WebApp.SubmitTimes` requires a note field for every plot that gets a four-field row. Without one the source reuses the previous plot's note, or raises when there was none.
- `MaintenanceLog.SubmitMaintenance` takes the message text and the instruments as present strings; a missing one raises in the source (`strip` at line 129, `join` at line 175). It also takes the user name as a present string; a missing one is not an error in the source, which writes `None` into the message and stores a null `user` tag, and the model does not represent that case. The returned `str(pt)` text is modelled as the list of points.
- In both overviews, `min(filtered_data["CH4"])` raises on an empty data window (lines 100 and 110 of `create_overview_app.py` for the first, 257 and 280 for the second). The data table of the overview pages is not modelled beyond `InWindow`, so that failure is not either.
- The second overview's page/page-total title text and "invalid because" text are left out. Only the page total and the fill colour are modelled.
- Behaviour the repository's own description mentions but the code does not have is not modelled, because the model follows the code: a right-edge retry of the lag search, sorting a selection by open time, and an undo of the lag search on delete.
