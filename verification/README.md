# Forecast and variance stage, modelled in Dafny

This project models the forecasting and variance stage of a small financial
forecasting pipeline (`src/02_forecast_and_variance.py`). The stage takes the
monthly actuals per account and sorts them by account and month. For each
account it then:

- forecasts the next months with a seasonal-naive rule;
- dates the forecasts in the calendar months after the account's last actual
  month;
- combines actuals and forecasts into one table with a nullable `variance` and
  a guarded `variance_pct`.

The per-account tables are concatenated into the combined table. The Summary
sheet keeps, for each account, its last `3 + HORIZON_MONTHS` rows.

Modules, one per concern:

- `Wrappers`: `Option` (a nullable cell; `None` is NaN) and `Result` (a value, or
  the exception the code raises).
- `Ordering`: Python's string order, the `(account, month)` sort key, and the
  stable sort pandas uses for multi-column `sort_values`.
- `Calendar`: dates reduced to `(year, month, day)` and to a month index
  `year * 12 + month - 1`; `MonthBegin(1)` and `date_range(freq="MS")`.
- `Forecast`: `seasonal_naive_forecast`.
- `Variance`: the combined row, the null-propagating subtraction, the guarded
  percentage, and one account's combined table.
- `Grouping`: `groupby("account")` (groups in ascending key order) and
  `groupby(...).tail(n)`.
- `Loop`: the per-account loop and the final `pd.concat`, for any loop body.
- `Pipeline`: `main` without its I/O. It covers the sort, the grouping, the loop
  with the stage's body, the Summary window and both sheets of the report.

## Model

| member | source | states |
|---|---|---|
| Forecast.SeasonalNaive | src/02_forecast_and_variance.py:12-22 | Fails exactly when `season_len` is 0 (division by zero), the history is empty (`iloc[-1]`), or a full season of history meets a zero horizon (`pd.concat([])`), with the matching error for each; otherwise returns `horizon` values, where entry k is `history[len - season_len + k % season_len]` with a full season and the last observed value without |
| Forecast.SeasonsNeeded | src/02_forecast_and_variance.py:19 | The repetition count is the ceiling of `horizon / season_len`: enough whole seasons to cover the horizon, and one fewer would not be |
| Forecast.Tile | src/02_forecast_and_variance.py:20 | `reps` copies of the base have length `len(base) * reps`, and position k holds `base[k % len(base)]` |
| Forecast.LastSeasonOnly | src/02_forecast_and_variance.py:17-21 | Two histories that end in the same last season get the same forecast |
| Forecast.ForecastPeriodic | src/02_forecast_and_variance.py:17-21 | With a full season of history, every forecast value repeats `season_len` positions later |
| Forecast.OneSeasonAhead | src/02_forecast_and_variance.py:17-21 | A horizon of at most one season returns the first `horizon` values of the last season, in order |
| Calendar.NextMonthBegin | src/02_forecast_and_variance.py:45 | `MonthBegin(1)` gives the first day of the next calendar month, whatever the day |
| Calendar.MonthStartRange | src/02_forecast_and_variance.py:44-48 | `date_range(freq="MS")` gives `periods` month starts at consecutive month indices, from the start's month when it is a month start and from the next month otherwise |
| Calendar.FutureMonthStarts | src/02_forecast_and_variance.py:43-48 | The i-th future month is the first day of the month `i + 1` months after the last actual month |
| Calendar.FutureMonths | src/02_forecast_and_variance.py:43-48 | The same months as month indices: entry i is `last + i + 1`, so there are `horizon` contiguous months, all after the history |
| Variance.MaxMonth | src/02_forecast_and_variance.py:43 | The latest month of a non-empty history: no month is later, and one month equals it |
| Variance.Subtract | src/02_forecast_and_variance.py:62 | The variance exists exactly when both amounts do, and then `variance + forecast == actual` |
| Variance.Percent | src/02_forecast_and_variance.py:63-67 | The percentage exists exactly when the variance exists and the forecast is present and non-zero, and then `pct * forecast == variance` |
| Variance.MakeRow | src/02_forecast_and_variance.py:59-67 | A combined row keeps its month, account and amounts; its variance and percentage follow the two null rules above, with `pct * forecast == actual - forecast` |
| Variance.HistoryRows | src/02_forecast_and_variance.py:53-54 | One row per actual, in order: the actual amount set, the forecast NaN, the variance NaN |
| Variance.ForecastRows | src/02_forecast_and_variance.py:51-56 | One row per forecast value at its future month: the actual NaN, the forecast set, the variance NaN |
| Variance.AccountTable | src/02_forecast_and_variance.py:53-59 | The account's table: the history rows, then the forecast rows in the months after the last history month, all tagged with the account |
| Variance.ComposeSorted | src/02_forecast_and_variance.py:41-69 | For a month-ordered history, fails exactly when the season length is 0, raising the division error, or when a full season meets a zero horizon, raising the `pd.concat([])` error; otherwise returns the account table of that history and its forecast |
| Variance.ComposeAccount | src/02_forecast_and_variance.py:37-69 | One loop iteration fails exactly for an empty group, a zero season length, or a full season with a zero horizon. An empty group has `NaT` as its last month, so it raises at `pd.date_range` before the forecast is computed. A non-empty group raises the division error for a zero season length, and otherwise the `pd.concat([])` error |
| Variance.ComposeAccountTable | src/02_forecast_and_variance.py:38-59 | A successful iteration reorders the group by month (a permutation of the group, months ascending), emits one history row per month, and then the forecast rows of that history |
| Variance.ComposedTable | src/02_forecast_and_variance.py:38-59 | An iteration's table carries one account, is in month order, has one row per history month and per forecast month, has no row with both an actual and a forecast, and puts every forecast month strictly after every history month |
| Variance.GapFreeSorted | src/02_forecast_and_variance.py:38 | A group with an actual in every month from its first to its last, listed in month order, is left unchanged by the month sort |
| Variance.SameMonthLastSeason | src/02_forecast_and_variance.py:14-51 | For a group with an actual in every month of its span and at least one season of history, the forecast for each future month is the actual of the month a whole number of seasons earlier, within the last season. With a horizon of at most one season, as configured (6 and 12), that is last year's same month |
| Variance.GapShiftsSeason | src/02_forecast_and_variance.py:17-51 | For a month-ordered history whose last `season_len` rows span more than `season_len` months (a missing month), the first forecast month takes the actual of a month more than one season earlier: the forecast is positional, not calendar-aligned |
| Variance.GapExample | src/02_forecast_and_variance.py:17-51 | On months 0, 1 and 3 to 12 (month 2 missing), with each actual equal to its month, month 13 is forecast as 0.0 (month 0's actual) although month 1, one season earlier, has the actual 1.0 |
| Ordering.StrLe | src/02_forecast_and_variance.py:33-37 | Python's `<=` on `str`, which orders `sort_values` and `groupby`: a total order (`StrLeReflexive`, `StrLeTotal`, `StrLeAntisymmetric`, `StrLeTransitive`) that is the lexicographic order on code points (`StrLeLexicographic`) |
| Ordering.StrLeLexicographic | src/02_forecast_and_variance.py:33-37 | Python's string order holds exactly when the first string is a prefix of the second, or is smaller at the first position where they differ |
| Ordering.SortBy | src/02_forecast_and_variance.py:33 | `sort_values(["account", "month"])` returns a permutation of its input, ordered by account then month |
| Ordering.SortBySorted | src/02_forecast_and_variance.py:80-82 | Sorting rows already in `(account, month)` order changes nothing |
| Grouping.Filter | src/02_forecast_and_variance.py:37 | A group holds only rows of its own account |
| Grouping.GroupBy | src/02_forecast_and_variance.py:37 | `groupby("account")` yields one non-empty group per account present, in strictly ascending account order, each holding exactly that account's rows in their original order |
| Grouping.TailWindow | src/02_forecast_and_variance.py:83-84 | `groupby("account").tail(n)` keeps only input rows, none more often than it occurs in the input; `TailWindowPerAccount` states which: for every account, exactly its last n rows |
| Grouping.TailWindowPerAccount | src/02_forecast_and_variance.py:83-84 | `groupby("account").tail(n)` keeps, for every account, exactly that account's last n rows |
| Grouping.TailWindowSorted | src/02_forecast_and_variance.py:81-84 | Taking the tail window of a sorted table leaves it sorted |
| Loop.Concat | src/02_forecast_and_variance.py:35-71 | The loop over the groups, for any loop body, succeeds exactly when every group's iteration succeeds. With no groups it gives the empty table; the error `pd.concat` raises on line 71 for no tables is raised by `Pipeline.ForecastAndVariance` |
| Loop.ConcatFirstFailure | src/02_forecast_and_variance.py:37-69 | When the iteration of group k is the first to raise, the loop raises that group's exception |
| Loop.ConcatSorted | src/02_forecast_and_variance.py:37-71 | Tables of strictly ascending accounts, each of one account and in month order, concatenate into a table in `(account, month)` order whose every row belongs to one of the groups |
| Loop.ConcatAccount | src/02_forecast_and_variance.py:37-71 | In the concatenation, the rows of group k's account are exactly group k's table |
| Loop.ConcatAbsent | src/02_forecast_and_variance.py:37-71 | An account that no group has contributes no rows to the concatenation |
| Pipeline.Iteration | src/02_forecast_and_variance.py:37-69 | The loop body with the stage's horizon and season length raises exactly for an empty group, a zero season length, or a full season of history with a zero horizon. The exception is the `NaT` date-range error for an empty group, else the division error for a zero season length, else the `pd.concat([])` error. Otherwise its table carries the group's account, is in month order, has `len(g) + horizon` rows, has no row with both an actual and a forecast, and puts every forecast month strictly after every history month |
| Pipeline.ForecastAndVarianceFailure | src/02_forecast_and_variance.py:37-50 | When an account's iteration is the first to raise, the stage raises that iteration's exception |
| Pipeline.ForecastAndVariance | src/02_forecast_and_variance.py:32-71 | No query rows raise at the final `pd.concat([])`; a zero season length raises; with a positive horizon and season length the stage succeeds exactly when there is at least one row |
| Pipeline.ResultSorted | src/02_forecast_and_variance.py:33-71 | The combined table is already in `(account, month)` order, so the Summary's re-sort leaves it unchanged |
| Pipeline.ResultPerAccount | src/02_forecast_and_variance.py:37-71 | The combined table's rows for an account are exactly that account's table, and are empty for an account with no actuals |
| Pipeline.ResultNoVariance | src/02_forecast_and_variance.py:61-67 | No row has both an actual and a forecast, so `variance` and `variance_pct` are NaN throughout the combined table |
| Pipeline.SummaryPerAccount | src/02_forecast_and_variance.py:80-84 | The Summary sheet stays in `(account, month)` order and keeps, for each account, the last `3 + horizon` rows of that account's table |
| Pipeline.SummaryKeepsForecast | src/02_forecast_and_variance.py:80-84 | An account's table has `history + horizon` rows. With at least 3 months of history the Summary keeps its last 3 history rows and all forecast rows; with fewer it keeps the whole table |
| Pipeline.Summary | src/02_forecast_and_variance.py:80-84 | The Summary sheet is in `(account, month)` order, takes its rows from the table, and holds, for every account, exactly the last `3 + horizon` rows of that account in `(account, month)` order |
| Pipeline.MakeReport | src/02_forecast_and_variance.py:71-85 | With the configured horizon (6) and season length (12), the report's two sheets are produced exactly when the query returned at least one row |

## Left out

- The SQL query, the database connection, and the CSV and Excel writers (lines 24-30, 73-79, 85-89) are not modelled. The query's rows are a parameter, and the two sheets are returned as a value.
- `src/01_load_to_sqlite.py`, `run.py` and `view_db.py` (ingestion, runner, inspection utility) are not part of this model.
- Amounts are mathematical reals. Floating-point rounding is not modelled, and NaN is `None`.
- A pandas Timestamp is reduced to its month index. The model assumes the monthly query returns one row per account and month, dated on the first of the month, so the table carries month indices. `Calendar.MonthStartRange` and `Calendar.NextMonthBegin` model the day-level behaviour of the date arithmetic. Times of day and time zones are not modelled.
- `horizon` and `season_len` are natural numbers. A negative horizon or season length, which Python would accept, is not modelled.
- Pipeline.ResultSorted: assumes a non-empty query, a positive horizon and a positive season length, under which the stage always succeeds. Successful runs with a zero horizon, where every account has less than one season of history, are not covered. The program's own horizon and season length are 6 and 12.
- Pipeline.ResultPerAccount: assumes a non-empty query, a positive horizon and a positive season length, under which the stage always succeeds. Successful runs with a zero horizon, where every account has less than one season of history, are not covered. The program's own horizon and season length are 6 and 12.
- Pipeline.ResultNoVariance: assumes a non-empty query, a positive horizon and a positive season length, under which the stage always succeeds. Successful runs with a zero horizon, where every account has less than one season of history, are not covered. The program's own horizon and season length are 6 and 12.
- Pipeline.SummaryPerAccount: assumes a non-empty query, a positive horizon and a positive season length, under which the stage always succeeds. Successful runs with a zero horizon, where every account has less than one season of history, are not covered. The program's own horizon and season length are 6 and 12.
- Pipeline.SummaryKeepsForecast: assumes a non-empty query, a positive horizon and a positive season length, under which the stage always succeeds. Successful runs with a zero horizon, where every account has less than one season of history, are not covered. The program's own horizon and season length are 6 and 12.
- Variance.ComposeAccount: the month sort on line 38 uses pandas' default quicksort, which is not stable; the model sorts stably. The two agree whenever an account has no repeated month, which the model assumes of the query: one row per (account, month).
- The docstring on line 14 promises each future month "last year's same month" actuals. The code takes the last `season_len` rows by position. The two agree when the account has an actual in every month of its last season (`Variance.SameMonthLastSeason`). With a missing month they differ (`Variance.GapShiftsSeason`, `Variance.GapExample`). The model follows the code.
- Month indices are unbounded integers. pandas Timestamps only cover 1677-09-21 to 2262-04-11, so `pd.to_datetime` (line 32) raises `OutOfBoundsDatetime` for a month outside that range. For an account whose last month is 2261-11 or later, the six future months (lines 44-48) run past the range, and pandas raises an overflow error. These errors are not modelled.
- Column order, column names and the reset index of the output frames are not modelled. Rows are records with named fields.
- With a zero horizon, the seasonal branch raises, because `pd.concat` of zero copies fails (line 20). The flat branch returns an empty forecast (line 22). The model does the same. The configured horizon is 6.
- `pd.concat([out, future_df])` (line 57) appends the forecast rows without merging months. Every forecast month is after every history month of its account (`Variance.ComposedTable`, `Pipeline.Iteration`), so no month has both a history row and a forecast row.
