/** The variance composer: one account's history and forecast merged into the
    combined table, with null-propagating variance and a guarded percentage. */
module Variance {
  import opened Wrappers
  import opened Ordering
  import opened Calendar
  import opened Forecast

  /** One row of the monthly-actuals query: month index, account, summed amount. */
  datatype QueryRow = QueryRow(month: int, account: string, amount: real)

  /** One row of the combined table; `None` is a NaN cell. */
  datatype Row = Row(
    month: int,
    account: string,
    actual: Option<real>,
    forecast: Option<real>,
    variance: Option<real>,
    variancePct: Option<real>)

  /** The `(account, month)` order of the combined table. */
  function RowKey(r: Row): Key { Key(r.account, r.month) }
  function RowAccount(r: Row): string { r.account }

  /** Every row of `t` belongs to `account`. */
  predicate Tagged(t: seq<Row>, account: string)
  {
    forall i :: 0 <= i < |t| ==> t[i].account == account
  }

  /** A row that does not carry both amounts, so has no variance. */
  predicate Unmatched(r: Row)
  {
    (r.actual.Some? ==> r.forecast.None?) && r.variance.None? && r.variancePct.None?
  }

  predicate AllUnmatched(t: seq<Row>)
  {
    forall i :: 0 <= i < |t| ==> Unmatched(t[i])
  }

  /** `actual_amount - forecast_amount` on nullable columns: NaN in, NaN out. */
  function Subtract(actual: Option<real>, forecast: Option<real>): (v: Option<real>)
    ensures v.Some? <==> actual.Some? && forecast.Some?
    ensures v.Some? ==> v.value + forecast.value == actual.value
  {
    if actual.Some? && forecast.Some? then Some(actual.value - forecast.value) else None
  }

  /** `np.where(forecast.notna() & (forecast != 0), variance / forecast, nan)`. */
  function Percent(variance: Option<real>, forecast: Option<real>): (p: Option<real>)
    ensures p.Some? <==> variance.Some? && forecast.Some? && forecast.value != 0.0
    ensures p.Some? ==> p.value * forecast.value == variance.value
  {
    if forecast.Some? && forecast.value != 0.0 && variance.Some?
    then Some(variance.value / forecast.value)
    else None
  }

  /** A combined row with its derived columns filled in: the variance exists
      exactly when both amounts do, and the percentage exactly when, in
      addition, the forecast is non-zero. */
  function MakeRow(month: int, account: string, actual: Option<real>, forecast: Option<real>): (r: Row)
    ensures r.month == month && r.account == account
    ensures r.actual == actual && r.forecast == forecast
    ensures r.variance.Some? <==> actual.Some? && forecast.Some?
    ensures r.variance.Some? ==> r.variance.value == actual.value - forecast.value
    ensures r.variancePct.Some? <==> actual.Some? && forecast.Some? && forecast.value != 0.0
    ensures r.variancePct.Some? ==> r.variancePct.value * forecast.value == actual.value - forecast.value
  {
    var variance := Subtract(actual, forecast);
    Row(month, account, actual, forecast, variance, Percent(variance, forecast))
  }

  /** The within-account order of `g.sort_values("month")`: every row of the
      group carries the same account, so only the month decides. */
  function ByMonth(account: string): QueryRow -> Key
  {
    (q: QueryRow) => Key(account, q.month)
  }

  function Amounts(rows: seq<QueryRow>): (a: seq<real>)
    ensures |a| == |rows|
    ensures forall i :: 0 <= i < |rows| ==> a[i] == rows[i].amount
  {
    seq(|rows|, i requires 0 <= i < |rows| => rows[i].amount)
  }

  /** `actual.index.max()`: the latest month of a non-empty history. */
  function MaxMonth(rows: seq<QueryRow>): (m: int)
    requires |rows| > 0
    ensures forall i :: 0 <= i < |rows| ==> rows[i].month <= m
    ensures exists i :: 0 <= i < |rows| && rows[i].month == m
  {
    if |rows| == 1 then rows[0].month
    else
      var rest := MaxMonth(rows[1..]);
      assert forall i :: 1 <= i < |rows| ==> rows[i] == rows[1..][i - 1];
      if rows[0].month >= rest then rows[0].month else rest
  }

  /** `SortBy` with `ByMonth` orders a group by month. */
  lemma ByMonthSorted(account: string, hist: seq<QueryRow>)
    requires SortedBy(hist, ByMonth(account))
    ensures forall i, j :: 0 <= i < j < |hist| ==> hist[i].month <= hist[j].month
  {
    forall i, j | 0 <= i < j < |hist|
      ensures hist[i].month <= hist[j].month
    {
      assert KeyLe(ByMonth(account)(hist[i]), ByMonth(account)(hist[j]));
    }
  }

  /** The historical part: `actual_amount` populated, `forecast_amount` NaN. */
  function HistoryRows(account: string, hist: seq<QueryRow>): (rows: seq<Row>)
    ensures |rows| == |hist|
    ensures forall i :: 0 <= i < |hist| ==>
      && rows[i].month == hist[i].month
      && rows[i].account == account
      && rows[i].actual == Some(hist[i].amount)
      && rows[i].forecast == None
      && rows[i].variance == None
      && rows[i].variancePct == None
  {
    seq(|hist|, i requires 0 <= i < |hist| =>
      MakeRow(hist[i].month, account, Some(hist[i].amount), None))
  }

  /** The forecast part: `forecast_amount` populated, `actual_amount` NaN. */
  function ForecastRows(account: string, months: seq<int>, fc: seq<real>): (rows: seq<Row>)
    requires |months| == |fc|
    ensures |rows| == |fc|
    ensures forall j :: 0 <= j < |fc| ==>
      && rows[j].month == months[j]
      && rows[j].account == account
      && rows[j].actual == None
      && rows[j].forecast == Some(fc[j])
      && rows[j].variance == None
      && rows[j].variancePct == None
  {
    seq(|fc|, j requires 0 <= j < |fc| => MakeRow(months[j], account, None, Some(fc[j])))
  }

  /** The shape of one account's combined table: the history rows in order with
      only `actual_amount` set, then one row per forecast value with only
      `forecast_amount` set, in the consecutive months after the last history
      month; every row tagged with `account`, and no row with a variance. */
  predicate IsAccountTable(t: seq<Row>, account: string, hist: seq<QueryRow>, fc: seq<real>)
  {
    && |hist| > 0
    && |t| == |hist| + |fc|
    && (forall i :: 0 <= i < |t| ==>
         && t[i].account == account
         && t[i].variance == None
         && t[i].variancePct == None)
    && (forall i :: 0 <= i < |hist| ==>
         && t[i].month == hist[i].month
         && t[i].actual == Some(hist[i].amount)
         && t[i].forecast == None)
    && (forall i :: |hist| <= i < |t| ==>
         && t[i].month == hist[|hist| - 1].month + (i - |hist|) + 1
         && t[i].actual == None
         && t[i].forecast == Some(fc[i - |hist|]))
  }

  /** History rows followed by the forecast rows of the `|fc|` months after `last`. */
  function AccountTable(account: string, hist: seq<QueryRow>, last: int, fc: seq<real>): (t: seq<Row>)
    requires |hist| > 0 && last == hist[|hist| - 1].month
    ensures IsAccountTable(t, account, hist, fc)
  {
    var past := HistoryRows(account, hist);
    var ahead := ForecastRows(account, FutureMonths(last, |fc|), fc);
    past + ahead
  }

  /** The per-account loop body once the group is in month order. */
  function ComposeSorted(account: string, hist: seq<QueryRow>, horizon: nat, seasonLen: nat)
    : (r: Result<seq<Row>, ForecastError>)
    requires |hist| > 0
    requires forall i, j :: 0 <= i < j < |hist| ==> hist[i].month <= hist[j].month
    ensures r.Failure? <==> seasonLen == 0 || (|hist| >= seasonLen && horizon == 0)
    ensures r.Failure? ==> r.error == if seasonLen == 0 then ZeroSeasonLength else NoObjectsToConcatenate
    ensures r.Success? ==> IsAccountTable(r.value, account, hist, SeasonalNaive(Amounts(hist), horizon, seasonLen).value)
  {
    var last := MaxMonth(hist);
    var forecast := SeasonalNaive(Amounts(hist), horizon, seasonLen);
    if forecast.Failure? then Failure(forecast.error)
    else
      assert last == hist[|hist| - 1].month;
      Success(AccountTable(account, hist, last, forecast.value))
  }

  /** The body of the per-account loop: the group sorted by month, its
      seasonal-naive forecast, and the combined table of both. An empty group
      has `NaT` as its last month, so the date range of its forecast months
      raises before the forecast is computed. */
  function ComposeAccount(account: string, g: seq<QueryRow>, horizon: nat, seasonLen: nat)
    : (r: Result<seq<Row>, ForecastError>)
    ensures r.Failure? <==> |g| == 0 || seasonLen == 0 || (|g| >= seasonLen && horizon == 0)
    ensures |g| == 0 ==> r == Failure(NaTStart)
    ensures |g| > 0 && r.Failure? ==> r.error == if seasonLen == 0 then ZeroSeasonLength else NoObjectsToConcatenate
  {
    if |g| == 0 then Failure(NaTStart)
    else
      var hist := SortBy(g, ByMonth(account));
      ByMonthSorted(account, hist);
      ComposeSorted(account, hist, horizon, seasonLen)
  }

  /** A successful iteration's table: the group reordered by month (a
      permutation of it, months ascending) as history rows, then its forecast. */
  lemma ComposeAccountTable(account: string, g: seq<QueryRow>, horizon: nat, seasonLen: nat, t: seq<Row>)
    requires ComposeAccount(account, g, horizon, seasonLen) == Success(t)
    ensures var hist := SortBy(g, ByMonth(account));
      && multiset(hist) == multiset(g)
      && (forall i, j :: 0 <= i < j < |hist| ==> hist[i].month <= hist[j].month)
      && SeasonalNaive(Amounts(hist), horizon, seasonLen).Success?
      && IsAccountTable(t, account, hist, SeasonalNaive(Amounts(hist), horizon, seasonLen).value)
  {
    var hist := SortBy(g, ByMonth(account));
    ByMonthSorted(account, hist);
  }

  /** One account's table is in (account, month) order: one account throughout,
      history months ascending, forecast months after them. */
  lemma AccountTableSorted(t: seq<Row>, account: string, hist: seq<QueryRow>, fc: seq<real>)
    requires IsAccountTable(t, account, hist, fc)
    requires forall i, j :: 0 <= i < j < |hist| ==> hist[i].month <= hist[j].month
    ensures SortedBy(t, RowKey)
  {
    forall i, j | 0 <= i < j < |t|
      ensures KeyLe(RowKey(t[i]), RowKey(t[j]))
    {
      if j >= |hist| && i < |hist| {
        assert hist[i].month <= hist[|hist| - 1].month;
      }
    }
  }

  /** What the rest of the stage relies on from one iteration's table: one
      account, in month order, one row per history and per forecast month,
      no row with both amounts, and every forecast month after every history
      month, so no month has both an actual and a forecast. */
  lemma ComposedTable(account: string, g: seq<QueryRow>, horizon: nat, seasonLen: nat, t: seq<Row>)
    requires ComposeAccount(account, g, horizon, seasonLen) == Success(t)
    ensures Tagged(t, account)
    ensures SortedBy(t, RowKey)
    ensures |t| == |g| + horizon
    ensures AllUnmatched(t)
    ensures forall i, j :: 0 <= i < |g| <= j < |t| ==> t[i].month < t[j].month
  {
    var hist := SortBy(g, ByMonth(account));
    var fc := SeasonalNaive(Amounts(hist), horizon, seasonLen).value;
    ComposeAccountTable(account, g, horizon, seasonLen, t);
    AccountTableSorted(t, account, hist, fc);
    forall i, j | 0 <= i < |g| <= j < |t|
      ensures t[i].month < t[j].month
    {
      assert hist[i].month <= hist[|hist| - 1].month;
    }
    forall i | 0 <= i < |t|
      ensures Unmatched(t[i])
    {
      if i < |hist| {
        assert t[i].forecast == None;
      } else {
        assert t[i].actual == None;
      }
    }
  }

  /** The history rows are consecutive months: row `i` is `i` months after
      the first, so the account has an actual for every month from its first
      to its last. */
  predicate GapFree(hist: seq<QueryRow>)
  {
    forall i :: 0 <= i < |hist| ==> hist[i].month == hist[0].month + i
  }

  /** A gap-free group is already in month order. */
  lemma GapFreeSorted(account: string, g: seq<QueryRow>)
    requires GapFree(g)
    ensures SortBy(g, ByMonth(account)) == g
  {
    forall i, j | 0 <= i < j < |g|
      ensures KeyLe(ByMonth(account)(g[i]), ByMonth(account)(g[j]))
    {
      assert g[i].month == g[0].month + i && g[j].month == g[0].month + j;
    }
    SortBySorted(g, ByMonth(account));
  }

  /** "Last year's same month": for a group with an actual in every month of
      its span and at least one full season, each forecast month takes the
      actual of the month a whole number of seasons earlier, within the last
      season; with a horizon of at most one season (the stage forecasts 6
      months with seasons of 12), that is exactly the month one season earlier. */
  lemma SameMonthLastSeason(account: string, g: seq<QueryRow>, horizon: nat, seasonLen: nat, t: seq<Row>)
    requires GapFree(g) && 0 < seasonLen <= |g|
    requires ComposeAccount(account, g, horizon, seasonLen) == Success(t)
    ensures |t| == |g| + horizon
    ensures forall j :: |g| <= j < |t| ==>
      var i := |g| - seasonLen + (j - |g|) % seasonLen;
      && t[j].forecast == Some(g[i].amount)
      && g[i].month == t[j].month - seasonLen * ((j - |g|) / seasonLen + 1)
    ensures horizon <= seasonLen ==> forall j :: |g| <= j < |t| ==>
      t[j].forecast == Some(g[j - seasonLen].amount) && g[j - seasonLen].month == t[j].month - seasonLen
  {
    assert SeasonalNaive(Amounts(g), horizon, seasonLen).Success?
      && IsAccountTable(t, account, g, SeasonalNaive(Amounts(g), horizon, seasonLen).value)
    by {
      GapFreeSorted(account, g);
      ComposeAccountTable(account, g, horizon, seasonLen, t);
    }
    ForecastSameMonth(t, account, g, horizon, seasonLen);
  }

  /** The month-level reading of a table built from the seasonal-naive
      forecast of a gap-free history. */
  lemma ForecastSameMonth(t: seq<Row>, account: string, g: seq<QueryRow>, horizon: nat, seasonLen: nat)
    requires GapFree(g) && 0 < seasonLen <= |g|
    requires SeasonalNaive(Amounts(g), horizon, seasonLen).Success?
    requires IsAccountTable(t, account, g, SeasonalNaive(Amounts(g), horizon, seasonLen).value)
    ensures |t| == |g| + horizon
    ensures forall j :: |g| <= j < |t| ==>
      var i := |g| - seasonLen + (j - |g|) % seasonLen;
      && t[j].forecast == Some(g[i].amount)
      && g[i].month == t[j].month - seasonLen * ((j - |g|) / seasonLen + 1)
    ensures horizon <= seasonLen ==> forall j :: |g| <= j < |t| ==>
      t[j].forecast == Some(g[j - seasonLen].amount) && g[j - seasonLen].month == t[j].month - seasonLen
  {
    var fc := SeasonalNaive(Amounts(g), horizon, seasonLen).value;
    assert |fc| == horizon && forall k :: 0 <= k < |fc| ==> fc[k] == g[|g| - seasonLen + k % seasonLen].amount;
    TableSameMonth(t, account, g, fc, seasonLen);
  }

  /** The month-level reading of an account table whose history is gap-free
      and whose forecast cycles through the last season. */
  lemma TableSameMonth(t: seq<Row>, account: string, hist: seq<QueryRow>, fc: seq<real>, seasonLen: nat)
    requires IsAccountTable(t, account, hist, fc) && GapFree(hist)
    requires 0 < seasonLen <= |hist|
    requires forall k :: 0 <= k < |fc| ==> fc[k] == hist[|hist| - seasonLen + k % seasonLen].amount
    ensures forall j :: |hist| <= j < |t| ==>
      var i := |hist| - seasonLen + (j - |hist|) % seasonLen;
      && t[j].forecast == Some(hist[i].amount)
      && hist[i].month == t[j].month - seasonLen * ((j - |hist|) / seasonLen + 1)
    ensures |fc| <= seasonLen ==> forall j :: |hist| <= j < |t| ==>
      t[j].forecast == Some(hist[j - seasonLen].amount) && hist[j - seasonLen].month == t[j].month - seasonLen
  {
    forall j | |hist| <= j < |t|
      ensures var i := |hist| - seasonLen + (j - |hist|) % seasonLen;
        && t[j].forecast == Some(hist[i].amount)
        && hist[i].month == t[j].month - seasonLen * ((j - |hist|) / seasonLen + 1)
      ensures |fc| <= seasonLen ==>
        t[j].forecast == Some(hist[j - seasonLen].amount) && hist[j - seasonLen].month == t[j].month - seasonLen
    {
      var q := j - |hist|;
      var i := |hist| - seasonLen + q % seasonLen;
      var first := hist[0].month;
      assert t[j].month == first + |hist| + q by {
        assert hist[|hist| - 1].month == first + |hist| - 1;
      }
      assert hist[i].month == first + i;
      assert t[j].forecast == Some(hist[i].amount);
      SeasonLag(q, seasonLen, first + |hist|);
      if |fc| <= seasonLen {
        assert q < seasonLen;
        SeasonLagWithin(q, seasonLen);
      }
    }
  }

  /** Position `q` of the tiled season, in month `m + q`, takes the value of
      month `m - seasonLen + q % seasonLen`: `seasonLen * (q / seasonLen + 1)`
      months earlier. */
  lemma SeasonLag(q: int, seasonLen: int, m: int)
    requires q >= 0 && seasonLen > 0
    ensures m - seasonLen + q % seasonLen == m + q - seasonLen * (q / seasonLen + 1)
  {
    assert q == seasonLen * (q / seasonLen) + q % seasonLen;
    assert seasonLen * (q / seasonLen + 1) == seasonLen * (q / seasonLen) + seasonLen;
  }

  /** Within one season the position is its own remainder. */
  lemma SeasonLagWithin(q: int, seasonLen: int)
    requires 0 <= q < seasonLen
    ensures q / seasonLen == 0 && q % seasonLen == q
  {
  }

  /** With a gap inside its last season, the first forecast month is not
      forecast from the month one season earlier but from an earlier month:
      the forecast is positional, not calendar-aligned. */
  lemma GapShiftsSeason(account: string, hist: seq<QueryRow>, horizon: nat, seasonLen: nat)
    requires forall i, j :: 0 <= i < j < |hist| ==> hist[i].month <= hist[j].month
    requires 0 < seasonLen <= |hist| && horizon > 0
    requires hist[|hist| - 1].month - hist[|hist| - seasonLen].month >= seasonLen
    ensures ComposeSorted(account, hist, horizon, seasonLen).Success?
    ensures var t := ComposeSorted(account, hist, horizon, seasonLen).value;
      && |t| == |hist| + horizon
      && t[|hist|].forecast == Some(hist[|hist| - seasonLen].amount)
      && hist[|hist| - seasonLen].month < t[|hist|].month - seasonLen
  {
  }

  /** Months 0, 1 and 3 to 12 of one account, month 2 missing; each actual
      equals its month index. */
  function GapHistory(account: string): (h: seq<QueryRow>)
    ensures |h| == 12
  {
    seq(12, i => QueryRow(GapMonth(i), account, GapMonth(i) as real))
  }

  /** The month of the gap history's `i`-th row. */
  function GapMonth(i: int): int
  {
    if i <= 1 then i else i + 1
  }

  /** The gap case on a concrete group: month 13 is forecast as 0.0, month 0's
      actual, although month 1, one season earlier, has the actual 1.0. */
  lemma GapExample(account: string)
    ensures var h := GapHistory(account);
      var t := ComposeAccount(account, h, 1, 12).value;
      && ComposeAccount(account, h, 1, 12).Success?
      && |t| == 13
      && t[12].month == 13 && t[12].forecast == Some(0.0)
      && h[1] == QueryRow(13 - 12, account, 1.0)
  {
    var h := GapHistory(account);
    assert |h| == 12 && h[0] == QueryRow(0, account, 0.0) && h[1] == QueryRow(1, account, 1.0) && h[11].month == 12
      && (forall i, j :: 0 <= i < j < |h| ==> h[i].month <= h[j].month)
      && SortBy(h, ByMonth(account)) == h
    by {
      GapHistorySorted(account, h);
    }
    GapComposed(account, h);
  }

  /** The gap example's reasoning on the facts it needs about the group. */
  lemma {:induction false} GapComposed(account: string, h: seq<QueryRow>)
    requires |h| == 12 && h[0] == QueryRow(0, account, 0.0) && h[1] == QueryRow(1, account, 1.0) && h[11].month == 12
    requires forall i, j :: 0 <= i < j < |h| ==> h[i].month <= h[j].month
    requires SortBy(h, ByMonth(account)) == h
    ensures var t := ComposeAccount(account, h, 1, 12).value;
      && ComposeAccount(account, h, 1, 12).Success?
      && |t| == 13
      && t[12].month == 13 && t[12].forecast == Some(0.0)
      && h[1] == QueryRow(13 - 12, account, 1.0)
  {
    GapShiftsSeason(account, h, 1, 12);
    assert ComposeAccount(account, h, 1, 12) == ComposeSorted(account, h, 1, 12);
  }

  /** The gap history is in month order, so the loop body keeps its order. */
  lemma GapHistorySorted(account: string, h: seq<QueryRow>)
    requires h == GapHistory(account)
    ensures forall i, j :: 0 <= i < j < |h| ==> h[i].month <= h[j].month
    ensures SortBy(h, ByMonth(account)) == h
  {
    forall i, j | 0 <= i < j < |h|
      ensures KeyLe(ByMonth(account)(h[i]), ByMonth(account)(h[j]))
    {
      assert h[i].month == GapMonth(i) && h[j].month == GapMonth(j);
    }
    SortBySorted(h, ByMonth(account));
  }
}
