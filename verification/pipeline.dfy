/** The forecasting and variance stage end to end: the query rows sorted and
    grouped by account, one combined table per account, the tables
    concatenated, and the Summary sheet's per-account window. */
module Pipeline {
  import opened Wrappers
  import opened Ordering
  import opened Forecast
  import opened Variance
  import opened Grouping
  import opened Loop

  /** Months forecast per account. */
  const HorizonMonths: nat := 6
  /** Months per seasonal cycle. */
  const SeasonLength: nat := 12
  /** History months each account keeps in the Summary sheet besides its forecast. */
  const SummaryHistoryMonths: nat := 3

  function QueryKey(q: QueryRow): Key { Key(q.account, q.month) }
  function QueryAccount(q: QueryRow): string { q.account }

  /** The body of the per-account loop with the stage's horizon and season
      length. It raises exactly for an empty group (at the date range), a zero
      season length (the division), or a full season of history with a zero
      horizon (`pd.concat` of no copies); otherwise its table carries
      the group's account, is in month order, has a row per history month and
      per forecast month, no row with both amounts, and every forecast month
      after every history month. */
  function Iteration(horizon: nat, seasonLen: nat): (body: Body)
    ensures forall g: Group<QueryRow> :: body(g).Failure? <==>
      |g.rows| == 0 || seasonLen == 0 || (|g.rows| >= seasonLen && horizon == 0)
    ensures forall g: Group<QueryRow> :: body(g).Failure? ==>
      body(g).error == if |g.rows| == 0 then NaTStart else if seasonLen == 0 then ZeroSeasonLength else NoObjectsToConcatenate
    ensures forall g: Group<QueryRow> :: body(g).Success? ==>
      && Tagged(body(g).value, g.account)
      && SortedBy(body(g).value, RowKey)
      && |body(g).value| == |g.rows| + horizon
      && AllUnmatched(body(g).value)
      && (forall i, j :: 0 <= i < |g.rows| <= j < |body(g).value| ==> body(g).value[i].month < body(g).value[j].month)
  {
    forall g: Group<QueryRow> | ComposeAccount(g.account, g.rows, horizon, seasonLen).Success?
      ensures var t := ComposeAccount(g.account, g.rows, horizon, seasonLen).value;
        && Tagged(t, g.account) && SortedBy(t, RowKey) && |t| == |g.rows| + horizon && AllUnmatched(t)
        && forall i, j :: 0 <= i < |g.rows| <= j < |t| ==> t[i].month < t[j].month
    {
      ComposedTable(g.account, g.rows, horizon, seasonLen, ComposeAccount(g.account, g.rows, horizon, seasonLen).value);
    }
    var body := (g: Group<QueryRow>) => ComposeAccount(g.account, g.rows, horizon, seasonLen);
    body
  }

  /** The combined table of all accounts (the CSV and the "Forecast+Variance"
      sheet), or the exception the stage raises. */
  function ForecastAndVariance(query: seq<QueryRow>, horizon: nat, seasonLen: nat)
    : (r: Result<seq<Row>, ForecastError>)
    ensures |query| == 0 ==> r == Failure(NoObjectsToConcatenate)
    ensures |query| > 0 && seasonLen == 0 ==> r == Failure(ZeroSeasonLength)
    ensures horizon > 0 && seasonLen > 0 ==> (r.Success? <==> |query| > 0)
  {
    var df := SortBy(query, QueryKey);
    var groups := GroupBy(df, QueryAccount);
    var composed := Concat(groups, Iteration(horizon, seasonLen));
    GroupsOfRows(df, groups);
    if composed.Failure? then composed
    else if |groups| == 0 then Failure(NoObjectsToConcatenate)
    else composed
  }

  /** Rows make at least one group, no rows make none, and every group has rows. */
  lemma GroupsOfRows(df: seq<QueryRow>, groups: seq<Group<QueryRow>>)
    requires IsGrouping(groups, df, QueryAccount)
    ensures |groups| > 0 <==> |df| > 0
    ensures forall k :: 0 <= k < |groups| ==> |groups[k].rows| > 0
  {
    if |df| > 0 {
      assert QueryAccount(df[0]) in Accounts(df, QueryAccount);
    }
    if |groups| > 0 {
      assert groups[0].account in GroupAccounts(groups);
    }
  }

  /** The Summary sheet: the table sorted by (account, month), then each
      account's last `SummaryHistoryMonths + horizon` rows. The sheet is in
      (account, month) order, draws its rows from the table, and holds for
      every account exactly the last rows of that account in key order. */
  function Summary(result: seq<Row>, horizon: nat): (s: seq<Row>)
    ensures SortedBy(s, RowKey)
    ensures multiset(s) <= multiset(result)
    ensures forall a ::
      Filter(s, RowAccount, a) == LastN(Filter(SortBy(result, RowKey), RowAccount, a), SummaryHistoryMonths + horizon)
  {
    var sorted := SortBy(result, RowKey);
    var n := SummaryHistoryMonths + horizon;
    TailWindowSorted(sorted, RowAccount, n, RowKey);
    assert forall a :: Filter(TailWindow(sorted, RowAccount, n), RowAccount, a) == LastN(Filter(sorted, RowAccount, a), n) by {
      forall a {
        TailWindowPerAccount(sorted, RowAccount, n, a);
      }
    }
    TailWindow(sorted, RowAccount, n)
  }

  /** Both sheets of the report, or the exception the stage raises. */
  datatype Report = Report(detail: seq<Row>, summary: seq<Row>)

  function MakeReport(query: seq<QueryRow>): (r: Result<Report, ForecastError>)
    ensures r.Success? <==> |query| > 0
  {
    var result := ForecastAndVariance(query, HorizonMonths, SeasonLength);
    if result.Failure? then Failure(result.error)
    else Success(Report(result.value, Summary(result.value, HorizonMonths)))
  }

  /** The stage's loop body yields tables of its group's account, in order,
      with no month holding both amounts. */
  lemma IterationTables(gs: seq<Group<QueryRow>>, horizon: nat, seasonLen: nat)
    ensures TablesTagged(gs, Iteration(horizon, seasonLen))
    ensures forall k :: 0 <= k < |gs| && Iteration(horizon, seasonLen)(gs[k]).Success? ==>
      AllUnmatched(Iteration(horizon, seasonLen)(gs[k]).value)
  {
    forall k | 0 <= k < |gs| && Iteration(horizon, seasonLen)(gs[k]).Success?
      ensures Tagged(Iteration(horizon, seasonLen)(gs[k]).value, gs[k].account)
      ensures SortedBy(Iteration(horizon, seasonLen)(gs[k]).value, RowKey)
      ensures AllUnmatched(Iteration(horizon, seasonLen)(gs[k]).value)
    {
      var t := ComposeAccount(gs[k].account, gs[k].rows, horizon, seasonLen).value;
      ComposedTable(gs[k].account, gs[k].rows, horizon, seasonLen, t);
    }
  }

  /** A successful stage is the per-account loop over the groups of the sorted query. */
  lemma ForecastAndVarianceLoop(query: seq<QueryRow>, horizon: nat, seasonLen: nat)
    requires ForecastAndVariance(query, horizon, seasonLen).Success?
    ensures var groups := GroupBy(SortBy(query, QueryKey), QueryAccount);
      && Concat(groups, Iteration(horizon, seasonLen)).Success?
      && ForecastAndVariance(query, horizon, seasonLen).value == Concat(groups, Iteration(horizon, seasonLen)).value
  {
  }

  /** The stage raises the exception of the first account whose iteration raises. */
  lemma ForecastAndVarianceFailure(query: seq<QueryRow>, horizon: nat, seasonLen: nat, k: nat)
    requires var groups := GroupBy(SortBy(query, QueryKey), QueryAccount);
      k < |groups| && FirstFailure(groups, Iteration(horizon, seasonLen), k)
    ensures var g := GroupBy(SortBy(query, QueryKey), QueryAccount)[k];
      ForecastAndVariance(query, horizon, seasonLen) == ComposeAccount(g.account, g.rows, horizon, seasonLen)
  {
    var groups := GroupBy(SortBy(query, QueryKey), QueryAccount);
    ConcatFirstFailure(groups, Iteration(horizon, seasonLen), k);
  }

  /** The combined table is in (account, month) order, so the Summary sheet's
      re-sort leaves it unchanged. */
  lemma ResultSorted(query: seq<QueryRow>, horizon: nat, seasonLen: nat)
    requires |query| > 0 && horizon > 0 && seasonLen > 0
    ensures SortedBy(ForecastAndVariance(query, horizon, seasonLen).value, RowKey)
    ensures var result := ForecastAndVariance(query, horizon, seasonLen).value;
      SortBy(result, RowKey) == result
  {
    var groups := GroupBy(SortBy(query, QueryKey), QueryAccount);
    ForecastAndVarianceLoop(query, horizon, seasonLen);
    IterationTables(groups, horizon, seasonLen);
    ConcatSorted(groups, Iteration(horizon, seasonLen));
    SortBySorted(ForecastAndVariance(query, horizon, seasonLen).value, RowKey);
  }

  /** The loop over a grouping of `df`: an account's rows in the concatenation
      are that account's table, or nothing when `df` has no rows for it. */
  lemma LoopPerAccount(df: seq<QueryRow>, gs: seq<Group<QueryRow>>, horizon: nat, seasonLen: nat,
                       rows: seq<Row>, a: string)
    requires IsGrouping(gs, df, QueryAccount)
    requires Concat(gs, Iteration(horizon, seasonLen)) == Success(rows)
    ensures var g := Filter(df, QueryAccount, a);
      && (|g| == 0 ==> Filter(rows, RowAccount, a) == [])
      && (|g| > 0 ==> ComposeAccount(a, g, horizon, seasonLen) == Success(Filter(rows, RowAccount, a)))
  {
    IterationTables(gs, horizon, seasonLen);
    assert GroupAccounts(gs) == Accounts(df, QueryAccount);
    if a in Accounts(df, QueryAccount) {
      var k :| 0 <= k < |gs| && gs[k].account == a;
      assert gs[k].rows == Filter(df, QueryAccount, a);
      ConcatAccount(gs, Iteration(horizon, seasonLen), k);
    } else {
      ConcatAbsent(gs, Iteration(horizon, seasonLen), a);
      FilterAbsent(df, QueryAccount, a);
    }
  }

  /** An account's rows in the combined table are exactly its own table: its
      query rows in month order with their actuals, then its forecast; an
      account the query does not have contributes nothing. */
  lemma ResultPerAccount(query: seq<QueryRow>, horizon: nat, seasonLen: nat, a: string)
    requires |query| > 0 && horizon > 0 && seasonLen > 0
    ensures var rows := Filter(ForecastAndVariance(query, horizon, seasonLen).value, RowAccount, a);
      var g := Filter(SortBy(query, QueryKey), QueryAccount, a);
      && (|g| == 0 ==> rows == [])
      && (|g| > 0 ==> ComposeAccount(a, g, horizon, seasonLen) == Success(rows))
  {
    var df := SortBy(query, QueryKey);
    var groups := GroupBy(df, QueryAccount);
    ForecastAndVarianceLoop(query, horizon, seasonLen);
    LoopPerAccount(df, groups, horizon, seasonLen, ForecastAndVariance(query, horizon, seasonLen).value, a);
  }

  /** The whole combined table: `actual_amount` and `forecast_amount` are
      never both present, so `variance` and `variance_pct` are NaN throughout. */
  lemma ResultNoVariance(query: seq<QueryRow>, horizon: nat, seasonLen: nat)
    requires |query| > 0 && horizon > 0 && seasonLen > 0
    ensures var result := ForecastAndVariance(query, horizon, seasonLen).value;
      forall i :: 0 <= i < |result| ==>
      && (result[i].actual.Some? ==> result[i].forecast.None?)
      && result[i].variance.None? && result[i].variancePct.None?
  {
    var groups := GroupBy(SortBy(query, QueryKey), QueryAccount);
    ForecastAndVarianceLoop(query, horizon, seasonLen);
    IterationTables(groups, horizon, seasonLen);
    ConcatUnmatched(groups, Iteration(horizon, seasonLen));
  }

  /** The Summary sheet keeps the combined table's order (accounts contiguous
      and ascending, months ascending within each), and holds for each account
      exactly the last `SummaryHistoryMonths + horizon` of that account's rows. */
  lemma SummaryPerAccount(query: seq<QueryRow>, horizon: nat, seasonLen: nat, a: string)
    requires |query| > 0 && horizon > 0 && seasonLen > 0
    ensures var result := ForecastAndVariance(query, horizon, seasonLen).value;
      && SortedBy(Summary(result, horizon), RowKey)
      && Filter(Summary(result, horizon), RowAccount, a)
         == LastN(Filter(result, RowAccount, a), SummaryHistoryMonths + horizon)
  {
    var result := ForecastAndVariance(query, horizon, seasonLen).value;
    ResultSorted(query, horizon, seasonLen);
    TailWindowPerAccount(result, RowAccount, SummaryHistoryMonths + horizon, a);
    TailWindowSorted(result, RowAccount, SummaryHistoryMonths + horizon, RowKey);
  }

  /** Each account's part of the combined table has one row per history
      month and one per forecast month. */
  lemma ResultAccountLength(query: seq<QueryRow>, horizon: nat, seasonLen: nat, a: string)
    requires |query| > 0 && horizon > 0 && seasonLen > 0
    ensures var result := ForecastAndVariance(query, horizon, seasonLen).value;
      var g := Filter(SortBy(query, QueryKey), QueryAccount, a);
      |Filter(result, RowAccount, a)| == if |g| == 0 then 0 else |g| + horizon
  {
    var result := ForecastAndVariance(query, horizon, seasonLen).value;
    var df := SortBy(query, QueryKey);
    var g := Filter(df, QueryAccount, a);
    ForecastAndVarianceLoop(query, horizon, seasonLen);
    LoopPerAccount(df, GroupBy(df, QueryAccount), horizon, seasonLen, result, a);
    if |g| > 0 {
      ComposedTable(a, g, horizon, seasonLen, Filter(result, RowAccount, a));
    }
  }

  /** The last `k + h` rows of an account table with `m` history rows and `h`
      forecast rows (no rows at all when the account has no history). */
  lemma KeptOfTable<T>(t: seq<T>, kept: seq<T>, m: nat, k: nat, h: nat)
    requires |t| == if m == 0 then 0 else m + h
    requires kept == LastN(t, k + h)
    ensures m > 0 ==> |t| == m + h
    ensures m >= k ==> |t| >= m && kept == t[m - k..]
    ensures m < k ==> kept == t
  {
  }

  /** For an account with at least `SummaryHistoryMonths` months of history the
      Summary sheet holds its last `SummaryHistoryMonths` history rows followed
      by all of its forecast rows; with fewer it holds the whole table. */
  lemma SummaryKeepsForecast(query: seq<QueryRow>, horizon: nat, seasonLen: nat, a: string)
    requires |query| > 0 && horizon > 0 && seasonLen > 0
    ensures var result := ForecastAndVariance(query, horizon, seasonLen).value;
      var g := Filter(SortBy(query, QueryKey), QueryAccount, a);
      var t := Filter(result, RowAccount, a);
      var kept := Filter(Summary(result, horizon), RowAccount, a);
      && (|g| > 0 ==> |t| == |g| + horizon)
      && (|g| >= SummaryHistoryMonths ==> |t| >= |g| && kept == t[|g| - SummaryHistoryMonths..])
      && (|g| < SummaryHistoryMonths ==> kept == t)
  {
    var result := ForecastAndVariance(query, horizon, seasonLen).value;
    var g := Filter(SortBy(query, QueryKey), QueryAccount, a);
    var t := Filter(result, RowAccount, a);
    var kept := Filter(Summary(result, horizon), RowAccount, a);
    ResultAccountLength(query, horizon, seasonLen, a);
    SummaryPerAccount(query, horizon, seasonLen, a);
    KeptOfTable(t, kept, |g|, SummaryHistoryMonths, horizon);
  }
}
