/** The seasonal-naive forecast engine (`seasonal_naive_forecast`). Amounts are
    reals; the function is purely positional over the history. */
module Forecast {
  import opened Wrappers

  /** The exceptions of the whole per-account loop body and of the final
      concatenation: the three that `seasonal_naive_forecast` raises, and the
      one `pd.date_range` raises for a NaT start, which comes before the
      forecast in the loop body. */
  datatype ForecastError =
    | ZeroSeasonLength        // `horizon / season_len` with `season_len == 0`
    | NoObjectsToConcatenate  // `pd.concat([])`
    | EmptyHistory            // `history.iloc[-1]` on an empty series
    | NaTStart                // `pd.date_range` from `NaT`, the `max()` of no months

  /** `int(np.ceil(horizon / seasonLen))`: the fewest whole seasons covering the horizon. */
  function SeasonsNeeded(horizon: nat, seasonLen: nat): (reps: nat)
    requires seasonLen > 0
    ensures reps * seasonLen >= horizon
    ensures reps == 0 || (reps - 1) * seasonLen < horizon
  {
    (horizon + seasonLen - 1) / seasonLen
  }

  /** `pd.concat([base] * reps, ignore_index=True)`. */
  function Tile(base: seq<real>, reps: nat): (r: seq<real>)
    ensures |r| == |base| * reps
    ensures forall k :: 0 <= k < |r| && |base| > 0 ==> r[k] == base[k % |base|]
  {
    if reps == 0 then []
    else
      var rest := Tile(base, reps - 1);
      assert |base| * reps == |base| + |base| * (reps - 1);
      if |base| == 0 then base + rest
      else
        forall k | |base| <= k < |base| + |rest| {
          ModShift(k, |base|);
        }
        base + rest
  }

  lemma ModShift(k: int, n: int)
    requires 0 < n <= k
    ensures (k - n) % n == k % n
  {
    var q, m := (k - n) / n, (k - n) % n;
    var q', m' := k / n, k % n;
    var d := q' - q - 1;
    assert d * n == m - m' by {
      assert k - n == q * n + m && k == q' * n + m';
    }
    MulBound(d, n);
  }

  lemma MulBound(d: int, n: int)
    requires n > 0
    ensures d >= 1 ==> d * n >= n
    ensures d <= -1 ==> d * n <= -n
  {
  }

  /** `seasonal_naive_forecast(history, horizon, season_len)`. With at least one
      full season of history, entry `k` repeats the value `seasonLen` months
      before it, cycling through the last season; with less, every entry is the
      last observed value. */
  function SeasonalNaive(history: seq<real>, horizon: nat, seasonLen: nat): (r: Result<seq<real>, ForecastError>)
    ensures r.Failure? <==> seasonLen == 0 || |history| == 0 || (|history| >= seasonLen && horizon == 0)
    ensures seasonLen == 0 ==> r == Failure(ZeroSeasonLength)
    ensures 0 < seasonLen <= |history| && horizon == 0 ==> r == Failure(NoObjectsToConcatenate)
    ensures 0 == |history| < seasonLen ==> r == Failure(EmptyHistory)
    ensures r.Success? ==> |r.value| == horizon
    ensures r.Success? && |history| >= seasonLen ==>
      forall k :: 0 <= k < horizon ==> r.value[k] == history[|history| - seasonLen + k % seasonLen]
    ensures r.Success? && |history| < seasonLen ==>
      forall k :: 0 <= k < horizon ==> r.value[k] == history[|history| - 1]
  {
    if |history| >= seasonLen then
      if seasonLen == 0 then Failure(ZeroSeasonLength)
      else
        var base := history[|history| - seasonLen..];
        var reps := SeasonsNeeded(horizon, seasonLen);
        if reps == 0 then Failure(NoObjectsToConcatenate)
        else Success(Tile(base, reps)[..horizon])
    else if |history| == 0 then Failure(EmptyHistory)
    else Success(seq(horizon, _ => history[|history| - 1]))
  }

  /** Only the last season of history influences the forecast. */
  lemma LastSeasonOnly(h1: seq<real>, h2: seq<real>, horizon: nat, seasonLen: nat)
    requires 0 < seasonLen <= |h1| && seasonLen <= |h2|
    requires h1[|h1| - seasonLen..] == h2[|h2| - seasonLen..]
    ensures SeasonalNaive(h1, horizon, seasonLen) == SeasonalNaive(h2, horizon, seasonLen)
  {
    var r1 := SeasonalNaive(h1, horizon, seasonLen);
    var r2 := SeasonalNaive(h2, horizon, seasonLen);
    if r1.Success? {
      forall k | 0 <= k < horizon
        ensures r1.value[k] == r2.value[k]
      {
        assert h1[|h1| - seasonLen..][k % seasonLen] == h2[|h2| - seasonLen..][k % seasonLen];
      }
    }
  }

  /** With a full season of history the forecast is periodic: every entry
      equals the one a season later. */
  lemma ForecastPeriodic(history: seq<real>, horizon: nat, seasonLen: nat)
    requires 0 < seasonLen <= |history|
    requires SeasonalNaive(history, horizon, seasonLen).Success?
    ensures var fc := SeasonalNaive(history, horizon, seasonLen).value;
      forall k :: 0 <= k && k + seasonLen < horizon ==> fc[k + seasonLen] == fc[k]
  {
    var fc := SeasonalNaive(history, horizon, seasonLen).value;
    forall k | 0 <= k && k + seasonLen < horizon
      ensures fc[k + seasonLen] == fc[k]
    {
      ModShift(k + seasonLen, seasonLen);
    }
  }

  /** A forecast of a full seasonal cycle reproduces that cycle: `horizon`
      entries of history, shifted one season forward. */
  lemma OneSeasonAhead(history: seq<real>, horizon: nat, seasonLen: nat)
    requires 0 < horizon <= seasonLen <= |history|
    ensures SeasonalNaive(history, horizon, seasonLen)
         == Success(history[|history| - seasonLen..|history| - seasonLen + horizon])
  {
    var fc := SeasonalNaive(history, horizon, seasonLen).value;
    var start := |history| - seasonLen;
    forall k | 0 <= k < horizon
      ensures fc[k] == history[start + k]
    {
      SmallRemainder(k, seasonLen);
    }
    assert fc == history[start..start + horizon];
  }

  lemma SmallRemainder(k: nat, n: nat)
    requires k < n
    ensures k % n == k
  {
  }
}
