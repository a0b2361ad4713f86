/** Calendar months as used by the forecasting stage. A pandas Timestamp is
    reduced to its (year, month, day); the month index `year * 12 + month - 1`
    numbers calendar months consecutively. */
module Calendar {

  datatype Date = Date(year: int, month: int, day: int)

  predicate Valid(d: Date)
  {
    1 <= d.month <= 12 && 1 <= d.day <= 31
  }

  function MonthIndex(d: Date): int
  {
    d.year * 12 + d.month - 1
  }

  /** The first day of the month with index `i`. */
  function MonthStart(i: int): (d: Date)
    ensures Valid(d) && d.day == 1
    ensures MonthIndex(d) == i
  {
    Date(i / 12, i % 12 + 1, 1)
  }

  /** `d + pd.offsets.MonthBegin(1)`: the first day of the following month,
      whatever the day of `d`. */
  function NextMonthBegin(d: Date): (r: Date)
    requires Valid(d)
    ensures Valid(r) && r.day == 1
    ensures MonthIndex(r) == MonthIndex(d) + 1
  {
    if d.month == 12 then Date(d.year + 1, 1, 1) else Date(d.year, d.month + 1, 1)
  }

  /** `pd.date_range(start, periods=n, freq="MS")`: the first `n` month starts
      on or after `start`. */
  function MonthStartRange(start: Date, periods: nat): (r: seq<Date>)
    requires Valid(start)
    ensures |r| == periods
    ensures forall i :: 0 <= i < periods ==> Valid(r[i]) && r[i].day == 1
    ensures forall i :: 0 <= i < periods ==>
      MonthIndex(r[i]) == MonthIndex(start) + i + (if start.day == 1 then 0 else 1)
    decreases periods, if start.day == 1 then 0 else 1
  {
    if periods == 0 then []
    else if start.day != 1 then MonthStartRange(NextMonthBegin(start), periods)
    else [start] + MonthStartRange(NextMonthBegin(start), periods - 1)
  }

  /** The forecast months of one account: `horizon` month starts beginning the
      month after `lastMonth`. */
  function FutureMonthStarts(lastMonth: Date, horizon: nat): (r: seq<Date>)
    requires Valid(lastMonth)
    ensures |r| == horizon
    ensures forall i :: 0 <= i < horizon ==> Valid(r[i]) && r[i].day == 1
    ensures forall i :: 0 <= i < horizon ==> MonthIndex(r[i]) == MonthIndex(lastMonth) + i + 1
  {
    MonthStartRange(NextMonthBegin(lastMonth), horizon)
  }

  /** The same future months as month indices. */
  function FutureMonths(lastMonth: int, horizon: nat): (r: seq<int>)
    ensures |r| == horizon
    ensures forall i :: 0 <= i < horizon ==> r[i] == lastMonth + i + 1
  {
    var starts := FutureMonthStarts(MonthStart(lastMonth), horizon);
    seq(horizon, i requires 0 <= i < horizon => MonthIndex(starts[i]))
  }
}
