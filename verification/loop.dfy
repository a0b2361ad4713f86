/** The per-account loop of the stage, for any loop body: each group's table
    appended in group order and the tables concatenated, the first group that
    raises ending the loop with its exception. The facts here hold for every
    body whose tables carry their group's account. */
module Loop {
  import opened Wrappers
  import opened Ordering
  import opened Forecast
  import opened Variance
  import opened Grouping

  /** One iteration: a group of query rows to its table, or an exception. */
  type Body = Group<QueryRow> -> Result<seq<Row>, ForecastError>

  /** Every table the body produces for these groups carries its group's
      account and is in (account, month) order. */
  predicate TablesTagged(gs: seq<Group<QueryRow>>, body: Body)
  {
    forall k :: 0 <= k < |gs| && body(gs[k]).Success? ==>
      Tagged(body(gs[k]).value, gs[k].account) && SortedBy(body(gs[k]).value, RowKey)
  }

  /** The tables of the loop `for account, g in groups`, concatenated. No
      groups give the empty table here; `pd.concat` of no tables raises, and
      `Pipeline.ForecastAndVariance` raises that error for an empty query. */
  function Concat(gs: seq<Group<QueryRow>>, body: Body): (r: Result<seq<Row>, ForecastError>)
    ensures r.Success? <==> forall k :: 0 <= k < |gs| ==> body(gs[k]).Success?
  {
    if |gs| == 0 then Success([])
    else
      var first := body(gs[0]);
      if first.Failure? then Failure(first.error)
      else
        var rest := Concat(gs[1..], body);
        SucceedsCons(gs, body);
        if rest.Failure? then rest else Success(first.value + rest.value)
  }

  lemma SucceedsCons(gs: seq<Group<QueryRow>>, body: Body)
    requires |gs| > 0
    ensures (forall k :: 0 <= k < |gs| ==> body(gs[k]).Success?)
        <==> body(gs[0]).Success? && forall k :: 0 <= k < |gs[1..]| ==> body(gs[1..][k]).Success?
  {
    if body(gs[0]).Success? && forall k :: 0 <= k < |gs[1..]| ==> body(gs[1..][k]).Success? {
      forall k | 1 <= k < |gs|
        ensures body(gs[k]).Success?
      {
        assert gs[k] == gs[1..][k - 1];
      }
    }
  }

  /** Group `k` is the first whose iteration raises. */
  predicate FirstFailure(gs: seq<Group<QueryRow>>, body: Body, k: nat)
    requires k < |gs|
  {
    && body(gs[k]).Failure?
    && forall j :: 0 <= j < k ==> body(gs[j]).Success?
  }

  /** The loop raises the exception of the first group that raises. */
  lemma {:induction false} ConcatFirstFailure(gs: seq<Group<QueryRow>>, body: Body, k: nat)
    requires k < |gs| && FirstFailure(gs, body, k)
    ensures Concat(gs, body) == Failure(body(gs[k]).error)
  {
    if k > 0 {
      forall j | 0 <= j < k - 1
        ensures body(gs[1..][j]).Success?
      {
        assert gs[1..][j] == gs[j + 1];
      }
      assert gs[1..][k - 1] == gs[k];
      ConcatFirstFailure(gs[1..], body, k - 1);
    }
  }

  /** A successful loop is the first group's table followed by the rest's. */
  lemma ConcatCons(gs: seq<Group<QueryRow>>, body: Body)
    requires |gs| > 0 && Concat(gs, body).Success?
    ensures body(gs[0]).Success? && Concat(gs[1..], body).Success?
    ensures Concat(gs, body).value == body(gs[0]).value + Concat(gs[1..], body).value
  {
  }

  lemma TablesTaggedTail(gs: seq<Group<QueryRow>>, body: Body)
    requires |gs| > 0 && Ascending(gs) && TablesTagged(gs, body)
    ensures Ascending(gs[1..]) && TablesTagged(gs[1..], body)
  {
    forall k | 0 <= k < |gs[1..]|
      ensures gs[1..][k] == gs[k + 1]
    {
    }
  }

  /** Concatenated tables of ascending accounts are in (account, month) order,
      and every row belongs to one of the groups. */
  lemma {:induction false} ConcatSorted(gs: seq<Group<QueryRow>>, body: Body)
    requires Ascending(gs) && TablesTagged(gs, body)
    requires Concat(gs, body).Success?
    ensures SortedBy(Concat(gs, body).value, RowKey)
    ensures var rows := Concat(gs, body).value;
      forall i :: 0 <= i < |rows| ==> rows[i].account in GroupAccounts(gs)
  {
    if |gs| > 0 {
      ConcatCons(gs, body);
      TablesTaggedTail(gs, body);
      var t := body(gs[0]).value;
      var rest := Concat(gs[1..], body).value;
      ConcatSorted(gs[1..], body);
      TablesAscend(gs, t, rest);
      SortedConcat(t, rest, RowKey);
    }
  }

  /** The first group's table lies below every later group's rows, and all rows
      of the concatenation carry one of the groups' accounts. */
  lemma TablesAscend(gs: seq<Group<QueryRow>>, t: seq<Row>, rest: seq<Row>)
    requires |gs| > 0 && Ascending(gs)
    requires Tagged(t, gs[0].account)
    requires forall i :: 0 <= i < |rest| ==> rest[i].account in GroupAccounts(gs[1..])
    ensures forall i, j :: 0 <= i < |t| && 0 <= j < |rest| ==> KeyLe(RowKey(t[i]), RowKey(rest[j]))
    ensures forall i :: 0 <= i < |t + rest| ==> (t + rest)[i].account in GroupAccounts(gs)
  {
    forall j | 0 <= j < |rest|
      ensures StrLt(gs[0].account, rest[j].account) && rest[j].account in GroupAccounts(gs)
    {
      var k :| 0 <= k < |gs[1..]| && gs[1..][k].account == rest[j].account;
      assert gs[1..][k] == gs[k + 1];
    }
    assert gs[0].account in GroupAccounts(gs);
    forall i | 0 <= i < |t + rest|
      ensures (t + rest)[i].account in GroupAccounts(gs)
    {
      if i >= |t| {
        assert (t + rest)[i] == rest[i - |t|];
      }
    }
  }

  /** An account no group has contributes no rows to the concatenation. */
  lemma {:induction false} ConcatAbsent(gs: seq<Group<QueryRow>>, body: Body, a: string)
    requires TablesTagged(gs, body) && Concat(gs, body).Success?
    requires a !in GroupAccounts(gs)
    ensures Filter(Concat(gs, body).value, RowAccount, a) == []
  {
    if |gs| > 0 {
      ConcatCons(gs, body);
      assert gs == [gs[0]] + gs[1..];
      GroupsCons(gs[0], gs[1..]);
      forall k | 0 <= k < |gs[1..]|
        ensures gs[1..][k] == gs[k + 1]
      {
      }
      var t := body(gs[0]).value;
      var rest := Concat(gs[1..], body).value;
      ConcatAbsent(gs[1..], body, a);
      FilterAppend(t, rest, RowAccount, a);
      FilterUniform(t, RowAccount, gs[0].account, a);
    }
  }

  /** Each group's rows in the concatenation are exactly its own table. */
  lemma {:induction false} ConcatAccount(gs: seq<Group<QueryRow>>, body: Body, k: nat)
    requires k < |gs| && Ascending(gs) && TablesTagged(gs, body)
    requires Concat(gs, body).Success?
    ensures body(gs[k]).Success?
    ensures Filter(Concat(gs, body).value, RowAccount, gs[k].account) == body(gs[k]).value
  {
    ConcatCons(gs, body);
    TablesTaggedTail(gs, body);
    var t := body(gs[0]).value;
    var rest := Concat(gs[1..], body).value;
    if k == 0 {
      forall l | 0 <= l < |gs[1..]|
        ensures gs[1..][l].account != gs[0].account
      {
        assert gs[1..][l] == gs[l + 1];
      }
      ConcatAbsent(gs[1..], body, gs[0].account);
      ConcatFilter(t, rest, gs[0].account, gs[0].account);
    } else {
      assert gs[k] == gs[1..][k - 1];
      assert StrLt(gs[0].account, gs[k].account);
      ConcatAccount(gs[1..], body, k - 1);
      ConcatFilter(t, rest, gs[0].account, gs[k].account);
    }
  }

  /** The rows of account `a` in one account's table followed by more rows. */
  lemma ConcatFilter(t: seq<Row>, rest: seq<Row>, b: string, a: string)
    requires Tagged(t, b)
    ensures a == b && Filter(rest, RowAccount, a) == [] ==> Filter(t + rest, RowAccount, a) == t
    ensures a != b ==> Filter(t + rest, RowAccount, a) == Filter(rest, RowAccount, a)
  {
    FilterAppend(t, rest, RowAccount, a);
    FilterUniform(t, RowAccount, b, a);
    assert t + [] == t;
    assert [] + Filter(rest, RowAccount, a) == Filter(rest, RowAccount, a);
  }

  /** No row of the concatenation has both amounts when no table has. */
  lemma {:induction false} ConcatUnmatched(gs: seq<Group<QueryRow>>, body: Body)
    requires forall k :: 0 <= k < |gs| && body(gs[k]).Success? ==> AllUnmatched(body(gs[k]).value)
    requires Concat(gs, body).Success?
    ensures AllUnmatched(Concat(gs, body).value)
  {
    if |gs| > 0 {
      ConcatCons(gs, body);
      forall k | 0 <= k < |gs[1..]|
        ensures gs[1..][k] == gs[k + 1]
      {
      }
      ConcatUnmatched(gs[1..], body);
      UnmatchedConcat(body(gs[0]).value, Concat(gs[1..], body).value);
    }
  }

  lemma UnmatchedConcat(t: seq<Row>, rest: seq<Row>)
    requires AllUnmatched(t) && AllUnmatched(rest)
    ensures AllUnmatched(t + rest)
  {
    forall i | 0 <= i < |t + rest|
      ensures Unmatched((t + rest)[i])
    {
      if i >= |t| {
        assert (t + rest)[i] == rest[i - |t|];
      }
    }
  }
}
