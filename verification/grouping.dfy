/** pandas grouping by account: `groupby("account")` iterates over the distinct
    accounts in ascending order, each group keeping its rows' original order;
    `groupby("account").tail(n)` keeps, in the original order, each row that is
    among the last `n` rows of its account. Rows are any type with an account. */
module Grouping {
  import opened Ordering

  /** The rows of `xs` whose account is `a`, in their original order. */
  function Filter<T>(xs: seq<T>, acct: T -> string, a: string): (r: seq<T>)
    ensures forall i :: 0 <= i < |r| ==> acct(r[i]) == a
  {
    if |xs| == 0 then []
    else (if acct(xs[0]) == a then [xs[0]] else []) + Filter(xs[1..], acct, a)
  }

  lemma {:induction false} FilterAppend<T>(xs: seq<T>, ys: seq<T>, acct: T -> string, a: string)
    ensures Filter(xs + ys, acct, a) == Filter(xs, acct, a) + Filter(ys, acct, a)
  {
    if |xs| == 0 {
      assert xs + ys == ys;
    } else {
      var x, rest := xs[0], xs[1..];
      var head := if acct(x) == a then [x] else [];
      assert Filter(xs + ys, acct, a) == head + Filter(rest + ys, acct, a) by {
        assert xs + ys == [x] + (rest + ys);
        FilterCons(x, rest + ys, acct, a);
      }
      assert Filter(xs, acct, a) == head + Filter(rest, acct, a) by {
        assert xs == [x] + rest;
        FilterCons(x, rest, acct, a);
      }
      FilterAppend(rest, ys, acct, a);
      assert head + (Filter(rest, acct, a) + Filter(ys, acct, a))
          == (head + Filter(rest, acct, a)) + Filter(ys, acct, a);
    }
  }

  /** Rows all of account `b` are kept whole when `b` is asked for, and dropped otherwise. */
  lemma {:induction false} FilterUniform<T>(xs: seq<T>, acct: T -> string, b: string, a: string)
    requires forall i :: 0 <= i < |xs| ==> acct(xs[i]) == b
    ensures Filter(xs, acct, a) == if a == b then xs else []
  {
    if |xs| > 0 {
      FilterUniform(xs[1..], acct, b, a);
      assert xs == [xs[0]] + xs[1..];
    }
  }

  /** An account that does not occur in `xs` has an empty group. */
  lemma {:induction false} FilterAbsent<T>(xs: seq<T>, acct: T -> string, a: string)
    requires a !in Accounts(xs, acct)
    ensures Filter(xs, acct, a) == []
  {
    if |xs| > 0 {
      AccountsCons(xs, acct);
      FilterAbsent(xs[1..], acct, a);
    }
  }

  /** An account that occurs in `xs` has a non-empty group. */
  lemma {:induction false} FilterOccurs<T>(xs: seq<T>, acct: T -> string, i: nat)
    requires i < |xs|
    ensures |Filter(xs, acct, acct(xs[i]))| > 0
  {
    if i > 0 && acct(xs[0]) != acct(xs[i]) {
      FilterOccurs(xs[1..], acct, i - 1);
    }
  }

  /** The rows of `xs` whose account is not `a`, in their original order. */
  function Exclude<T>(xs: seq<T>, acct: T -> string, a: string): (r: seq<T>)
    ensures |r| + |Filter(xs, acct, a)| == |xs|
    ensures Accounts(r, acct) == Accounts(xs, acct) - {a}
  {
    if |xs| == 0 then []
    else
      var rest := Exclude(xs[1..], acct, a);
      assert Accounts(xs, acct) == {acct(xs[0])} + Accounts(xs[1..], acct) by {
        AccountsCons(xs, acct);
      }
      if acct(xs[0]) == a then rest
      else
        var r := [xs[0]] + rest;
        assert r[1..] == rest;
        AccountsCons(r, acct);
        r
  }

  /** Removing one account leaves every other account's rows as they were. */
  lemma {:induction false} ExcludeFilter<T>(xs: seq<T>, acct: T -> string, a: string, b: string)
    requires a != b
    ensures Filter(Exclude(xs, acct, a), acct, b) == Filter(xs, acct, b)
  {
    if |xs| > 0 {
      ExcludeFilter(xs[1..], acct, a, b);
      if acct(xs[0]) != a {
        FilterCons(xs[0], Exclude(xs[1..], acct, a), acct, b);
      }
    }
  }

  /** The distinct accounts of `xs`. */
  function Accounts<T>(xs: seq<T>, acct: T -> string): set<string>
  {
    set i | 0 <= i < |xs| :: acct(xs[i])
  }

  lemma AccountsCons<T>(xs: seq<T>, acct: T -> string)
    requires |xs| > 0
    ensures Accounts(xs, acct) == {acct(xs[0])} + Accounts(xs[1..], acct)
  {
    forall b | b in Accounts(xs, acct)
      ensures b in {acct(xs[0])} + Accounts(xs[1..], acct)
    {
      var i :| 0 <= i < |xs| && acct(xs[i]) == b;
      if i > 0 {
        assert xs[1..][i - 1] == xs[i];
      }
    }
    forall b | b in Accounts(xs[1..], acct)
      ensures b in Accounts(xs, acct)
    {
      var i :| 0 <= i < |xs[1..]| && acct(xs[1..][i]) == b;
      assert xs[i + 1] == xs[1..][i];
    }
  }

  /** The least account of a non-empty sequence of rows. */
  function MinAccount<T>(xs: seq<T>, acct: T -> string): (a: string)
    requires |xs| > 0
    ensures a in Accounts(xs, acct)
    ensures forall i :: 0 <= i < |xs| ==> StrLe(a, acct(xs[i]))
  {
    if |xs| == 1 then
      StrLeReflexive(acct(xs[0]));
      acct(xs[0])
    else
      var rest := MinAccount(xs[1..], acct);
      AccountsCons(xs, acct);
      assert forall i :: 1 <= i < |xs| ==> xs[i] == xs[1..][i - 1];
      StrLeTotal(acct(xs[0]), rest);
      StrLeReflexive(acct(xs[0]));
      if StrLe(acct(xs[0]), rest) then
        assert forall i :: 1 <= i < |xs| ==> StrLe(acct(xs[0]), acct(xs[i])) by {
          forall i | 1 <= i < |xs| {
            StrLeTransitive(acct(xs[0]), rest, acct(xs[i]));
          }
        }
        acct(xs[0])
      else
        rest
  }

  /** One group of `groupby`: the account and its rows. */
  datatype Group<T> = Group(account: string, rows: seq<T>)

  /** The accounts of a sequence of groups. */
  function GroupAccounts<T>(gs: seq<Group<T>>): set<string>
  {
    set k | 0 <= k < |gs| :: gs[k].account
  }

  /** Accounts strictly ascending, as `groupby` yields them. */
  predicate Ascending<T>(gs: seq<Group<T>>)
  {
    forall k, l :: 0 <= k < l < |gs| ==> StrLt(gs[k].account, gs[l].account)
  }

  /** `gs` is the grouping of `xs` by account: one non-empty group per distinct
      account, accounts strictly ascending, each group exactly that account's
      rows in their original order. */
  ghost predicate IsGrouping<T>(gs: seq<Group<T>>, xs: seq<T>, acct: T -> string)
  {
    && (forall k :: 0 <= k < |gs| ==> gs[k].rows == Filter(xs, acct, gs[k].account))
    && (forall k :: 0 <= k < |gs| ==> |gs[k].rows| > 0)
    && Ascending(gs)
    && GroupAccounts(gs) == Accounts(xs, acct)
  }

  /** `xs.groupby(account)`: the groups in ascending account order. */
  function GroupBy<T>(xs: seq<T>, acct: T -> string): (gs: seq<Group<T>>)
    ensures IsGrouping(gs, xs, acct)
    decreases |xs|
  {
    if |xs| == 0 then
      []
    else
      var a := MinAccount(xs, acct);
      var i :| 0 <= i < |xs| && acct(xs[i]) == a;
      FilterOccurs(xs, acct, i);
      var rest := GroupBy(Exclude(xs, acct, a), acct);
      GroupingCons(xs, acct, a, rest);
      [Group(a, Filter(xs, acct, a))] + rest
  }

  /** The least account's group in front of the grouping of the other rows is
      the grouping of all rows. */
  lemma GroupingCons<T>(xs: seq<T>, acct: T -> string, a: string, rest: seq<Group<T>>)
    requires a in Accounts(xs, acct)
    requires forall i :: 0 <= i < |xs| ==> StrLe(a, acct(xs[i]))
    requires |Filter(xs, acct, a)| > 0
    requires IsGrouping(rest, Exclude(xs, acct, a), acct)
    ensures IsGrouping([Group(a, Filter(xs, acct, a))] + rest, xs, acct)
  {
    var g := Group(a, Filter(xs, acct, a));
    var theirs := GroupAccounts(rest);
    assert theirs == Accounts(xs, acct) - {a};
    GroupsCons(g, rest);
    forall k | 0 <= k < |rest|
      ensures rest[k].account in Accounts(xs, acct) - {a}
    {
      assert rest[k].account in theirs;
    }
    forall k | 0 <= k < |rest|
      ensures StrLt(a, rest[k].account)
    {
      var j :| 0 <= j < |xs| && acct(xs[j]) == rest[k].account;
    }
    GroupRowsCons(xs, acct, g, rest);
    GroupOrderCons(g, rest);
  }

  lemma GroupRowsCons<T>(xs: seq<T>, acct: T -> string, g: Group<T>, rest: seq<Group<T>>)
    requires g.rows == Filter(xs, acct, g.account) && |g.rows| > 0
    requires forall k :: 0 <= k < |rest| ==> rest[k].account != g.account
    requires forall k :: 0 <= k < |rest| ==> |rest[k].rows| > 0
    requires forall k :: 0 <= k < |rest| ==> rest[k].rows == Filter(Exclude(xs, acct, g.account), acct, rest[k].account)
    ensures forall k :: 0 <= k < |[g] + rest| ==> ([g] + rest)[k].rows == Filter(xs, acct, ([g] + rest)[k].account)
    ensures forall k :: 0 <= k < |[g] + rest| ==> |([g] + rest)[k].rows| > 0
  {
    var gs := [g] + rest;
    forall k | 0 <= k < |gs|
      ensures gs[k].rows == Filter(xs, acct, gs[k].account) && |gs[k].rows| > 0
    {
      if k > 0 {
        var h := rest[k - 1];
        assert gs[k] == h;
        assert h.rows == Filter(Exclude(xs, acct, g.account), acct, h.account);
        ExcludeFilter(xs, acct, g.account, h.account);
      }
    }
  }

  lemma GroupOrderCons<T>(g: Group<T>, rest: seq<Group<T>>)
    requires forall k :: 0 <= k < |rest| ==> StrLt(g.account, rest[k].account)
    requires Ascending(rest)
    ensures Ascending([g] + rest)
  {
    var gs := [g] + rest;
    forall k, l | 0 <= k < l < |gs|
      ensures StrLt(gs[k].account, gs[l].account)
    {
      assert gs[l] == rest[l - 1];
      if k > 0 {
        assert gs[k] == rest[k - 1];
      }
    }
  }

  /** The accounts of a grouping with one more group in front. */
  lemma GroupsCons<T>(g: Group<T>, rest: seq<Group<T>>)
    ensures GroupAccounts([g] + rest) == {g.account} + GroupAccounts(rest)
  {
    var gs := [g] + rest;
    var mine := GroupAccounts(gs);
    var theirs := GroupAccounts(rest);
    forall b | b in mine
      ensures b in {g.account} + theirs
    {
      var k :| 0 <= k < |gs| && gs[k].account == b;
      if k > 0 {
        assert rest[k - 1].account == b;
      }
    }
    forall b | b in {g.account} + theirs
      ensures b in mine
    {
      if b != g.account {
        var k :| 0 <= k < |rest| && rest[k].account == b;
        assert gs[k + 1].account == b;
      } else {
        assert gs[0].account == b;
      }
    }
  }

  /** The last `n` elements of `s`, or all of them when there are fewer. */
  function LastN<T>(s: seq<T>, n: nat): seq<T>
  {
    if |s| <= n then s else s[|s| - n..]
  }

  /** `groupby(account).tail(n)`: a row stays when fewer than `n` later rows
      share its account; the rows that stay keep their order. */
  function TailWindow<T>(xs: seq<T>, acct: T -> string, n: nat): (r: seq<T>)
    ensures multiset(r) <= multiset(xs)
  {
    if |xs| == 0 then []
    else
      var rest := TailWindow(xs[1..], acct, n);
      assert xs == [xs[0]] + xs[1..];
      if |Filter(xs[1..], acct, acct(xs[0]))| < n then [xs[0]] + rest else rest
  }

  /** The window restricted to one account is the last `n` rows of that
      account: exactly `min(count, n)` rows, and no other rows of it. */
  lemma {:induction false} TailWindowPerAccount<T>(xs: seq<T>, acct: T -> string, n: nat, a: string)
    ensures Filter(TailWindow(xs, acct, n), acct, a) == LastN(Filter(xs, acct, a), n)
  {
    if |xs| > 0 {
      TailWindowPerAccount(xs[1..], acct, n, a);
      TailWindowStep(xs, acct, n, a);
    }
  }

  /** One step of the induction: from the tail's window to the whole window. */
  lemma TailWindowStep<T>(xs: seq<T>, acct: T -> string, n: nat, a: string)
    requires |xs| > 0
    requires Filter(TailWindow(xs[1..], acct, n), acct, a) == LastN(Filter(xs[1..], acct, a), n)
    ensures Filter(TailWindow(xs, acct, n), acct, a) == LastN(Filter(xs, acct, a), n)
  {
    if |Filter(xs[1..], acct, acct(xs[0]))| < n {
      KeptStep(xs, acct, n, a);
    } else {
      DroppedStep(xs, acct, n, a);
    }
  }

  /** The window and the filter of a non-empty sequence, one row at a time. */
  lemma TailWindowUnfold<T>(xs: seq<T>, acct: T -> string, n: nat, a: string)
    requires |xs| > 0
    ensures TailWindow(xs, acct, n) == if |Filter(xs[1..], acct, acct(xs[0]))| < n
      then [xs[0]] + TailWindow(xs[1..], acct, n) else TailWindow(xs[1..], acct, n)
    ensures Filter(xs, acct, a) == (if acct(xs[0]) == a then [xs[0]] else []) + Filter(xs[1..], acct, a)
  {
  }

  /** The first row is kept: fewer than `n` later rows share its account. */
  lemma KeptStep<T>(xs: seq<T>, acct: T -> string, n: nat, a: string)
    requires |xs| > 0 && |Filter(xs[1..], acct, acct(xs[0]))| < n
    requires Filter(TailWindow(xs[1..], acct, n), acct, a) == LastN(Filter(xs[1..], acct, a), n)
    ensures Filter(TailWindow(xs, acct, n), acct, a) == LastN(Filter(xs, acct, a), n)
  {
    var rest := TailWindow(xs[1..], acct, n);
    var later := Filter(xs[1..], acct, a);
    TailWindowUnfold(xs, acct, n, a);
    assert TailWindow(xs, acct, n) == [xs[0]] + rest;
    FilterCons(xs[0], rest, acct, a);
    if acct(xs[0]) == a {
      assert LastN(later, n) == later && LastN([xs[0]] + later, n) == [xs[0]] + later;
    } else {
      assert Filter(xs, acct, a) == later;
    }
  }

  /** The first row is dropped: `n` later rows share its account, so it is not
      among that account's last `n`. */
  lemma DroppedStep<T>(xs: seq<T>, acct: T -> string, n: nat, a: string)
    requires |xs| > 0 && |Filter(xs[1..], acct, acct(xs[0]))| >= n
    requires Filter(TailWindow(xs[1..], acct, n), acct, a) == LastN(Filter(xs[1..], acct, a), n)
    ensures Filter(TailWindow(xs, acct, n), acct, a) == LastN(Filter(xs, acct, a), n)
  {
    var later := Filter(xs[1..], acct, a);
    TailWindowUnfold(xs, acct, n, a);
    assert TailWindow(xs, acct, n) == TailWindow(xs[1..], acct, n);
    if acct(xs[0]) == a {
      LastNCons(xs[0], later, n);
    } else {
      assert Filter(xs, acct, a) == later;
    }
  }

  /** An element in front of at least `n` others is not among the last `n`. */
  lemma LastNCons<T>(x: T, s: seq<T>, n: nat)
    requires |s| >= n
    ensures LastN([x] + s, n) == LastN(s, n)
  {
    assert ([x] + s)[|s| + 1 - n..] == s[|s| - n..];
  }

  lemma FilterCons<T>(x: T, xs: seq<T>, acct: T -> string, a: string)
    ensures Filter([x] + xs, acct, a) == (if acct(x) == a then [x] else []) + Filter(xs, acct, a)
  {
    assert ([x] + xs)[1..] == xs;
  }

  /** A lower bound on every row's key is a lower bound on every kept row's key. */
  lemma {:induction false} TailWindowBound<T>(y: T, xs: seq<T>, acct: T -> string, n: nat, key: T -> Key)
    requires AllAtLeast(y, xs, key)
    ensures AllAtLeast(y, TailWindow(xs, acct, n), key)
  {
    if |xs| > 0 {
      TailWindowBound(y, xs[1..], acct, n, key);
    }
  }

  /** A window of a sequence in key order is in key order: rows of one account
      stay contiguous and no other account's rows come between them. */
  lemma {:induction false} TailWindowSorted<T>(xs: seq<T>, acct: T -> string, n: nat, key: T -> Key)
    requires SortedBy(xs, key)
    ensures SortedBy(TailWindow(xs, acct, n), key)
  {
    if |xs| > 0 {
      var rest := TailWindow(xs[1..], acct, n);
      TailWindowSorted(xs[1..], acct, n, key);
      if |Filter(xs[1..], acct, acct(xs[0]))| < n {
        assert AllAtLeast(xs[0], xs[1..], key);
        TailWindowBound(xs[0], xs[1..], acct, n, key);
        var r := [xs[0]] + rest;
        forall i, j | 0 <= i < j < |r|
          ensures KeyLe(key(r[i]), key(r[j]))
        {
          if i > 0 {
            assert r[i] == rest[i - 1] && r[j] == rest[j - 1];
          }
        }
      }
    }
  }
}
