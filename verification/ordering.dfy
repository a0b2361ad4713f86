/** Orderings used by pandas `sort_values` and `groupby` in the forecasting stage,
    and the stable sort that `sort_values(["account", "month"])` performs. */
module Ordering {

  /** Python's `<=` on `str`: code-point lexicographic order, a proper prefix first. */
  predicate StrLe(a: string, b: string)
  {
    if |a| == 0 then true
    else if |b| == 0 then false
    else if a[0] != b[0] then a[0] < b[0]
    else StrLe(a[1..], b[1..])
  }

  predicate StrLt(a: string, b: string)
  {
    StrLe(a, b) && a != b
  }

  lemma {:induction false} StrLeReflexive(a: string)
    ensures StrLe(a, a)
  {
    if |a| > 0 {
      StrLeReflexive(a[1..]);
    }
  }

  lemma {:induction false} StrLeTotal(a: string, b: string)
    ensures StrLe(a, b) || StrLe(b, a)
  {
    if |a| > 0 && |b| > 0 && a[0] == b[0] {
      StrLeTotal(a[1..], b[1..]);
    }
  }

  lemma {:induction false} StrLeAntisymmetric(a: string, b: string)
    requires StrLe(a, b) && StrLe(b, a)
    ensures a == b
  {
    if |a| > 0 && |b| > 0 {
      StrLeAntisymmetric(a[1..], b[1..]);
      assert a == [a[0]] + a[1..];
      assert b == [b[0]] + b[1..];
    }
  }

  lemma {:induction false} StrLeTransitive(a: string, b: string, c: string)
    requires StrLe(a, b) && StrLe(b, c)
    ensures StrLe(a, c)
  {
    if |a| > 0 && a[0] == b[0] && b[0] == c[0] {
      StrLeTransitive(a[1..], b[1..], c[1..]);
    }
  }

  /** `a` is a prefix of `b`. */
  ghost predicate IsPrefix(a: string, b: string)
  {
    |a| <= |b| && a == b[..|a|]
  }

  /** `a` is smaller than `b` at the first position where the two differ. */
  ghost predicate SmallerAtFirstDifference(a: string, b: string)
  {
    exists i :: 0 <= i < |a| && i < |b| && a[..i] == b[..i] && a[i] < b[i]
  }

  /** `a` comes first or equal in lexicographic order. */
  ghost predicate Lexicographic(a: string, b: string)
  {
    IsPrefix(a, b) || SmallerAtFirstDifference(a, b)
  }

  /** `StrLe` is the lexicographic order on code points. */
  lemma {:induction false} StrLeLexicographic(a: string, b: string)
    ensures StrLe(a, b) <==> Lexicographic(a, b)
  {
    if |a| == 0 {
      assert a == b[..0];
    } else if |b| == 0 {
    } else if a[0] != b[0] {
      HeadsDiffer(a, b);
    } else {
      StrLeLexicographic(a[1..], b[1..]);
      PrefixCons(a, b);
      DifferenceCons(a, b);
    }
  }

  /** Strings with different first characters are ordered by them. */
  lemma HeadsDiffer(a: string, b: string)
    requires |a| > 0 && |b| > 0 && a[0] != b[0]
    ensures !IsPrefix(a, b)
    ensures SmallerAtFirstDifference(a, b) <==> a[0] < b[0]
  {
    if a[0] < b[0] {
      assert a[..0] == b[..0];
    }
    forall i | 0 < i < |a| && i < |b|
      ensures a[..i] != b[..i]
    {
      assert a[..i][0] == a[0] && b[..i][0] == b[0];
    }
    if |a| <= |b| {
      assert b[..|a|][0] == b[0];
    }
  }

  /** With equal first characters, one string is a prefix of the other exactly
      when their tails are. */
  lemma PrefixCons(a: string, b: string)
    requires |a| > 0 && |b| > 0 && a[0] == b[0]
    ensures IsPrefix(a, b) <==> IsPrefix(a[1..], b[1..])
  {
    var x, y := a[1..], b[1..];
    assert a == [a[0]] + x && b == [b[0]] + y;
    if IsPrefix(x, y) {
      assert b[..|a|] == [b[0]] + y[..|x|];
    }
    if IsPrefix(a, b) {
      assert x == b[..|a|][1..] == y[..|x|];
    }
  }

  /** With equal first characters, the first difference is the tails' first
      difference, one position further on. */
  lemma DifferenceCons(a: string, b: string)
    requires |a| > 0 && |b| > 0 && a[0] == b[0]
    ensures SmallerAtFirstDifference(a, b) <==> SmallerAtFirstDifference(a[1..], b[1..])
  {
    var x, y := a[1..], b[1..];
    if i :| 0 <= i < |x| && i < |y| && x[..i] == y[..i] && x[i] < y[i] {
      assert a[..i + 1] == [a[0]] + x[..i] && b[..i + 1] == [b[0]] + y[..i];
      assert a[i + 1] < b[i + 1];
    }
    if i :| 0 <= i < |a| && i < |b| && a[..i] == b[..i] && a[i] < b[i] {
      assert i > 0;
      assert x[..i - 1] == a[..i][1..] == b[..i][1..] == y[..i - 1];
      assert x[i - 1] < y[i - 1];
    }
  }

  /** The sort key of `sort_values(["account", "month"])`; months are month indices. */
  datatype Key = Key(account: string, month: int)

  predicate KeyLe(x: Key, y: Key)
  {
    StrLt(x.account, y.account) || (x.account == y.account && x.month <= y.month)
  }

  lemma KeyLeTotal(x: Key, y: Key)
    ensures KeyLe(x, y) || KeyLe(y, x)
  {
    StrLeTotal(x.account, y.account);
  }

  lemma KeyLeTransitive(x: Key, y: Key, z: Key)
    requires KeyLe(x, y) && KeyLe(y, z)
    ensures KeyLe(x, z)
  {
    if x.account != y.account && y.account != z.account {
      StrLeTransitive(x.account, y.account, z.account);
      if x.account == z.account {
        StrLeAntisymmetric(x.account, y.account);
      }
    }
  }

  /** Ascending by key, ties allowed. */
  predicate SortedBy<T>(xs: seq<T>, key: T -> Key)
  {
    forall i, j :: 0 <= i < j < |xs| ==> KeyLe(key(xs[i]), key(xs[j]))
  }

  /** Every element of `xs` has a key at least `key(x)`. */
  predicate AllAtLeast<T>(x: T, xs: seq<T>, key: T -> Key)
  {
    forall j :: 0 <= j < |xs| ==> KeyLe(key(x), key(xs[j]))
  }

  lemma SortedHeadBound<T>(x: T, xs: seq<T>, key: T -> Key)
    requires SortedBy(xs, key)
    requires |xs| > 0 && KeyLe(key(x), key(xs[0]))
    ensures AllAtLeast(x, xs, key)
  {
    forall j | 0 <= j < |xs|
      ensures KeyLe(key(x), key(xs[j]))
    {
      if j > 0 {
        KeyLeTransitive(key(x), key(xs[0]), key(xs[j]));
      }
    }
  }

  /** A lower bound of every element of a multiset-equal sequence carries over. */
  lemma AllAtLeastPermutation<T>(x: T, xs: seq<T>, ys: seq<T>, key: T -> Key)
    requires AllAtLeast(x, xs, key)
    requires multiset(ys) <= multiset(xs)
    ensures AllAtLeast(x, ys, key)
  {
    forall j | 0 <= j < |ys|
      ensures KeyLe(key(x), key(ys[j]))
    {
      assert ys[j] in multiset(ys);
      assert ys[j] in xs;
    }
  }

  /** Inserts `x` before the first element whose key it does not exceed, so an
      `x` that came earlier stays ahead of elements with an equal key. */
  function Insert<T>(x: T, xs: seq<T>, key: T -> Key): (r: seq<T>)
    requires SortedBy(xs, key)
    ensures SortedBy(r, key)
    ensures multiset(r) == multiset(xs) + multiset{x}
  {
    if |xs| == 0 || KeyLe(key(x), key(xs[0])) then
      if |xs| > 0 then SortedHeadBound(x, xs, key); [x] + xs
      else [x]
    else
      KeyLeTotal(key(x), key(xs[0]));
      var rest := Insert(x, xs[1..], key);
      assert xs == [xs[0]] + xs[1..];
      assert AllAtLeast(xs[0], xs[1..] + [x], key);
      assert multiset(rest) == multiset(xs[1..] + [x]);
      AllAtLeastPermutation(xs[0], xs[1..] + [x], rest, key);
      [xs[0]] + rest
  }

  /** Stable insertion sort by `key`: the model of pandas' multi-column
      `sort_values`, which sorts stably. */
  function SortBy<T>(xs: seq<T>, key: T -> Key): (r: seq<T>)
    ensures SortedBy(r, key)
    ensures multiset(r) == multiset(xs)
    ensures |r| == |xs|
  {
    if |xs| == 0 then []
    else
      assert xs == [xs[0]] + xs[1..];
      Insert(xs[0], SortBy(xs[1..], key), key)
  }

  /** Two sequences in key order, the first entirely below the second, concatenate in key order. */
  lemma SortedConcat<T>(xs: seq<T>, ys: seq<T>, key: T -> Key)
    requires SortedBy(xs, key) && SortedBy(ys, key)
    requires forall i, j :: 0 <= i < |xs| && 0 <= j < |ys| ==> KeyLe(key(xs[i]), key(ys[j]))
    ensures SortedBy(xs + ys, key)
  {
    var zs := xs + ys;
    forall i, j | 0 <= i < j < |zs|
      ensures KeyLe(key(zs[i]), key(zs[j]))
    {
      if j < |xs| {
        assert zs[i] == xs[i] && zs[j] == xs[j];
      } else if i >= |xs| {
        assert zs[i] == ys[i - |xs|] && zs[j] == ys[j - |xs|];
      } else {
        assert zs[i] == xs[i] && zs[j] == ys[j - |xs|];
      }
    }
  }

  /** Sorting a sequence that is already in key order leaves it unchanged. */
  lemma {:induction false} SortBySorted<T>(xs: seq<T>, key: T -> Key)
    requires SortedBy(xs, key)
    ensures SortBy(xs, key) == xs
  {
    if |xs| > 0 {
      SortBySorted(xs[1..], key);
      assert xs == [xs[0]] + xs[1..];
    }
  }
}
