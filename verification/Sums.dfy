/** Sums over sequences and maps, and how they react to updates and sorting. */
module Sums {
  import opened Sorting

  function Sum<T>(xs: seq<T>, f: T -> int): int {
    if xs == [] then 0 else Sum(xs[..|xs| - 1], f) + f(xs[|xs| - 1])
  }

  lemma SumNone<T>(f: T -> int)
    ensures Sum([], f) == 0
  {
  }

  lemma SumOne<T>(x: T, f: T -> int)
    ensures Sum([x], f) == f(x)
  {
    assert [x][..0] == [];
  }

  lemma {:induction false} SumConcat<T>(a: seq<T>, b: seq<T>, f: T -> int)
    ensures Sum(a + b, f) == Sum(a, f) + Sum(b, f)
  {
    if b == [] {
      assert a + b == a;
    } else {
      SumConcat(a, b[..|b| - 1], f);
      assert (a + b)[..|a + b| - 1] == a + b[..|b| - 1];
    }
  }

  lemma {:induction false} SumUpdate<T>(xs: seq<T>, i: nat, x: T, f: T -> int)
    requires i < |xs|
    ensures Sum(xs[i := x], f) == Sum(xs, f) - f(xs[i]) + f(x)
  {
    if i < |xs| - 1 {
      SumUpdate(xs[..|xs| - 1], i, x, f);
      assert xs[i := x][..|xs| - 1] == xs[..|xs| - 1][i := x];
    } else {
      assert xs[i := x][..|xs| - 1] == xs[..|xs| - 1];
    }
  }

  lemma SumRemove<T>(xs: seq<T>, i: nat, f: T -> int)
    requires i < |xs|
    ensures Sum(xs[..i] + xs[i + 1..], f) == Sum(xs, f) - f(xs[i])
  {
    hide Sum;
    var a, x, b := xs[..i], xs[i], xs[i + 1..];
    SumConcat(a, b, f);
    SumConcat(a, [x] + b, f);
    SumFront(x, b, f);
    assert xs == a + ([x] + b);
  }

  lemma SumFront<T>(x: T, xs: seq<T>, f: T -> int)
    ensures Sum([x] + xs, f) == f(x) + Sum(xs, f)
  {
    SumConcat([x], xs, f);
    SumOne(x, f);
  }

  lemma {:induction false} SumInsert<T>(x: T, xs: seq<T>, key: T -> real, f: T -> int)
    ensures Sum(Insert(x, xs, key), f) == f(x) + Sum(xs, f)
  {
    SumFront(x, xs, f);
    if xs != [] && key(x) > key(xs[0]) {
      SumInsert(x, xs[1..], key, f);
      SumFront(xs[0], Insert(x, xs[1..], key), f);
      SumFront(xs[0], xs[1..], f);
      assert xs == [xs[0]] + xs[1..];
    }
  }

  lemma {:induction false} SumSort<T>(xs: seq<T>, key: T -> real, f: T -> int)
    ensures Sum(SortBy(xs, key), f) == Sum(xs, f)
  {
    if xs != [] {
      SumSort(xs[1..], key, f);
      SumInsert(xs[0], SortBy(xs[1..], key), key, f);
      SumFront(xs[0], xs[1..], f);
      assert xs == [xs[0]] + xs[1..];
    }
  }

  /** The sum of a map's values. */
  ghost function MapSum<K(!new)>(m: map<K, nat>): nat {
    if m == map[] then 0
    else
      var k :| k in m;
      m[k] + MapSum(m - {k})
  }

  lemma {:induction false} MapSumWithout<K(!new)>(m: map<K, nat>, k: K)
    requires k in m
    ensures MapSum(m) == m[k] + MapSum(m - {k})
    decreases |m|
  {
    var j :| j in m && MapSum(m) == m[j] + MapSum(m - {j});
    if j != k {
      MapSumWithout(m - {j}, k);
      MapSumWithout(m - {k}, j);
      assert m - {j} - {k} == m - {k} - {j};
    }
  }

  lemma MapSumUpdate<K(!new)>(m: map<K, nat>, k: K, v: nat)
    ensures MapSum(m[k := v]) == MapSum(m) - (if k in m then m[k] else 0) + v
  {
    MapSumWithout(m[k := v], k);
    assert m[k := v] - {k} == m - {k};
    if k in m {
      MapSumWithout(m, k);
    } else {
      assert m - {k} == m;
    }
  }
}
