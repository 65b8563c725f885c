/** Python's stable sort, and the facts callers need about it. */
module Sorting {

  ghost predicate SortedBy<T>(xs: seq<T>, key: T -> real) {
    forall i, j :: 0 <= i < j < |xs| ==> key(xs[i]) <= key(xs[j])
  }

  function Insert<T>(x: T, xs: seq<T>, key: T -> real): seq<T> {
    if xs == [] || key(x) <= key(xs[0]) then [x] + xs else [xs[0]] + Insert(x, xs[1..], key)
  }

  function SortBy<T>(xs: seq<T>, key: T -> real): seq<T> {
    if xs == [] then [] else Insert(xs[0], SortBy(xs[1..], key), key)
  }

  lemma {:induction false} InsertPermutes<T>(x: T, xs: seq<T>, key: T -> real)
    ensures multiset(Insert(x, xs, key)) == multiset{x} + multiset(xs)
    ensures |Insert(x, xs, key)| == |xs| + 1
  {
    if xs != [] && key(x) > key(xs[0]) {
      InsertPermutes(x, xs[1..], key);
      assert xs == [xs[0]] + xs[1..];
    }
  }

  lemma {:induction false} InsertSorted<T>(x: T, xs: seq<T>, key: T -> real)
    requires SortedBy(xs, key)
    ensures SortedBy(Insert(x, xs, key), key)
  {
    if xs != [] && key(x) > key(xs[0]) {
      var rest := Insert(x, xs[1..], key);
      InsertSorted(x, xs[1..], key);
      InsertPermutes(x, xs[1..], key);
      hide Insert;
      forall j | 0 <= j < |rest| ensures key(xs[0]) <= key(rest[j]) {
        assert rest[j] in multiset(rest);
        assert rest[j] == x || rest[j] in xs[1..];
      }
    }
  }

  lemma {:induction false} SortSorted<T>(xs: seq<T>, key: T -> real)
    ensures SortedBy(SortBy(xs, key), key)
    ensures multiset(SortBy(xs, key)) == multiset(xs)
    ensures |SortBy(xs, key)| == |xs|
  {
    if xs != [] {
      SortSorted(xs[1..], key);
      InsertSorted(xs[0], SortBy(xs[1..], key), key);
      InsertPermutes(xs[0], SortBy(xs[1..], key), key);
      hide Insert, SortedBy;
      assert xs == [xs[0]] + xs[1..];
    }
  }

  lemma SameElements<T>(xs: seq<T>, key: T -> real)
    ensures forall x :: x in SortBy(xs, key) <==> x in xs
  {
    SortSorted(xs, key);
    forall x ensures x in SortBy(xs, key) <==> x in xs {
      assert x in multiset(SortBy(xs, key)) <==> x in multiset(xs);
    }
  }

  ghost predicate Distinct<T>(xs: seq<T>) {
    forall i, j :: 0 <= i < j < |xs| ==> xs[i] != xs[j]
  }

  lemma {:induction false} DistinctMultiset<T>(xs: seq<T>)
    ensures Distinct(xs) <==> forall x :: multiset(xs)[x] <= 1
  {
    if Distinct(xs) {
      if xs != [] {
        DistinctMultiset(xs[1..]);
        assert xs == [xs[0]] + xs[1..];
        assert xs[0] !in xs[1..];
      }
    } else {
      var i, j :| 0 <= i < j < |xs| && xs[i] == xs[j];
      assert xs == xs[..j] + [xs[j]] + xs[j + 1..];
      assert xs[..j][i] == xs[j];
      assert multiset(xs)[xs[j]] >= 2;
    }
  }

  lemma SortDistinct<T>(xs: seq<T>, key: T -> real)
    requires Distinct(xs)
    ensures Distinct(SortBy(xs, key))
  {
    SortSorted(xs, key);
    DistinctMultiset(xs);
    DistinctMultiset(SortBy(xs, key));
  }

  /** A list already in order is left as it is. */
  lemma {:induction false} SortOfSorted<T>(xs: seq<T>, key: T -> real)
    requires SortedBy(xs, key)
    ensures SortBy(xs, key) == xs
  {
    if |xs| > 0 {
      SortOfSorted(xs[1..], key);
      assert SortBy(xs, key) == Insert(xs[0], xs[1..], key);
      if |xs| > 1 {
        assert key(xs[0]) <= key(xs[1]);
      }
    }
  }

  lemma InsertInFront<T>(x: T, xs: seq<T>, key: T -> real, m: real)
    requires key(x) == m && forall y :: y in xs ==> m <= key(y)
    ensures Insert(x, xs, key) == [x] + xs
  {
    if xs != [] {
      assert xs[0] in xs;
    }
  }

  lemma SortUnfolds<T>(xs: seq<T>, key: T -> real)
    requires xs != []
    ensures SortBy(xs, key) == Insert(xs[0], SortBy(xs[1..], key), key)
  {
  }

  lemma AllAtLeast<T>(front: seq<T>, sorted: seq<T>, rest: seq<T>, key: T -> real, m: real)
    requires (forall x :: x in front ==> key(x) == m) && (forall x :: x in sorted <==> x in rest) && forall x :: x in rest ==> m <= key(x)
    ensures forall x :: x in front + sorted ==> m <= key(x)
  {
    forall x | x in front + sorted ensures m <= key(x) {
      assert x in front || x in sorted;
    }
  }

  lemma FrontRejoined<T>(front: seq<T>, rest: seq<T>)
    requires front != []
    ensures [front[0]] + (front[1..] + rest) == front + rest
  {
  }

  /** Elements tied for least at the front stay there, in their order. */
  lemma {:induction false} LeastStayInFront<T>(front: seq<T>, rest: seq<T>, key: T -> real, m: real)
    requires (forall x :: x in front ==> key(x) == m) && forall x :: x in rest ==> m <= key(x)
    ensures SortBy(front + rest, key) == front + SortBy(rest, key)
  {
    if front == [] {
      assert front + rest == rest;
    } else {
      LeastStayInFront(front[1..], rest, key, m);
      assert (front + rest)[1..] == front[1..] + rest;
      SortUnfolds(front + rest, key);
      SameElements(rest, key);
      var sorted := SortBy(rest, key);
      AllAtLeast(front[1..], sorted, rest, key, m);
      hide SortBy, Insert;
      InsertInFront(front[0], front[1..] + sorted, key, m);
      FrontRejoined(front, sorted);
    }
  }

  /** The elements that satisfy p, in order. */
  function Those<T>(xs: seq<T>, p: T -> bool): seq<T> {
    if xs == [] then [] else (if p(xs[0]) then [xs[0]] else []) + Those(xs[1..], p)
  }

  lemma {:induction false} ThosePush<T>(xs: seq<T>, x: T, p: T -> bool)
    ensures Those(xs + [x], p) == Those(xs, p) + if p(x) then [x] else []
  {
    if xs == [] {
      assert [] + [x] == [x];
    } else {
      ThosePush(xs[1..], x, p);
      assert (xs + [x])[1..] == xs[1..] + [x];
    }
  }

  lemma ThoseFront<T>(x: T, xs: seq<T>, p: T -> bool)
    ensures Those([x] + xs, p) == (if p(x) then [x] else []) + Those(xs, p)
  {
    assert ([x] + xs)[1..] == xs;
  }

  lemma {:induction false} InsertStable<T>(x: T, xs: seq<T>, key: T -> real, p: T -> bool)
    requires forall y :: y in xs && p(x) && p(y) ==> key(x) == key(y)
    ensures Those(Insert(x, xs, key), p) == (if p(x) then [x] else []) + Those(xs, p)
  {
    if xs == [] || key(x) <= key(xs[0]) {
      hide Those;
      ThoseFront(x, xs, p);
    } else {
      hide Those;
      InsertStable(x, xs[1..], key, p);
      assert xs[0] in xs && [xs[0]] + xs[1..] == xs;
      ThoseFront(xs[0], xs[1..], p);
      ThoseFront(xs[0], Insert(x, xs[1..], key), p);
    }
  }

  /** p picks out elements with one key. */
  ghost predicate Tied<T>(xs: seq<T>, key: T -> real, p: T -> bool) {
    forall i, j :: 0 <= i < |xs| && 0 <= j < |xs| && p(xs[i]) && p(xs[j]) ==> key(xs[i]) == key(xs[j])
  }

  lemma TiedInsert<T>(xs: seq<T>, sorted: seq<T>, key: T -> real, p: T -> bool)
    requires xs != [] && Tied(xs, key, p) && multiset(sorted) == multiset(xs[1..])
    ensures Tied(xs[1..], key, p)
    ensures forall y :: y in sorted && p(xs[0]) && p(y) ==> key(xs[0]) == key(y)
  {
    forall k | 0 <= k < |sorted| && p(xs[0]) && p(sorted[k]) ensures key(xs[0]) == key(sorted[k]) {
      assert sorted[k] in multiset(sorted);
      assert sorted[k] in multiset(xs[1..]);
      var i :| 0 <= i < |xs[1..]| && xs[1..][i] == sorted[k];
      assert xs[i + 1] == sorted[k];
    }
  }

  /** The sort is stable: elements with the same key stay in their order. */
  lemma {:induction false} SortStable<T>(xs: seq<T>, key: T -> real, p: T -> bool)
    requires Tied(xs, key, p)
    ensures Those(SortBy(xs, key), p) == Those(xs, p)
  {
    if xs != [] {
      SortSorted(xs[1..], key);
      TiedInsert(xs, SortBy(xs[1..], key), key, p);
      InsertStable(xs[0], SortBy(xs[1..], key), key, p);
      SortStable(xs[1..], key, p);
    }
  }

  /** What a sorted list keeps when cut short is least. */
  lemma PrefixLeast<T>(sorted: seq<T>, n: nat, key: T -> real, p: T)
    requires SortedBy(sorted, key) && n <= |sorted|
    requires p in sorted && p !in sorted[..n]
    ensures n < |sorted| && forall q :: q in sorted[..n] ==> key(q) <= key(p)
  {
    var j :| 0 <= j < |sorted| && sorted[j] == p;
    forall q | q in sorted[..n] ensures key(q) <= key(p) {
      var i :| 0 <= i < n && sorted[i] == q;
      assert forall k :: 0 <= k < n ==> sorted[..n][k] == sorted[k];
    }
    assert forall k :: 0 <= k < n ==> sorted[..n][k] == sorted[k];
  }

  lemma PrefixKeeps<T>(xs: seq<T>, n: nat, key: T -> real)
    requires n <= |xs|
    ensures SortedBy(xs, key) ==> SortedBy(xs[..n], key)
    ensures Distinct(xs) ==> Distinct(xs[..n])
    ensures forall x :: x in xs[..n] ==> x in xs
  {
  }

  lemma MultisetAppend<T>(a: seq<T>, b: T)
    ensures multiset(a + [b]) == multiset(a) + multiset{b}
  {
  }

  /** Dealing one more element to either of two hands. */
  lemma Dealt<T>(c: seq<T>, s: seq<T>, all: seq<T>, b: T, first: bool)
    requires multiset(c) + multiset(s) == multiset(all)
    ensures multiset(if first then c + [b] else c) + multiset(if first then s else s + [b]) == multiset(all + [b])
  {
  }

  /** Moving one element from one side to the other keeps the balance. */
  lemma Rebalance<T>(s: multiset<T>, d: multiset<T>, a: multiset<T>, r: multiset<T>, b: T)
    requires s + d == a + r
    ensures s + (d + multiset{b}) == a + multiset{b} + r && s + multiset{b} + d == a + multiset{b} + r
  {
    assert s + (d + multiset{b}) == s + d + multiset{b};
    assert a + multiset{b} + r == a + r + multiset{b};
  }

  // ------------------------------------------------------------------ places in order

  ghost function CountBelow(xs: seq<real>, v: real): nat {
    if xs == [] then 0 else (if xs[0] < v then 1 else 0) + CountBelow(xs[1..], v)
  }

  ghost function CountAbove(xs: seq<real>, v: real): nat {
    if xs == [] then 0 else (if xs[0] > v then 1 else 0) + CountAbove(xs[1..], v)
  }

  /** v has place k among the values: it is one of them, at most k are less, and no more than the places left are greater. */
  ghost predicate AtPlace(xs: seq<real>, k: nat, v: real) {
    v in xs && CountBelow(xs, v) <= k && CountAbove(xs, v) + k < |xs|
  }

  /** The two middle values of an even number of them. */
  ghost predicate Middles(xs: seq<real>, a: real, b: real) {
    xs != [] && |xs| % 2 == 0 && AtPlace(xs, |xs| / 2 - 1, a) && AtPlace(xs, |xs| / 2, b)
  }

  /** The middle value, or halfway between the two middle ones. */
  ghost predicate IsMiddle(xs: seq<real>, m: real) {
    if |xs| % 2 == 1 then AtPlace(xs, |xs| / 2, m) else exists a, b :: Middles(xs, a, b) && m == (a + b) / 2.0
  }

  lemma {:induction false} InsertCounts(x: real, xs: seq<real>, key: real -> real, v: real)
    ensures CountBelow(Insert(x, xs, key), v) == CountBelow([x], v) + CountBelow(xs, v)
    ensures CountAbove(Insert(x, xs, key), v) == CountAbove([x], v) + CountAbove(xs, v)
  {
    assert CountBelow([x], v) == (if x < v then 1 else 0) && CountAbove([x], v) == if x > v then 1 else 0;
    if xs == [] || key(x) <= key(xs[0]) {
      assert ([x] + xs)[1..] == xs;
    } else {
      InsertCounts(x, xs[1..], key, v);
      assert ([xs[0]] + Insert(x, xs[1..], key))[1..] == Insert(x, xs[1..], key);
    }
  }

  /** Sorting changes no count. */
  lemma {:induction false} SortCounts(xs: seq<real>, key: real -> real, v: real)
    ensures CountBelow(SortBy(xs, key), v) == CountBelow(xs, v) && CountAbove(SortBy(xs, key), v) == CountAbove(xs, v)
  {
    if xs != [] {
      SortCounts(xs[1..], key, v);
      InsertCounts(xs[0], SortBy(xs[1..], key), key, v);
      hide Insert;
      assert CountBelow([xs[0]], v) == (if xs[0] < v then 1 else 0) && CountAbove([xs[0]], v) == if xs[0] > v then 1 else 0;
    }
  }

  lemma {:induction false} NotBelow(xs: seq<real>, k: nat, v: real)
    requires k <= |xs| && forall i :: k <= i < |xs| ==> xs[i] >= v
    ensures CountBelow(xs, v) <= k
  {
    if xs != [] {
      NotBelow(xs[1..], if k == 0 then 0 else k - 1, v);
    }
  }

  lemma {:induction false} NotAbove(xs: seq<real>, k: nat, v: real)
    requires k <= |xs| && forall i :: 0 <= i < k ==> xs[i] <= v
    ensures CountAbove(xs, v) <= |xs| - k
  {
    if k > 0 {
      NotAbove(xs[1..], k - 1, v);
    } else {
      CountsInside(xs, v);
    }
  }

  lemma {:induction false} CountsInside(xs: seq<real>, v: real)
    ensures CountAbove(xs, v) <= |xs|
  {
    if xs != [] {
      CountsInside(xs[1..], v);
    }
  }

  /** The k-th of the sorted values has place k among them. */
  lemma SortedPlace(xs: seq<real>, key: real -> real, k: nat)
    requires k < |xs| && forall x :: key(x) == x
    ensures |SortBy(xs, key)| == |xs| && AtPlace(xs, k, SortBy(xs, key)[k])
  {
    hide SortBy, CountBelow, CountAbove;
    SortSorted(xs, key);
    SameElements(xs, key);
    var s := SortBy(xs, key);
    assert s[k] in s;
    forall i, j | 0 <= i < j < |s| ensures s[i] <= s[j] {
      assert key(s[i]) <= key(s[j]);
    }
    hide SortedBy;
    NotBelow(s, k, s[k]);
    NotAbove(s, k + 1, s[k]);
    SortCounts(xs, key, s[k]);
  }

  /** Only one value has a given place. */
  lemma OnePlace(xs: seq<real>, k: nat, v: real, w: real)
    requires AtPlace(xs, k, v) && AtPlace(xs, k, w)
    ensures v == w
  {
    hide CountBelow, CountAbove;
    if v < w {
      Between(xs, v, w);
    } else if w < v {
      Between(xs, w, v);
    }
  }

  lemma {:induction false} Between(xs: seq<real>, v: real, w: real)
    requires v < w
    ensures CountBelow(xs, w) + CountAbove(xs, v) >= |xs|
  {
    if xs != [] {
      Between(xs[1..], v, w);
    }
  }
}
