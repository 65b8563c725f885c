/** The repeat numbers one `pop_ready` or `flush` returns, in the order it returns them. */
module FusionOrder {
  import opened Packets
  import opened Plm
  import opened Sorting
  import opened Combine
  import opened Fusion
  import opened FusionProofs
  import opened FusionRuns
  import opened FusionNumbering
  import opened FusionPartition

  // ------------------------------------------------------------------ the numbers of one message

  /** The emissions of one message, in order. */
  function Sub(out: seq<Emission>, key: Wire): seq<Emission> {
    if out == [] then [] else (if out[0].event.key == key then [out[0]] else []) + Sub(out[1..], key)
  }

  function Numbers(out: seq<Emission>): (r: seq<nat>)
    ensures |r| == |out|
  {
    seq(|out|, i requires 0 <= i < |out| => out[i].event.repeatIndex)
  }

  /** The numbers this message's events carry in a list of events. */
  function NumbersOf(events: seq<FusedEvent>, key: Wire): seq<nat> {
    if events == [] then []
    else (if events[0].key == key then [events[0].repeatIndex] else []) + NumbersOf(events[1..], key)
  }

  /** n consecutive numbers from `start`. */
  function Counting(start: nat, n: nat): (r: seq<nat>)
    ensures |r| == n
  {
    seq(n, i => start + i)
  }

  ghost predicate Ascending(ns: seq<nat>) { forall i, j :: 0 <= i < j < |ns| ==> ns[i] < ns[j] }

  /** The number the next event of a message gets. */
  function NextNumber(closed: map<Wire, ClosedKey>, key: Wire): nat { if key in closed then closed[key].index + 1 else 0 }

  lemma SubUnfold(out: seq<Emission>, key: Wire)
    ensures out == [] ==> Sub(out, key) == []
    ensures out != [] && out[0].event.key == key ==> Sub(out, key) == [out[0]] + Sub(out[1..], key)
    ensures out != [] && out[0].event.key != key ==> Sub(out, key) == Sub(out[1..], key)
  {
  }

  lemma {:induction false} SubAppend(out: seq<Emission>, e: Emission, key: Wire)
    ensures Sub(out + [e], key) == Sub(out, key) + if e.event.key == key then [e] else []
  {
    hide Sub;
    SubUnfold(out, key);
    SubUnfold(out + [e], key);
    if out == [] {
      assert [] + [e] == [e] && [e][1..] == [];
      SubUnfold([], key);
    } else {
      assert (out + [e])[1..] == out[1..] + [e];
      SubAppend(out[1..], e, key);
    }
  }

  /** In finishing order a message's numbers are consecutive, and the table holds the last. */
  ghost predicate Counted(closed: map<Wire, ClosedKey>, em: Emitting, key: Wire) {
    var own := Sub(em.out, key);
    Numbers(own) == Counting(NextNumber(closed, key), |own|) && NextNumber(em.st.closed, key) == NextNumber(closed, key) + |own|
  }

  lemma FinishCounts(closed: map<Wire, ClosedKey>, em: Emitting, b: BucketState, event: FusedEvent, now: real, key: Wire)
    requires Counted(closed, em, key)
    ensures Counted(closed, Finish(em, b, event, now), key)
  {
    hide MessageKey, Sub;
    var after := Finish(em, b, event, now);
    var last := after.out[|em.out|];
    assert after.out == em.out + [last];
    SubAppend(em.out, last, key);
    var own, more := Sub(em.out, key), Sub(after.out, key);
    assert Numbers(more) == Numbers(own) + if last.event.key == key then [last.event.repeatIndex] else [];
  }

  lemma {:induction false} SettleAllCounts(cfg: Config, closed: map<Wire, ClosedKey>, em: Emitting,
                                           damaged: seq<BucketState>, now: real, key: Wire)
    requires NonEmpty(damaged) && Counted(closed, em, key)
    ensures Counted(closed, SettleAll(cfg, em, damaged, now), key)
  {
    hide MessageKey, Finish, Build, Accepts, AddAll, Sub, NextNumber, Counting;
    if damaged != [] {
      var n := |damaged| - 1;
      SettleAllCounts(cfg, closed, em, damaged[..n], now, key);
      FinishCounts(closed, SettleAll(cfg, em, damaged[..n], now), damaged[n], Build(cfg, damaged[n]), now, key);
    }
  }

  lemma {:induction false} FinishAllCounts(cfg: Config, closed: map<Wire, ClosedKey>, em: Emitting,
                                           bs: seq<BucketState>, now: real, key: Wire)
    requires NonEmpty(bs) && Counted(closed, em, key)
    ensures Counted(closed, FinishAll(cfg, em, bs, now), key)
  {
    hide Finish, Build, Counted;
    if bs != [] {
      var n := |bs| - 1;
      FinishAllCounts(cfg, closed, em, bs[..n], now, key);
      FinishCounts(closed, FinishAll(cfg, em, bs[..n], now), bs[n], Build(cfg, bs[n]), now, key);
    }
  }

  lemma EmitCounts(cfg: Config, st: FusionState, done: seq<BucketState>, now: real, key: Wire)
    requires NonEmpty(done)
    ensures Counted(st.closed, Emit(cfg, st, done, now), key)
  {
    var sorted := SortBy(done, Opened());
    SortNonEmpty(done);
    FilterNonEmpty(sorted, true);
    FilterNonEmpty(sorted, false);
    var start := Emitting(st, Filter(sorted, true), [], []);
    assert Counted(st.closed, start, key);
    hide SettleAll, FinishAll, Filter, SortBy, Counted;
    SettleAllCounts(cfg, st.closed, start, Filter(sorted, false), now, key);
    SettleKeepsPending(cfg, start, Filter(sorted, false), now);
    var settled := SettleAll(cfg, start, Filter(sorted, false), now);
    FinishAllCounts(cfg, st.closed, settled, settled.pending, now, key);
  }

  // ------------------------------------------------------------------ returned order

  lemma SubStep(out: seq<Emission>, key: Wire)
    requires out != []
    ensures if out[0].event.key == key then Sub(out, key) != [] && Sub(out, key)[0] == out[0] && Sub(out, key)[1..] == Sub(out[1..], key)
            else Sub(out, key) == Sub(out[1..], key)
  {
  }

  /** Sorting and picking one message's events commute. */
  lemma {:induction false} SubOfInsert(e: Emission, out: seq<Emission>, key: Wire)
    requires SortedBy(out, FirstSeen())
    ensures Sub(Insert(e, out, FirstSeen()), key) == if e.event.key == key then Insert(e, Sub(out, key), FirstSeen()) else Sub(out, key)
  {
    var f := FirstSeen();
    if out == [] || f(e) <= f(out[0]) {
      assert ([e] + out)[1..] == out;
      LeastFirst(e, out, key);
    } else {
      SubOfInsert(e, out[1..], key);
      var rest := Insert(e, out[1..], f);
      assert ([out[0]] + rest)[1..] == rest;
      SubStep(out, key);
      SubStep([out[0]] + rest, key);
    }
  }

  lemma {:induction false} SubFrom(out: seq<Emission>, key: Wire)
    ensures forall x :: x in Sub(out, key) ==> x in out && x.event.key == key
  {
    if out != [] {
      SubFrom(out[1..], key);
    }
  }

  lemma LeastFirst(e: Emission, out: seq<Emission>, key: Wire)
    requires SortedBy(out, FirstSeen()) && (out == [] || FirstSeen()(e) <= FirstSeen()(out[0]))
    ensures Insert(e, Sub(out, key), FirstSeen()) == [e] + Sub(out, key)
  {
    SubFrom(out, key);
    var own := Sub(out, key);
    if own != [] {
      assert own[0] in own;
      var i :| 0 <= i < |out| && out[i] == own[0];
      assert FirstSeen()(out[0]) <= FirstSeen()(out[i]);
    }
  }

  lemma {:induction false} SubOfSort(out: seq<Emission>, key: Wire)
    ensures Sub(SortBy(out, FirstSeen()), key) == SortBy(Sub(out, key), FirstSeen())
  {
    if out != [] {
      SubOfSort(out[1..], key);
      SortSorted(out[1..], FirstSeen());
      SubOfInsert(out[0], SortBy(out[1..], FirstSeen()), key);
      SubStep(out, key);
    }
  }

  lemma {:induction false} NumbersAre(out: seq<Emission>, events: seq<FusedEvent>, key: Wire)
    requires |events| == |out| && forall i :: 0 <= i < |out| ==> events[i] == out[i].event
    ensures NumbersOf(events, key) == Numbers(Sub(out, key))
  {
    if out != [] {
      NumbersAre(out[1..], events[1..], key);
      assert Numbers(Sub(out, key)) == (if out[0].event.key == key then [out[0].event.repeatIndex] else []) + Numbers(Sub(out[1..], key));
    }
  }

  /** The numbers returned for a message: those of its events sorted by first sighting. */
  lemma NumbersReturned(out: seq<Emission>, key: Wire)
    ensures NumbersOf(Events(out), key) == Numbers(SortBy(Sub(out, key), FirstSeen()))
  {
    hide SortBy;
    SubOfSort(out, key);
    SortSorted(out, FirstSeen());
    NumbersAre(SortBy(out, FirstSeen()), Events(out), key);
  }

  lemma PlaceIn<T>(xs: seq<T>, key: T -> real, x: T) returns (at: nat)
    requires x in xs
    ensures at < |SortBy(xs, key)| && SortBy(xs, key)[at] == x
  {
    SameElements(xs, key);
    at :| at < |SortBy(xs, key)| && SortBy(xs, key)[at] == x;
  }

  lemma OutOfOrder(own: seq<Emission>, i: nat, j: nat)
    requires i < |own| && j < |own| && FirstSeen()(own[i]) > FirstSeen()(own[j])
    requires own[i].event.repeatIndex < own[j].event.repeatIndex
    ensures !Ascending(Numbers(SortBy(own, FirstSeen())))
  {
    hide SortBy;
    var f := FirstSeen();
    var p := PlaceIn(own, f, own[i]);
    var q := PlaceIn(own, f, own[j]);
    SortSorted(own, f);
    var sorted := SortBy(own, f);
    assert q < p by {
      assert f(sorted[q]) < f(sorted[p]);
    }
    hide SortedBy;
    assert Numbers(sorted)[q] > Numbers(sorted)[p];
  }

  lemma NumberAt(own: seq<Emission>, start: nat, i: nat)
    requires Numbers(own) == Counting(start, |own|) && i < |own|
    ensures own[i].event.repeatIndex == start + i
  {
    assert Numbers(own)[i] == start + i;
  }

  /** Sorting consecutive numbers by something else leaves them ascending exactly when they were in that order already. */
  lemma AscendingWhenSorted(own: seq<Emission>, start: nat)
    requires Numbers(own) == Counting(start, |own|)
    ensures Ascending(Numbers(SortBy(own, FirstSeen()))) <==> SortedBy(own, FirstSeen())
  {
    hide SortBy;
    var f := FirstSeen();
    if SortedBy(own, f) {
      SortOfSorted(own, f);
      assert Ascending(Counting(start, |own|));
    } else {
      var i, j :| 0 <= i < j < |own| && f(own[i]) > f(own[j]);
      hide Numbers, Counting, Ascending;
      NumberAt(own, start, i);
      NumberAt(own, start, j);
      OutOfOrder(own, i, j);
    }
  }

  /** A message's events are finished in the order they were first seen. */
  ghost predicate InStep(out: seq<Emission>, key: Wire) {
    forall i, j :: 0 <= i < j < |out| && out[i].event.key == out[j].event.key == key ==>
      out[i].event.firstSeen <= out[j].event.firstSeen
  }

  lemma {:induction false} SubSorted(out: seq<Emission>, key: Wire)
    ensures SortedBy(Sub(out, key), FirstSeen()) <==> InStep(out, key)
  {
    SubUnfold(out, key);
    hide Sub;
    assert out == [] ==> InStep(out, key);
    hide InStep;
    if out != [] {
      var rest := out[1..];
      SubSorted(rest, key);
      StepFront(out, key);
      if out[0].event.key == key {
        SortedFront(out[0], Sub(rest, key));
        SubHolds(rest, key);
      }
    }
  }

  lemma SortedFront(x: Emission, xs: seq<Emission>)
    ensures SortedBy([x] + xs, FirstSeen()) <==> SortedBy(xs, FirstSeen()) && forall y :: y in xs ==> FirstSeen()(x) <= FirstSeen()(y)
  {
    var all, f := [x] + xs, FirstSeen();
    if SortedBy(all, f) {
      forall i, j | 0 <= i < j < |xs| ensures f(xs[i]) <= f(xs[j]) {
        assert xs[i] == all[i + 1] && xs[j] == all[j + 1];
      }
      forall y | y in xs ensures f(x) <= f(y) {
        var k :| 0 <= k < |xs| && xs[k] == y;
        assert all[0] == x && all[k + 1] == y;
      }
    }
  }

  lemma StepFront(out: seq<Emission>, key: Wire)
    requires out != []
    ensures InStep(out, key) <==>
            (InStep(out[1..], key) &&
             (out[0].event.key == key ==> forall y :: y in out[1..] && y.event.key == key ==> out[0].event.firstSeen <= y.event.firstSeen))
  {
    var rest := out[1..];
    assert forall i :: 0 <= i < |rest| ==> rest[i] == out[i + 1];
    assert forall j :: 0 < j < |out| ==> out[j] == rest[j - 1];
    if InStep(out, key) && out[0].event.key == key {
      forall y | y in rest && y.event.key == key ensures out[0].event.firstSeen <= y.event.firstSeen {
        var k :| 0 <= k < |rest| && rest[k] == y;
        assert out[k + 1] == y;
      }
    }
  }

  lemma {:induction false} SubHolds(out: seq<Emission>, key: Wire)
    ensures forall x :: x in Sub(out, key) <==> x in out && x.event.key == key
  {
    if out != [] {
      SubHolds(out[1..], key);
      SubStep(out, key);
    }
  }

  // ------------------------------------------------------------------ what can overtake

  ghost predicate ReKeyed(e: Emission) { e.event.key != e.bucket.key }

  /**
   * Event i of a message is finished ahead of event j, which was seen first; and either event i's bucket had no verified
   * copy, or one of the two got this message's key from a combination.
   */
  ghost predicate Overtakes(out: seq<Emission>, key: Wire, i: nat, j: nat) {
    i < j < |out| && out[i].event.key == out[j].event.key == key && out[j].event.firstSeen < out[i].event.firstSeen &&
    (!out[i].bucket.hasGood || ReKeyed(out[i]) || ReKeyed(out[j]))
  }

  /** Pending buckets of one message, in the order they opened. */
  ghost predicate PendingInOrder(bs: seq<BucketState>) {
    (forall i :: 0 <= i < |bs| ==> bs[i].openedAt <= bs[i].lastAt) &&
    forall i, j :: 0 <= i < j < |bs| && bs[i].key == bs[j].key ==> bs[i].openedAt <= bs[j].openedAt
  }

  lemma {:induction false} HomeIsFirst(cfg: Config, pending: seq<BucketState>, key: Wire, when: real)
    ensures var home := HomeOf(cfg, pending, key, when);
            home.Some? ==> forall i :: 0 <= i < home.value && pending[i].key == key ==> !Accepts(cfg, pending[i], when)
  {
    hide Accepts;
    if pending != [] {
      HomeIsFirst(cfg, pending[1..], key, when);
      assert forall i :: 0 < i < |pending| ==> pending[i] == pending[1..][i - 1];
    }
  }

  lemma {:induction false} AddAllTimes(b: BucketState, more: seq<Sighting>, from: real)
    requires b.openedAt <= b.lastAt && from <= b.openedAt && forall i :: 0 <= i < |more| ==> from <= more[i].when
    ensures var after := AddAll(b, more); from <= after.openedAt <= b.openedAt && after.openedAt <= after.lastAt
  {
    hide MessageKey;
    if more != [] {
      AddAllTimes(b, more[..|more| - 1], from);
    }
  }

  /** A bucket that refuses a time its successor of the same message would take refuses it as too late. */
  lemma RefusedByFirst(cfg: Config, b: BucketState, c: BucketState, when: real)
    requires Sensible(cfg) && b.sightings != [] && b.openedAt <= b.lastAt && b.openedAt <= c.openedAt
    requires !Accepts(cfg, b, when) && Accepts(cfg, c, when)
    ensures b.openedAt <= when
  {
    Extends(cfg, |b.sightings|);
    hide Extension;
  }

  /** Folding keeps each message's pending buckets in order of opening. */
  lemma FoldKeepsOrder(cfg: Config, pending: seq<BucketState>, b: BucketState, key: Wire)
    requires Sensible(cfg) && NonEmpty(pending) && PendingInOrder(pending) && GoodBucket(b) && !b.hasGood
    requires HomeOf(cfg, pending, key, b.openedAt).Some?
    ensures var home := HomeOf(cfg, pending, key, b.openedAt).value;
            var after := pending[home := AddAll(pending[home], b.sightings)];
            PendingInOrder(after) && NonEmpty(after) && forall i :: 0 <= i < |after| ==> after[i].key == pending[i].key
  {
    hide Accepts, BucketOf, Homogeneous, AddAll, MessageKey;
    BucketMeaning(b.sightings);
    HomeIsFirst(cfg, pending, key, b.openedAt);
    var home := HomeOf(cfg, pending, key, b.openedAt).value;
    var h := pending[home];
    var from := MinReal(h.openedAt, b.openedAt);
    AddAllTimes(h, b.sightings, from);
    AddAllSightings(h, b.sightings);
    AddDamaged(h, b.sightings);
    forall i | 0 <= i < home && pending[i].key == h.key ensures pending[i].openedAt <= b.openedAt {
      RefusedByFirst(cfg, pending[i], h, b.openedAt);
    }
  }

  /** What settling keeps: no event yet of a verified bucket, and the pending ones in order. */
  ghost predicate Settled(em: Emitting) {
    PendingInOrder(em.pending) && NonEmpty(em.pending) && forall i :: 0 <= i < |em.out| ==> !em.out[i].bucket.hasGood
  }

  lemma SettleKeepsOrder(cfg: Config, em: Emitting, b: BucketState, now: real)
    requires Sensible(cfg) && Settled(em) && GoodBucket(b) && b.sightings != [] && !b.hasGood
    ensures Settled(Settle(cfg, em, b, now))
  {
    hide Build, Accepts, GoodBucket, AddAll, MessageKey, PendingInOrder, NonEmpty;
    var event := Build(cfg, b);
    if event.combined {
      var key := MessageKey(event.packet);
      if HomeOf(cfg, em.pending, key, b.openedAt).Some? {
        FoldKeepsOrder(cfg, em.pending, b, key);
      }
    }
  }

  lemma {:induction false} SettleAllKeepsOrder(cfg: Config, em: Emitting, damaged: seq<BucketState>, now: real)
    requires Sensible(cfg) && Settled(em) && Damaged(damaged) && NonEmpty(damaged)
    ensures Settled(SettleAll(cfg, em, damaged, now))
  {
    hide Settle, GoodBucket, Settled;
    if damaged != [] {
      var n := |damaged| - 1;
      SettleAllKeepsOrder(cfg, em, damaged[..n], now);
      SettleKeepsOrder(cfg, SettleAll(cfg, em, damaged[..n], now), damaged[n], now);
    }
  }

  /** The pending buckets are finished as they stand, after what was settled. */
  ghost predicate FinishedAs(cfg: Config, before: seq<Emission>, out: seq<Emission>, bs: seq<BucketState>) {
    |out| == |before| + |bs| && before <= out &&
    forall k :: 0 <= k < |bs| ==>
      bs[k].sightings != [] &&
      out[|before| + k].bucket == bs[k] && out[|before| + k].event.firstSeen == bs[k].openedAt &&
      out[|before| + k].event.key == KeyOf(Build(cfg, bs[k]))
  }

  lemma {:induction false} FinishAllLayout(cfg: Config, em: Emitting, bs: seq<BucketState>, now: real)
    requires NonEmpty(bs)
    ensures FinishedAs(cfg, em.out, FinishAll(cfg, em, bs, now).out, bs)
  {
    hide Build, Finish;
    if bs != [] {
      var n := |bs| - 1;
      FinishAllLayout(cfg, em, bs[..n], now);
      var mid := FinishAll(cfg, em, bs[..n], now);
      FinishLast(cfg, mid, bs[n], now);
      LayoutGrows(cfg, em.out, mid.out, bs, FinishAll(cfg, em, bs, now).out);
    }
  }

  lemma FinishLast(cfg: Config, em: Emitting, b: BucketState, now: real)
    requires b.sightings != []
    ensures var out := Finish(em, b, Build(cfg, b), now).out;
            |out| == |em.out| + 1 && out[..|em.out|] == em.out && out[|em.out|].bucket == b &&
            out[|em.out|].event.firstSeen == b.openedAt && out[|em.out|].event.key == KeyOf(Build(cfg, b))
  {
    hide MessageKey, CombineOf, Views, HopsMin, HopsMax, Closest, BestGood;
  }

  lemma LayoutGrows(cfg: Config, before: seq<Emission>, mid: seq<Emission>, bs: seq<BucketState>, out: seq<Emission>)
    requires bs != [] && bs[|bs| - 1].sightings != [] && FinishedAs(cfg, before, mid, bs[..|bs| - 1])
    requires |out| == |mid| + 1 && out[..|mid|] == mid && out[|mid|].bucket == bs[|bs| - 1]
    requires out[|mid|].event.firstSeen == bs[|bs| - 1].openedAt && out[|mid|].event.key == KeyOf(Build(cfg, bs[|bs| - 1]))
    ensures FinishedAs(cfg, before, out, bs)
  {
    hide Build, KeyOf;
    assert forall i :: 0 <= i < |mid| ==> out[i] == mid[i];
  }

  lemma StartsInOrder(cfg: Config, done: seq<BucketState>)
    requires NonEmpty(done) && GoodBuckets(done)
    ensures var sorted := SortBy(done, Opened());
            PendingInOrder(Filter(sorted, true)) && NonEmpty(Filter(sorted, true)) && Damaged(Filter(sorted, false)) &&
            NonEmpty(Filter(sorted, false))
  {
    hide GoodBucket;
    var sorted := SortBy(done, Opened());
    SortNonEmpty(done);
    SortGood(done);
    SortSorted(done, Opened());
    FilterNonEmpty(sorted, true);
    FilterNonEmpty(sorted, false);
    FilterGood(sorted, true);
    FilterGood(sorted, false);
    FilterSorted(sorted, true);
    var pending := Filter(sorted, true);
    forall i | 0 <= i < |pending| ensures pending[i].openedAt <= pending[i].lastAt {
      OpensFirst(pending[i]);
    }
  }

  lemma OpensFirst(b: BucketState)
    requires GoodBucket(b)
    ensures b.openedAt <= b.lastAt
  {
    BucketMeaning(b.sightings);
    hide BucketOf, Homogeneous;
    assert b.openedAt <= b.sightings[0].when <= b.lastAt;
  }

  lemma {:induction false} FilterSorted(bs: seq<BucketState>, good: bool)
    requires SortedBy(bs, Opened())
    ensures forall i, j :: 0 <= i < j < |Filter(bs, good)| ==> Filter(bs, good)[i].openedAt <= Filter(bs, good)[j].openedAt
    ensures forall x :: x in Filter(bs, good) ==> x in bs
  {
    if bs != [] {
      var n := |bs| - 1;
      FilterSorted(bs[..n], good);
      forall x | x in Filter(bs[..n], good) ensures x.openedAt <= bs[n].openedAt {
        var k :| 0 <= k < n && bs[..n][k] == x;
        assert Opened()(bs[k]) <= Opened()(bs[n]);
      }
    }
  }

  /** Only such an overtaking puts a message's events out of step. */
  lemma OutOfStepExactly(cfg: Config, st: FusionState, done: seq<BucketState>, now: real, key: Wire)
    requires Sensible(cfg) && NonEmpty(done) && GoodBuckets(done)
    ensures var out := Emit(cfg, st, done, now).out;
            InStep(out, key) <==> forall i: nat, j: nat :: !Overtakes(out, key, i, j)
  {
    hide GoodBuckets, SettleAll, FinishAll, Filter, SortBy, Settle, Build, KeyOf;
    var sorted := SortBy(done, Opened());
    StartsInOrder(cfg, done);
    SortNonEmpty(done);
    var damaged, start := Filter(sorted, false), Emitting(st, Filter(sorted, true), [], []);
    assert Settled(start);
    SettleAllKeepsOrder(cfg, start, damaged, now);
    SettleKeepsPending(cfg, start, damaged, now);
    var settled := SettleAll(cfg, start, damaged, now);
    FinishAllLayout(cfg, settled, settled.pending, now);
    LayoutOvertakes(cfg, settled, FinishAll(cfg, settled, settled.pending, now).out, key);
  }

  lemma LayoutOvertakes(cfg: Config, em: Emitting, out: seq<Emission>, key: Wire)
    requires Settled(em) && FinishedAs(cfg, em.out, out, em.pending)
    ensures InStep(out, key) <==> forall i: nat, j: nat :: !Overtakes(out, key, i, j)
  {
    hide Build, KeyOf, NonEmpty;
    var n := |em.out|;
    if !InStep(out, key) {
      var i, j :| 0 <= i < j < |out| && out[i].event.key == out[j].event.key == key && out[i].event.firstSeen > out[j].event.firstSeen;
      if i < n {
        assert em.out[i] == out[i];
      } else {
        assert out[n + (i - n)].bucket == em.pending[i - n] && out[n + (j - n)].bucket == em.pending[j - n];
      }
      assert Overtakes(out, key, i, j);
    }
  }

  /** The table as a call leaves it before finishing anything, and what it finishes. */
  ghost function Closing(cfg: Config, st: FusionState, op: Op): Emitting
    requires Sane(st) && !op.Add?
  {
    if op.Pop? then PopStep(cfg, st, op.now) else FlushStep(cfg, st, op.now)
  }

  ghost function Due(cfg: Config, st: FusionState, op: Op): seq<BucketState>
    requires !op.Add?
  {
    if op.Pop? then PopDone(cfg, st, op.now) else st.ready + Buckets(st.open)
  }

  /**
   * What a caller gets. The numbers one call returns for a message are exactly the next consecutive ones, each once; and
   * in the order returned, by first sighting, they ascend exactly when no event overtakes one first seen before it.
   */
  lemma NumbersOfOneCall(cfg: Config, st: FusionState, op: Op, key: Wire)
    requires Sensible(cfg) && Inv(st) && !op.Add?
    ensures Sane(st)
    ensures var out := Closing(cfg, st, op).out;
            var numbers := NumbersOf(Events(out), key);
            var first := NextNumber(ClosedAtStart(cfg, st.closed, op), key);
            multiset(numbers) == multiset(Counting(first, |numbers|)) &&
            (Ascending(numbers) <==> forall i: nat, j: nat :: !Overtakes(out, key, i, j))
  {
    hide GoodBucket, Overtakes, Ascending, NumbersOf, Events, Sub, Numbers, InStep, SortBy, Emit, StillOpen,
         ClosedBuckets, DistinctKeys, Buckets, SortedBy;
    InvSane(st);
    DueIsGood(cfg, st, op);
    var done := Due(cfg, st, op);
    var rest := if op.Pop? then PopRest(cfg, st, op.now) else st.(open := [], ready := []);
    var out := Closing(cfg, st, op).out;
    EmitCounts(cfg, rest, done, op.now, key);
    OutOfStepExactly(cfg, rest, done, op.now, key);
    var own := Sub(out, key);
    NumbersReturned(out, key);
    AscendingWhenSorted(own, NextNumber(rest.closed, key));
    SubSorted(out, key);
    SameNumbers(own);
  }

  /** What a caller can check beforehand: when every bucket due has a verified copy and keeps its key, the numbers ascend. */
  lemma VerifiedCallsAscend(cfg: Config, st: FusionState, op: Op, key: Wire)
    requires Sensible(cfg) && Inv(st) && !op.Add? && AllKeep(cfg, Due(cfg, st, op))
    requires forall i :: 0 <= i < |Due(cfg, st, op)| ==> Due(cfg, st, op)[i].hasGood
    ensures Sane(st) && Ascending(NumbersOf(Events(Closing(cfg, st, op).out), key))
  {
    hide GoodBucket, Ascending, NumbersOf, Events, Emit, StillOpen, ClosedBuckets, DistinctKeys, Buckets, KeepsKey;
    InvSane(st);
    DueIsGood(cfg, st, op);
    NumbersOfOneCall(cfg, st, op, key);
    var done := Due(cfg, st, op);
    var rest := if op.Pop? then PopRest(cfg, st, op.now) else st.(open := [], ready := []);
    NoneOvertakes(cfg, rest, done, op.now, key);
  }

  lemma NoneOvertakes(cfg: Config, st: FusionState, done: seq<BucketState>, now: real, key: Wire)
    requires NonEmpty(done) && AllKeep(cfg, done) && forall i :: 0 <= i < |done| ==> done[i].hasGood
    ensures forall i: nat, j: nat :: !Overtakes(Emit(cfg, st, done, now).out, key, i, j)
  {
    hide KeepsKey, Build, KeyOf, SortBy, FinishAll;
    var sorted := SortBy(done, Opened());
    SortNonEmpty(done);
    SameElements(done, Opened());
    forall i | 0 <= i < |sorted| ensures sorted[i].hasGood && KeepsKey(cfg, sorted[i]) {
      assert sorted[i] in done;
    }
    FilterAllGood(sorted);
    var start := Emitting(st, sorted, [], []);
    assert SettleAll(cfg, start, [], now) == start;
    FinishAllLayout(cfg, start, sorted, now);
    var out := FinishAll(cfg, start, sorted, now).out;
    assert Emit(cfg, st, done, now).out == out;
    forall i | 0 <= i < |out| ensures out[i].bucket.hasGood && !ReKeyed(out[i]) {
      KeptKey(cfg, sorted[i]);
      assert out[0 + i].bucket == sorted[i];
    }
  }

  lemma KeptKey(cfg: Config, b: BucketState)
    requires b.sightings != [] && KeepsKey(cfg, b)
    ensures KeyOf(Build(cfg, b)) == b.key
  {
    BestGoodIsOne(b.sightings);
    hide MessageKey, CombineOf, Views, HopsMin, HopsMax, Closest, BestGood, GoodCopy;
  }

  lemma DueIsGood(cfg: Config, st: FusionState, op: Op)
    requires Inv(st) && !op.Add?
    ensures NonEmpty(Due(cfg, st, op)) && GoodBuckets(Due(cfg, st, op))
  {
    hide BucketOf, Homogeneous;
    InvSane(st);
    if op.Pop? {
      CloseGood(cfg, st.open, op.now - cfg.lateness);
      PopDoneNonEmpty(cfg, st, op.now);
    }
  }

  lemma {:induction false} InsertNumbers(e: Emission, xs: seq<Emission>)
    ensures multiset(Numbers(Insert(e, xs, FirstSeen()))) == multiset{e.event.repeatIndex} + multiset(Numbers(xs))
    ensures |Insert(e, xs, FirstSeen())| == |xs| + 1
  {
    if xs == [] || FirstSeen()(e) <= FirstSeen()(xs[0]) {
      NumbersFront(e, xs);
    } else {
      InsertNumbers(e, xs[1..]);
      NumbersFront(xs[0], Insert(e, xs[1..], FirstSeen()));
      NumbersFront(xs[0], xs[1..]);
      assert [xs[0]] + xs[1..] == xs;
    }
  }

  lemma NumbersFront(e: Emission, xs: seq<Emission>)
    ensures multiset(Numbers([e] + xs)) == multiset{e.event.repeatIndex} + multiset(Numbers(xs))
  {
    assert Numbers([e] + xs) == [e.event.repeatIndex] + Numbers(xs);
  }

  lemma {:induction false} SameNumbers(own: seq<Emission>)
    ensures multiset(Numbers(SortBy(own, FirstSeen()))) == multiset(Numbers(own))
    ensures |SortBy(own, FirstSeen())| == |own|
  {
    if own != [] {
      SameNumbers(own[1..]);
      InsertNumbers(own[0], SortBy(own[1..], FirstSeen()));
      NumbersFront(own[0], own[1..]);
      hide Insert, Numbers;
      assert [own[0]] + own[1..] == own;
    }
  }
}
