/** What every step of fusion keeps. */
module FusionProofs {
  import opened Packets
  import opened Plm
  import opened Sorting
  import opened Combine
  import opened Fusion

  // ------------------------------------------------------------------ a bucket is its sightings

  /** The bucket that gathering these sightings in this order gives. */
  ghost function BucketOf(ss: seq<Sighting>): (b: BucketState)
    requires ss != []
    ensures b.sightings == ss
  {
    if |ss| == 1 then
      assert ss == [] + [ss[0]];
      NewBucket(MessageKey(ss[0].packet), ss[0])
    else
      assert ss == ss[..|ss| - 1] + [ss[|ss| - 1]];
      AddTo(BucketOf(ss[..|ss| - 1]), ss[|ss| - 1])
  }

  lemma BucketGrows(ss: seq<Sighting>, s: Sighting)
    requires ss != []
    ensures AddTo(BucketOf(ss), s) == BucketOf(ss + [s])
  {
    assert (ss + [s])[..|ss|] == ss;
  }

  lemma {:induction false} BucketGrowsAll(ss: seq<Sighting>, more: seq<Sighting>)
    requires ss != []
    ensures AddAll(BucketOf(ss), more) == BucketOf(ss + more)
  {
    hide AddTo, BucketOf;
    if more == [] {
      assert ss + more == ss;
    } else {
      var n := |more| - 1;
      BucketGrowsAll(ss, more[..n]);
      BucketGrows(ss + more[..n], more[n]);
      assert ss + more[..n] + [more[n]] == ss + more;
    }
  }

  ghost predicate AnyVerified(ss: seq<Sighting>) { exists i :: 0 <= i < |ss| && ss[i].packet.Verified() }

  /** The key of the last verified copy, or of the opener when there is none. */
  ghost function LatestKey(ss: seq<Sighting>): Wire
    requires ss != []
  {
    var s := ss[|ss| - 1];
    if |ss| == 1 || s.packet.Verified() then MessageKey(s.packet) else LatestKey(ss[..|ss| - 1])
  }

  /** What a bucket's fields mean. */
  lemma BucketMeaning(ss: seq<Sighting>)
    requires ss != []
    ensures var b := BucketOf(ss);
            b.key == LatestKey(ss) && (b.hasGood <==> AnyVerified(ss)) &&
            (forall i :: 0 <= i < |ss| ==> b.openedAt <= ss[i].when <= b.lastAt) &&
            (exists i :: 0 <= i < |ss| && ss[i].when == b.openedAt) &&
            (exists i :: 0 <= i < |ss| && ss[i].when == b.lastAt)
  {
    BucketKey(ss);
    BucketTimes(ss);
  }

  lemma {:induction false} BucketKey(ss: seq<Sighting>)
    requires ss != []
    ensures BucketOf(ss).key == LatestKey(ss) && (BucketOf(ss).hasGood <==> AnyVerified(ss))
  {
    hide MessageKey, AnyVerified;
    var n := |ss| - 1;
    LastVerified(ss);
    if n > 0 {
      BucketKey(ss[..n]);
    }
  }

  lemma LastVerified(ss: seq<Sighting>)
    requires ss != []
    ensures AnyVerified(ss) <==> ss[|ss| - 1].packet.Verified() || (|ss| > 1 && AnyVerified(ss[..|ss| - 1]))
  {
    var n := |ss| - 1;
    if AnyVerified(ss) && !ss[n].packet.Verified() {
      var k :| 0 <= k < |ss| && ss[k].packet.Verified();
      assert ss[..n][k].packet.Verified();
    }
    if AnyVerified(ss[..n]) {
      var k :| 0 <= k < n && ss[..n][k].packet.Verified();
      assert ss[k].packet.Verified();
    }
  }

  lemma {:induction false} BucketTimes(ss: seq<Sighting>)
    requires ss != []
    ensures var b := BucketOf(ss);
            (forall i :: 0 <= i < |ss| ==> b.openedAt <= ss[i].when <= b.lastAt) &&
            (exists i :: 0 <= i < |ss| && ss[i].when == b.openedAt) &&
            (exists i :: 0 <= i < |ss| && ss[i].when == b.lastAt)
  {
    hide MessageKey;
    var n := |ss| - 1;
    var b := BucketOf(ss);
    if n == 0 {
      assert ss[0].when == b.openedAt;
    } else {
      BucketTimes(ss[..n]);
      var before := BucketOf(ss[..n]);
      assert b.openedAt == MinReal(before.openedAt, ss[n].when) && b.lastAt == MaxReal(before.lastAt, ss[n].when);
      hide BucketOf;
      var i :| 0 <= i < n && ss[..n][i].when == before.openedAt;
      var j :| 0 <= j < n && ss[..n][j].when == before.lastAt;
      assert ss[if b.openedAt == before.openedAt then i else n].when == b.openedAt;
      assert ss[if b.lastAt == before.lastAt then j else n].when == b.lastAt;
      assert forall k :: 0 <= k < n ==> ss[..n][k] == ss[k];
    }
  }

  /** A bucket opened by a verified copy only ever holds verified copies of that message. */
  ghost predicate Homogeneous(ss: seq<Sighting>) {
    ss != [] && ss[0].packet.Verified() ==>
      forall i :: 0 <= i < |ss| && ss[i].packet.Verified() ==> MessageKey(ss[i].packet) == MessageKey(ss[0].packet)
  }

  ghost predicate GoodBucket(b: BucketState) {
    b.sightings != [] && b == BucketOf(b.sightings) && Homogeneous(b.sightings)
  }

  ghost predicate GoodBuckets(bs: seq<BucketState>) { forall i :: 0 <= i < |bs| ==> GoodBucket(bs[i]) }

  ghost predicate GoodSlot(slot: Slot) {
    GoodBucket(slot.bucket) && slot.key == MessageKey(slot.bucket.sightings[0].packet)
  }

  ghost predicate DistinctKeys(open: seq<Slot>) {
    forall i, j :: 0 <= i < j < |open| ==> open[i].key != open[j].key
  }

  ghost predicate GoodOpen(open: seq<Slot>) {
    (forall i :: 0 <= i < |open| ==> GoodSlot(open[i])) && DistinctKeys(open)
  }

  /** What every reachable state satisfies. */
  ghost predicate Inv(st: FusionState) { GoodOpen(st.open) && GoodBuckets(st.ready) }

  lemma InvSane(st: FusionState)
    requires Inv(st)
    ensures Sane(st)
  {
  }

  lemma {:induction false} OpenerKey(ss: seq<Sighting>)
    requires ss != [] && Homogeneous(ss) && ss[0].packet.Verified()
    ensures LatestKey(ss) == MessageKey(ss[0].packet)
  {
    hide MessageKey;
    if |ss| > 1 && !ss[|ss| - 1].packet.Verified() {
      OpenerKey(ss[..|ss| - 1]);
    }
  }

  lemma HomogeneousGrows(ss: seq<Sighting>, s: Sighting)
    requires ss != [] && Homogeneous(ss)
    requires ss[0].packet.Verified() && s.packet.Verified() ==> MessageKey(s.packet) == MessageKey(ss[0].packet)
    ensures Homogeneous(ss + [s])
  {
    hide MessageKey;
  }

  /**
   * A slot's key is its opener's. So the bucket in it still has that key exactly when its last verified copy, if it
   * has one, is of the opener's message; a bucket opened by a verified copy always does.
   */
  lemma SlotKeyExactlyWhen(slot: Slot)
    requires GoodSlot(slot)
    ensures var ss := slot.bucket.sightings;
            (slot.key == slot.bucket.key <==> LatestKey(ss) == MessageKey(ss[0].packet)) &&
            (ss[0].packet.Verified() ==> slot.key == slot.bucket.key)
  {
    BucketMeaning(slot.bucket.sightings);
    if slot.bucket.sightings[0].packet.Verified() {
      OpenerKey(slot.bucket.sightings);
    }
  }

  /** No message has two open buckets that were both opened by verified copies. */
  lemma OneBucketPerMessage(st: FusionState, i: nat, j: nat)
    requires Inv(st) && i < |st.open| && j < |st.open|
    requires st.open[i].bucket.sightings[0].packet.Verified() && st.open[j].bucket.sightings[0].packet.Verified()
    requires st.open[i].bucket.key == st.open[j].bucket.key
    ensures i == j
  {
    SlotKeyExactlyWhen(st.open[i]);
    SlotKeyExactlyWhen(st.open[j]);
  }

  // ------------------------------------------------------------------ add keeps the invariant

  lemma AddToSlotGood(open: seq<Slot>, i: nat, s: Sighting)
    requires GoodOpen(open) && i < |open|
    requires open[i].bucket.sightings[0].packet.Verified() && s.packet.Verified() ==> MessageKey(s.packet) == open[i].key
    ensures GoodOpen(AddToSlot(open, i, s))
  {
    hide MessageKey, Homogeneous;
    var ss := open[i].bucket.sightings;
    BucketGrows(ss, s);
    HomogeneousGrows(ss, s);
    hide AddTo, BucketOf;
    var after := AddToSlot(open, i, s);
    assert after[i].bucket.sightings == ss + [s];
    assert GoodSlot(after[i]);
  }

  /** A bucket that can take a verified copy by similarity has none yet. */
  lemma NearIsOpen(cfg: Config, open: seq<Slot>, s: Sighting)
    requires GoodOpen(open)
    ensures var near := Nearest(cfg, open, s, |open|);
            near.Near? && s.packet.Verified() ==> !open[near.slot].bucket.sightings[0].packet.Verified()
  {
    hide Nearest, Accepts, Distance;
    var near := Nearest(cfg, open, s, |open|);
    if near.Near? {
      var ss := open[near.slot].bucket.sightings;
      BucketMeaning(ss);
      assert ss[0].packet.Verified() ==> AnyVerified(ss);
    }
  }

  lemma PlaceGood(cfg: Config, open: seq<Slot>, s: Sighting)
    requires GoodOpen(open) && forall i :: 0 <= i < |open| ==> open[i].key != MessageKey(s.packet)
    ensures GoodOpen(Place(cfg, open, MessageKey(s.packet), s))
  {
    hide MessageKey, Nearest, GoodBucket;
    var key := MessageKey(s.packet);
    var near := if cfg.allowCombine then Nearest(cfg, open, s, |open|) else Far;
    if near.Near? {
      NearIsOpen(cfg, open, s);
      AddToSlotGood(open, near.slot, s);
    } else {
      FreshGood(s);
    }
  }

  lemma FreshGood(s: Sighting)
    ensures GoodBucket(NewBucket(MessageKey(s.packet), s))
    ensures NewBucket(MessageKey(s.packet), s).sightings == [s]
  {
    assert [] + [s] == [s];
    hide MessageKey;
    assert NewBucket(MessageKey(s.packet), s) == BucketOf([s]);
  }

  lemma RemoveSlotGood(open: seq<Slot>, i: nat)
    requires GoodOpen(open) && i < |open|
    ensures GoodOpen(open[..i] + open[i + 1..])
    ensures var rest := open[..i] + open[i + 1..]; forall j :: 0 <= j < |rest| ==> rest[j].key != open[i].key
  {
    hide GoodSlot;
    var rest := open[..i] + open[i + 1..];
    assert forall j :: 0 <= j < |rest| ==> rest[j] == if j < i then open[j] else open[j + 1];
  }

  lemma AddKeepsInv(cfg: Config, st: FusionState, s: Sighting)
    requires Inv(st)
    ensures Inv(AddStep(cfg, st, s))
  {
    hide MessageKey, Place, Accepts, GoodBucket, Straggler, AddToSlot;
    var key := MessageKey(s.packet);
    var at := SlotOf(st.open, key);
    if at.Some? {
      AddToSlotGood(st.open, at.value, s);
      RemoveSlotGood(st.open, at.value);
      PlaceGood(cfg, st.open[..at.value] + st.open[at.value + 1..], s);
    } else {
      PlaceGood(cfg, st.open, s);
    }
  }

  // ------------------------------------------------------------------ emitting keeps the invariant

  ghost predicate NoneVerified(ss: seq<Sighting>) { !AnyVerified(ss) }

  lemma DamagedJoins(b: BucketState, more: seq<Sighting>)
    requires GoodBucket(b) && NoneVerified(more)
    ensures GoodBucket(AddAll(b, more)) && AddAll(b, more).sightings == b.sightings + more
    ensures AddAll(b, more).key == b.key && AddAll(b, more).hasGood == b.hasGood
  {
    hide MessageKey, AddAll, BucketOf;
    BucketGrowsAll(b.sightings, more);
    assert forall i :: 0 <= i < |more| ==> !more[i].packet.Verified();
    AddDamaged(b, more);
    HomogeneousWith(b.sightings, more);
  }

  lemma HomogeneousWith(ss: seq<Sighting>, more: seq<Sighting>)
    requires ss != [] && Homogeneous(ss) && forall i :: 0 <= i < |more| ==> !more[i].packet.Verified()
    ensures Homogeneous(ss + more)
  {
    hide MessageKey;
    var all := ss + more;
    forall i | |ss| <= i < |all| ensures !all[i].packet.Verified() {
      assert all[i] == more[i - |ss|];
    }
  }

  lemma {:induction false} AddDamaged(b: BucketState, more: seq<Sighting>)
    requires forall i :: 0 <= i < |more| ==> !more[i].packet.Verified()
    ensures AddAll(b, more).key == b.key && AddAll(b, more).hasGood == b.hasGood
  {
    hide MessageKey;
    if more != [] {
      AddDamaged(b, more[..|more| - 1]);
    }
  }

  ghost predicate Damaged(bs: seq<BucketState>) {
    GoodBuckets(bs) && forall i :: 0 <= i < |bs| ==> !bs[i].hasGood
  }

  ghost predicate EmittingInv(em: Emitting) { Inv(em.st) && GoodBuckets(em.pending) }

  lemma SettleKeepsInv(cfg: Config, em: Emitting, b: BucketState, now: real)
    requires EmittingInv(em) && GoodBucket(b) && !b.hasGood
    ensures EmittingInv(Settle(cfg, em, b, now))
  {
    hide MessageKey, Build, Accepts, AddAll, BucketOf, Homogeneous;
    BucketMeaning(b.sightings);
    var event := Build(cfg, b);
    if event.combined {
      var key := MessageKey(event.packet);
      var home := HomeOf(cfg, em.pending, key, b.openedAt);
      var live := SlotOf(em.st.open, key);
      if home.Some? {
        DamagedJoins(em.pending[home.value], b.sightings);
      } else if live.Some? {
        DamagedJoins(em.st.open[live.value].bucket, b.sightings);
      }
    }
  }

  lemma {:induction false} SettleAllKeepsInv(cfg: Config, em: Emitting, damaged: seq<BucketState>, now: real)
    requires EmittingInv(em) && Damaged(damaged) && NonEmpty(damaged)
    ensures EmittingInv(SettleAll(cfg, em, damaged, now))
  {
    hide GoodBucket, Settle, Inv;
    if damaged != [] {
      var n := |damaged| - 1;
      SettleAllKeepsInv(cfg, em, damaged[..n], now);
      SettleKeepsInv(cfg, SettleAll(cfg, em, damaged[..n], now), damaged[n], now);
    }
  }

  lemma {:induction false} FinishAllKeepsState(cfg: Config, em: Emitting, bs: seq<BucketState>, now: real)
    requires NonEmpty(bs)
    ensures var after := FinishAll(cfg, em, bs, now);
            after.st.open == em.st.open && after.st.ready == em.st.ready && after.st.late == em.st.late &&
            after.dropped == em.dropped
  {
    hide Build;
    if bs != [] {
      FinishAllKeepsState(cfg, em, bs[..|bs| - 1], now);
    }
  }

  lemma {:induction false} FilterGood(bs: seq<BucketState>, good: bool)
    requires GoodBuckets(bs)
    ensures GoodBuckets(Filter(bs, good))
    ensures forall i :: 0 <= i < |Filter(bs, good)| ==> Filter(bs, good)[i].hasGood == good
    ensures forall x :: x in Filter(bs, good) ==> x in bs
  {
    hide GoodBucket;
    if bs != [] {
      FilterGood(bs[..|bs| - 1], good);
    }
  }

  lemma SortGood(bs: seq<BucketState>)
    requires GoodBuckets(bs)
    ensures GoodBuckets(SortBy(bs, Opened()))
  {
    hide GoodBucket;
    SameElements(bs, Opened());
    var sorted := SortBy(bs, Opened());
    forall i | 0 <= i < |sorted| ensures GoodBucket(sorted[i]) {
      assert sorted[i] in bs;
    }
  }

  lemma EmitKeepsInv(cfg: Config, st: FusionState, done: seq<BucketState>, now: real)
    requires Inv(st) && GoodBuckets(done) && NonEmpty(done)
    ensures Inv(Emit(cfg, st, done, now).st)
  {
    hide GoodBucket, GoodOpen, SettleAll, FinishAll, Filter, SortBy;
    var sorted := SortBy(done, Opened());
    SortGood(done);
    SortNonEmpty(done);
    FilterGood(sorted, true);
    FilterGood(sorted, false);
    FilterNonEmpty(sorted, true);
    FilterNonEmpty(sorted, false);
    var start := Emitting(st, Filter(sorted, true), [], []);
    SettleAllKeepsInv(cfg, start, Filter(sorted, false), now);
    SettleKeepsPending(cfg, start, Filter(sorted, false), now);
    var settled := SettleAll(cfg, start, Filter(sorted, false), now);
    FinishAllKeepsState(cfg, settled, settled.pending, now);
  }

  lemma {:induction false} CloseGood(cfg: Config, open: seq<Slot>, now: real)
    requires GoodOpen(open)
    ensures GoodBuckets(ClosedBuckets(cfg, open, now)) && GoodOpen(StillOpen(cfg, open, now))
    ensures forall i :: 0 <= i < |StillOpen(cfg, open, now)| ==>
              StillOpen(cfg, open, now)[i] in open && !IsClosed(cfg, StillOpen(cfg, open, now)[i].bucket, now)
  {
    hide GoodBucket, IsClosed;
    if open != [] {
      CloseGood(cfg, open[..|open| - 1], now);
    }
  }

  lemma PopKeepsInv(cfg: Config, st: FusionState, now: real)
    requires Inv(st)
    ensures Sane(st) && Inv(PopStep(cfg, st, now).st)
  {
    hide BucketOf, Homogeneous, Emit, StillOpen, ClosedBuckets;
    CloseGood(cfg, st.open, now - cfg.lateness);
    ClosedNonEmpty(cfg, st.open, now - cfg.lateness);
    EmitKeepsInv(cfg, st.(open := StillOpen(cfg, st.open, now - cfg.lateness), ready := [],
                          closed := Remembered(cfg, st.closed, now)),
                 st.ready + ClosedBuckets(cfg, st.open, now - cfg.lateness), now);
  }

  lemma FlushKeepsInv(cfg: Config, st: FusionState, now: real)
    requires Inv(st)
    ensures Sane(st) && Inv(FlushStep(cfg, st, now).st)
  {
    hide BucketOf, Homogeneous, Emit;
    EmitKeepsInv(cfg, st.(open := [], ready := []), st.ready + Buckets(st.open), now);
  }
}
