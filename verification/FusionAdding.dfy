/** Where a copy goes, said of the buckets and their copies rather than of the lookups that find them. */
module FusionAdding {
  import opened Common
  import opened Packets
  import opened Plm
  import opened Combine
  import opened Fusion
  import opened FusionProofs
  import opened FusionRuns
  import opened FusionNumbering

  // ------------------------------------------------------------------ which times a bucket takes

  /** From the earliest to the latest copy. */
  ghost predicate Span(ss: seq<Sighting>, first: real, last: real) {
    (forall i :: 0 <= i < |ss| ==> first <= ss[i].when <= last) &&
    (exists i :: 0 <= i < |ss| && ss[i].when == first) && exists i :: 0 <= i < |ss| && ss[i].when == last
  }

  lemma SpanDecides(ss: seq<Sighting>, first: real, last: real, window: real, extended: real, cap: real, when: real)
    requires Span(ss, first, last)
    ensures first - window <= when <==> exists i :: 0 <= i < |ss| && ss[i].when - window <= when
    ensures when <= last + extended <==> exists i :: 0 <= i < |ss| && when <= ss[i].when + extended
    ensures when <= first + cap <==> forall i :: 0 <= i < |ss| ==> when <= ss[i].when + cap
  {
  }

  /** How long after a copy another still belongs with it: the window, and what each copy past the first has earned. */
  function Reach(cfg: Config, copies: nat): real
    requires copies > 0
  {
    cfg.window + cfg.extend * (copies - 1) as real
  }

  lemma TimesOf(cfg: Config, ss: seq<Sighting>)
    requires ss != []
    ensures var b := BucketOf(ss);
            Span(ss, b.openedAt, b.lastAt) && Deadline(cfg, b) == MinReal(b.lastAt + Reach(cfg, |ss|), b.openedAt + cfg.maxWindow)
  {
    hide BucketOf, Reach, Deadline;
    BucketTimes(ss);
    DeadlineReaches(cfg, BucketOf(ss));
  }

  lemma DeadlineReaches(cfg: Config, b: BucketState)
    requires b.sightings != []
    ensures Deadline(cfg, b) == MinReal(b.lastAt + Reach(cfg, |b.sightings|), b.openedAt + cfg.maxWindow)
  {
    assert Extension(cfg, |b.sightings|) == cfg.extend * (|b.sightings| - 1) as real;
    hide Extension;
  }

  /**
   * A bucket of these copies takes one sent at `when` exactly when that is no more than the window before one of them, no
   * more than the reach after one of them, and no more than the cap after every one.
   */
  lemma JoinsExactlyWhen(cfg: Config, ss: seq<Sighting>, when: real)
    requires ss != []
    ensures Accepts(cfg, BucketOf(ss), when) <==>
            (exists i :: 0 <= i < |ss| && ss[i].when - cfg.window <= when) &&
            (exists i :: 0 <= i < |ss| && when <= ss[i].when + Reach(cfg, |ss|)) &&
            forall i :: 0 <= i < |ss| ==> when <= ss[i].when + cfg.maxWindow
  {
    hide BucketOf, Span, Reach, Deadline;
    TimesOf(cfg, ss);
    var b := BucketOf(ss);
    SpanDecides(ss, b.openedAt, b.lastAt, cfg.window, Reach(cfg, |ss|), cfg.maxWindow, when);
  }

  /** At `now` it is finished exactly when that is past its reach after every copy or past the cap after one. */
  lemma FinishedExactlyWhen(cfg: Config, ss: seq<Sighting>, now: real)
    requires ss != []
    ensures IsClosed(cfg, BucketOf(ss), now) <==>
            (forall i :: 0 <= i < |ss| ==> now > ss[i].when + Reach(cfg, |ss|)) ||
            exists i :: 0 <= i < |ss| && now > ss[i].when + cfg.maxWindow
  {
    hide BucketOf, Span, Reach, Deadline;
    TimesOf(cfg, ss);
    var b := BucketOf(ss);
    SpanDecides(ss, b.openedAt, b.lastAt, cfg.window, Reach(cfg, |ss|), cfg.maxWindow, now);
  }

  /** What a bucket is compared by: the first of its longest copies. */
  lemma {:induction false} ReferenceIsLongest(ss: seq<Sighting>) returns (k: nat)
    requires ss != []
    ensures k < |ss| && BucketOf(ss).refBits == ss[k].bits
    ensures (forall i :: 0 <= i < |ss| ==> |ss[i].bits| <= |ss[k].bits|) && forall i :: 0 <= i < k ==> |ss[i].bits| < |ss[k].bits|
  {
    hide MessageKey;
    k := 0;
    var n := |ss| - 1;
    if n > 0 {
      k := ReferenceIsLongest(ss[..n]);
      if |ss[n].bits| > |ss[k].bits| {
        k := n;
      }
    }
  }

  // ------------------------------------------------------------------ one copy

  /** Positions in which two copies differ, over what both have. */
  function Gap(a: Bits, b: Bits): nat { Differences(a, b, Min(|a|, |b|)) }

  /** By its bits alone the copy may be of this bucket: not both verified, the time right, and at most twelve symbols apart. */
  ghost predicate MayJoin(cfg: Config, b: BucketState, s: Sighting) {
    !(s.packet.Verified() && b.hasGood) && Accepts(cfg, b, s.when) &&
    |s.bits| >= MIN_COMPARE_BITS && |b.refBits| >= MIN_COMPARE_BITS && Gap(s.bits, b.refBits) <= 12
  }

  /** It is put into the first of the nearest buckets it may join, or into a new one under its own key. */
  ghost predicate Placed(cfg: Config, open: seq<Slot>, s: Sighting, after: seq<Slot>) {
    if cfg.allowCombine && exists i :: 0 <= i < |open| && MayJoin(cfg, open[i].bucket, s) then
      exists i :: 0 <= i < |open| && NearestOf(cfg, open, s, i) && after == open[i := Slot(open[i].key, AddTo(open[i].bucket, s))]
    else after == open + [Slot(MessageKey(s.packet), NewBucket(MessageKey(s.packet), s))]
  }

  ghost predicate NearestOf(cfg: Config, open: seq<Slot>, s: Sighting, i: int)
    requires 0 <= i < |open|
  {
    MayJoin(cfg, open[i].bucket, s) &&
    forall j :: 0 <= j < |open| && MayJoin(cfg, open[j].bucket, s) ==>
      var near, other := Gap(s.bits, open[i].bucket.refBits), Gap(s.bits, open[j].bucket.refBits);
      near < other || (near == other && i <= j)
  }

  lemma SimilarityExactly(cfg: Config, b: BucketState, s: Sighting)
    ensures Similarity(cfg, b, s) == if MayJoin(cfg, b, s) then Some(Gap(s.bits, b.refBits)) else None
  {
    hide Accepts, Differences, Packet.Verified;
  }

  lemma {:induction false} NearestExactly(cfg: Config, open: seq<Slot>, s: Sighting, n: nat)
    requires n <= |open|
    ensures var near := Nearest(cfg, open, s, n);
            if near.Far? then forall j :: 0 <= j < n ==> !MayJoin(cfg, open[j].bucket, s)
            else near.slot < n && MayJoin(cfg, open[near.slot].bucket, s) && near.distance == Gap(s.bits, open[near.slot].bucket.refBits) &&
                 forall j :: 0 <= j < n && MayJoin(cfg, open[j].bucket, s) ==>
                   near.distance < Gap(s.bits, open[j].bucket.refBits) ||
                   (near.distance == Gap(s.bits, open[j].bucket.refBits) && near.slot <= j)
  {
    hide Similarity, MayJoin, Gap;
    if n > 0 {
      NearestExactly(cfg, open, s, n - 1);
      SimilarityExactly(cfg, open[n - 1].bucket, s);
    }
  }

  lemma PlaceExactly(cfg: Config, open: seq<Slot>, s: Sighting)
    ensures Placed(cfg, open, s, Place(cfg, open, MessageKey(s.packet), s))
  {
    hide MayJoin, Gap, MessageKey, AddTo, NewBucket;
    NearestExactly(cfg, open, s, |open|);
    var near := Nearest(cfg, open, s, |open|);
    hide Nearest;
    if near.Near? {
      assert NearestOf(cfg, open, s, near.slot);
    }
  }

  ghost predicate HasSlot(open: seq<Slot>, key: Wire) { exists i :: 0 <= i < |open| && open[i].key == key }

  // ------------------------------------------------------------------ over runs: which copies are late

  /** Entry e is the latest finished event of this message. */
  ghost predicate LatestOf(log: seq<Entry>, key: Wire, e: nat) {
    e < |log| && log[e].emission.event.key == key && forall j :: e < j < |log| ==> log[j].emission.event.key != key
  }

  /** A message's latest event, which no pop has forgotten, lies within the window of this time. */
  ghost predicate JustFinished(cfg: Config, ops: seq<Op>, log: seq<Entry>, key: Wire, when: real) {
    exists e: nat :: LatestOf(log, key, e) && !ForgottenBy(cfg, ops, log[e], |ops|) && Around(cfg, log[e].emission.event, when)
  }

  ghost predicate Around(cfg: Config, event: FusedEvent, when: real) {
    event.firstSeen - cfg.window <= when <= event.lastSeen + cfg.window
  }

  lemma LatestIsLastOf(log: seq<Entry>, key: Wire, e: nat)
    ensures LatestOf(log, key, e) <==> LastOf(log, key) == Some(e)
  {
  }

  lemma StragglerExactly(cfg: Config, ops: seq<Op>, s: Sighting)
    ensures var run, key := Exec(cfg, ops), MessageKey(s.packet);
            Straggler(cfg, run.st.closed, key, s) <==> s.packet.Verified() && JustFinished(cfg, ops, run.log, key, s.when)
  {
    hide Exec, LastOf, AllNumbered, ForgottenBy, MessageKey, Packet.Verified, LatestOf;
    NumberingOfRuns(cfg, ops);
    var run, key := Exec(cfg, ops), MessageKey(s.packet);
    assert Tracks(cfg, ops, run.st.closed, run.log, key);
    forall e: nat ensures LatestOf(run.log, key, e) <==> LastOf(run.log, key) == Some(e) {
      LatestIsLastOf(run.log, key, e);
    }
  }

  /** What adding a copy to a run does, in the order the code asks. */
  ghost predicate AddedAs(cfg: Config, ops: seq<Op>, run: Run, s: Sighting, after: Run) {
    var open, key := run.st.open, MessageKey(s.packet);
    after.log == run.log && after.adds == run.adds + [s] && after.st.closed == run.st.closed && after.st.folded == run.st.folded &&
    if HasSlot(open, key) then
      exists i :: 0 <= i < |open| && open[i].key == key && after.dropped == run.dropped && after.st.late == run.st.late &&
        if Accepts(cfg, open[i].bucket, s.when) then
          after.st.open == open[i := Slot(key, AddTo(open[i].bucket, s))] && after.st.ready == run.st.ready
        else
          Placed(cfg, open[..i] + open[i + 1..], s, after.st.open) && after.st.ready == run.st.ready + [open[i].bucket]
    else if s.packet.Verified() && JustFinished(cfg, ops, run.log, key, s.when) then
      after.st.open == open && after.st.ready == run.st.ready && after.dropped == run.dropped + [s] &&
      forall r :: LateOf(after.st.late, r) == LateOf(run.st.late, r) + if r == s.receiver then 1 else 0
    else
      Placed(cfg, open, s, after.st.open) && after.st.ready == run.st.ready && after.dropped == run.dropped && after.st.late == run.st.late
  }

  lemma OneMoreLate(late: map<string, nat>, receiver: string)
    ensures forall r :: LateOf(CountLate(late, receiver), r) == LateOf(late, r) + if r == receiver then 1 else 0
  {
  }

  lemma SlotExactly(open: seq<Slot>, key: Wire)
    ensures HasSlot(open, key) <==> SlotOf(open, key).Some?
  {
    hide SlotOf;
    if SlotOf(open, key).Some? {
      assert open[SlotOf(open, key).value].key == key;
    }
  }

  /**
   * After any run: a copy joins its message's open bucket if there is one that takes it; ends the bucket and is placed anew
   * if there is one that does not; otherwise it is counted late exactly when it is verified and its message's latest event
   * was finished within the window of it and not forgotten since; otherwise it is placed in a bucket.
   */
  lemma AddExactly(cfg: Config, ops: seq<Op>, s: Sighting)
    ensures AddedAs(cfg, ops, Exec(cfg, ops), s, Exec(cfg, ops + [Add(s)]))
  {
    hide Exec, Inv, Placed, Place, Accepts, AddTo, NewBucket, MessageKey, Packet.Verified, Straggler, JustFinished, SlotOf,
         HasSlot, CountLate, LateOf;
    var run, key := Exec(cfg, ops), MessageKey(s.packet);
    AfterAdd(cfg, ops, s);
    StragglerExactly(cfg, ops, s);
    SlotExactly(run.st.open, key);
    AddCases(cfg, run.st, s);
    hide AddStep;
    var at := SlotOf(run.st.open, key);
    if at.Some? {
      PlaceExactly(cfg, run.st.open[..at.value] + run.st.open[at.value + 1..], s);
      assert run.st.open[at.value].key == key;
      assert run.dropped + [] == run.dropped;
    } else {
      PlaceExactly(cfg, run.st.open, s);
      OneMoreLate(run.st.late, s.receiver);
      assert run.dropped + [] == run.dropped;
    }
  }

  lemma AfterAdd(cfg: Config, ops: seq<Op>, s: Sighting)
    ensures var run := Exec(cfg, ops);
            Exec(cfg, ops + [Add(s)]) == Run(AddStep(cfg, run.st, s), run.log, run.adds + [s], run.dropped + AddDrops(cfg, run.st, s))
  {
    hide AddStep, AddDrops, Inv;
    assert (ops + [Add(s)])[..|ops|] == ops;
  }

  /**
   * So a verified copy whose message has no open bucket is late exactly when the message's latest remembered event lies
   * within the window of it; otherwise it is the last copy of an open bucket.
   */
  lemma LateExactlyWhen(cfg: Config, ops: seq<Op>, s: Sighting)
    requires s.packet.Verified() && !HasSlot(Exec(cfg, ops).st.open, MessageKey(s.packet))
    ensures var run, after := Exec(cfg, ops), Exec(cfg, ops + [Add(s)]);
            if JustFinished(cfg, ops, run.log, MessageKey(s.packet), s.when) then
              after.dropped == run.dropped + [s] && after.st.open == run.st.open
            else
              after.dropped == run.dropped && exists i :: 0 <= i < |after.st.open| && EndsWith(after.st.open[i].bucket, s)
  {
    hide Exec, JustFinished, MessageKey, Packet.Verified, MayJoin, HasSlot, AddTo, NewBucket, LateOf;
    AddExactly(cfg, ops, s);
    var run, after := Exec(cfg, ops), Exec(cfg, ops + [Add(s)]);
    if !JustFinished(cfg, ops, run.log, MessageKey(s.packet), s.when) {
      PlacedHolds(cfg, run.st.open, s, after.st.open);
    }
  }

  ghost predicate EndsWith(b: BucketState, s: Sighting) { b.sightings != [] && b.sightings[|b.sightings| - 1] == s }

  lemma PlacedHolds(cfg: Config, open: seq<Slot>, s: Sighting, after: seq<Slot>)
    requires Placed(cfg, open, s, after)
    ensures exists i :: 0 <= i < |after| && EndsWith(after[i].bucket, s)
  {
    hide MayJoin, NearestOf, MessageKey;
    if cfg.allowCombine && exists i :: 0 <= i < |open| && MayJoin(cfg, open[i].bucket, s) {
      var i :| 0 <= i < |open| && NearestOf(cfg, open, s, i) && after == open[i := Slot(open[i].key, AddTo(open[i].bucket, s))];
      assert EndsWith(after[i].bucket, s);
    } else {
      assert EndsWith(after[|open|].bucket, s);
    }
  }
}
