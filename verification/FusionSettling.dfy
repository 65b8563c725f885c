/** What becomes of each bucket when events are emitted, said of buckets and closed entries rather than of the lookups. */
module FusionSettling {
  import opened Common
  import opened Packets
  import opened Plm
  import opened Sorting
  import opened Fusion
  import opened FusionProofs
  import opened FusionRuns
  import P = FusionPartition
  import S = FusionService

  // ------------------------------------------------------------------ one damaged bucket

  /** The message a damaged bucket's copies combine to, if they combine at all. */
  function RepairedTo(cfg: Config, b: BucketState): Option<Wire>
    requires b.sightings != []
  {
    if Build(cfg, b).combined then Some(MessageKey(Build(cfg, b).packet)) else None
  }

  /** A bucket about to be finished is of this message and takes a copy from the damaged one's opening. */
  ghost predicate PendingTakes(cfg: Config, pending: seq<BucketState>, key: Wire, when: real, i: int) {
    0 <= i < |pending| && pending[i].key == key && Accepts(cfg, pending[i], when)
  }

  /** An open bucket under this message's key does. */
  ghost predicate OpenTakes(cfg: Config, open: seq<Slot>, key: Wire, when: real, i: int) {
    0 <= i < |open| && open[i].key == key && Accepts(cfg, open[i].bucket, when)
  }

  /** An event of this message that has gone lies within the window. */
  ghost predicate GoneTakes(cfg: Config, closed: map<Wire, ClosedKey>, key: Wire, when: real) {
    key in closed && closed[key].first - cfg.window <= when <= closed[key].last + cfg.window
  }

  /** Its copies join pending bucket i, the first that takes them. */
  ghost predicate FoldedPending(cfg: Config, em: Emitting, b: BucketState, key: Wire, i: int, after: Emitting) {
    PendingTakes(cfg, em.pending, key, b.openedAt, i) && (forall j :: j < i ==> !PendingTakes(cfg, em.pending, key, b.openedAt, j)) &&
    after == em.(pending := em.pending[i := AddAll(em.pending[i], b.sightings)], st := em.st.(folded := em.st.folded + 1))
  }

  /** Its copies join open bucket i. */
  ghost predicate FoldedOpen(cfg: Config, em: Emitting, b: BucketState, key: Wire, i: int, after: Emitting) {
    OpenTakes(cfg, em.st.open, key, b.openedAt, i) &&
    after == em.(st := em.st.(folded := em.st.folded + 1,
                              open := em.st.open[i := Slot(key, AddAll(em.st.open[i].bucket, b.sightings))]))
  }

  /** Its copies are counted late, each for its receiver. */
  ghost predicate CountedLate(em: Emitting, b: BucketState, after: Emitting) {
    after == em.(st := em.st.(folded := em.st.folded + 1, late := after.st.late), dropped := em.dropped + b.sightings) &&
    forall r :: LateOf(after.st.late, r) == LateOf(em.st.late, r) + Copies(b.sightings, From(r))
  }

  /** It becomes an event of the message it shows, numbered one past the message's last, or 0 when none is remembered. */
  ghost predicate BecomesEvent(cfg: Config, em: Emitting, b: BucketState, now: real, after: Emitting)
    requires b.sightings != []
  {
    var built := Build(cfg, b);
    var key := if built.combined then MessageKey(built.packet) else built.key;
    var number := if key in em.st.closed then em.st.closed[key].index + 1 else 0;
    after == em.(out := em.out + [Emission(built.(key := key, repeatIndex := number), b)],
                 st := em.st.(closed := em.st.closed[key := ClosedKey(now, number, built.firstSeen, built.lastSeen)]))
  }

  /** Where a damaged bucket's copies go: to a pending bucket, to an open one, to the late ones, or out as an event. */
  ghost predicate SettledAs(cfg: Config, em: Emitting, b: BucketState, now: real, after: Emitting)
    requires b.sightings != []
  {
    var to, when := RepairedTo(cfg, b), b.openedAt;
    if to.Some? && exists i :: PendingTakes(cfg, em.pending, to.value, when, i) then
      exists i :: FoldedPending(cfg, em, b, to.value, i, after)
    else if to.Some? && exists i :: OpenTakes(cfg, em.st.open, to.value, when, i) then
      exists i :: FoldedOpen(cfg, em, b, to.value, i, after)
    else if to.Some? && GoneTakes(cfg, em.st.closed, to.value, when) then
      CountedLate(em, b, after)
    else
      BecomesEvent(cfg, em, b, now, after)
  }

  lemma {:induction false} HomeExactly(cfg: Config, pending: seq<BucketState>, key: Wire, when: real)
    ensures var home := HomeOf(cfg, pending, key, when);
            if home.None? then forall i :: !PendingTakes(cfg, pending, key, when, i)
            else PendingTakes(cfg, pending, key, when, home.value) && forall j :: j < home.value ==> !PendingTakes(cfg, pending, key, when, j)
  {
    hide Accepts;
    if pending != [] && !(pending[0].key == key && Accepts(cfg, pending[0], when)) {
      HomeExactly(cfg, pending[1..], key, when);
      assert forall i :: PendingTakes(cfg, pending, key, when, i) ==> PendingTakes(cfg, pending[1..], key, when, i - 1);
    }
  }

  lemma OpenExactly(cfg: Config, open: seq<Slot>, key: Wire, when: real)
    requires DistinctKeys(open)
    ensures var live := SlotOf(open, key);
            if live.Some? && Accepts(cfg, open[live.value].bucket, when) then OpenTakes(cfg, open, key, when, live.value)
            else forall i :: !OpenTakes(cfg, open, key, when, i)
  {
    hide Accepts, SlotOf;
  }

  /**
   * A damaged bucket becomes an event exactly when its copies do not combine, or combine to a message of which no pending
   * bucket takes its opening, no open bucket does, and no event gone by lies within the window of it. Otherwise its copies
   * go, in that order, to the first such pending bucket, to the open one, or to the late ones.
   */
  lemma SettleExactly(cfg: Config, em: Emitting, b: BucketState, now: real)
    requires b.sightings != [] && DistinctKeys(em.st.open)
    ensures SettledAs(cfg, em, b, now, Settle(cfg, em, b, now))
  {
    hide Build, MessageKey, Accepts, AddAll, HomeOf, SlotOf, PendingTakes, OpenTakes, CountAllLate, LateOf, Copies, DistinctKeys;
    var to := RepairedTo(cfg, b);
    if to.Some? {
      HomeExactly(cfg, em.pending, to.value, b.openedAt);
      OpenExactly(cfg, em.st.open, to.value, b.openedAt);
      forall r ensures LateOf(CountAllLate(em.st.late, b.sightings), r) == LateOf(em.st.late, r) + Copies(b.sightings, From(r)) {
        LateCounts(em.st.late, b.sightings, r);
      }
      var home, live := HomeOf(cfg, em.pending, to.value, b.openedAt), SlotOf(em.st.open, to.value);
      if home.Some? {
        assert FoldedPending(cfg, em, b, to.value, home.value, Settle(cfg, em, b, now));
      } else if live.Some? && Accepts(cfg, em.st.open[live.value].bucket, b.openedAt) {
        assert FoldedOpen(cfg, em, b, to.value, live.value, Settle(cfg, em, b, now));
      }
    }
  }

  // ------------------------------------------------------------------ a whole emission

  /** The buckets of one kind, damaged or verified, in order of opening. */
  ghost predicate InTurn(done: seq<BucketState>, some: seq<BucketState>, good: bool) {
    (forall b :: multiset(some)[b] == if b.hasGood == good then multiset(done)[b] else 0) &&
    (forall i, j :: 0 <= i < j < |some| ==> some[i].openedAt <= some[j].openedAt) &&
    (forall t :: Those(some, OpenedAt(t, good)) == Those(done, OpenedAt(t, good))) && NonEmpty(some)
  }

  function OpenedAt(t: real, good: bool): BucketState -> bool { (b: BucketState) => b.openedAt == t && b.hasGood == good }

  ghost predicate SettledInTurn(cfg: Config, damaged: seq<BucketState>, now: real, steps: seq<Emitting>)
    requires NonEmpty(damaged)
  {
    |steps| == |damaged| + 1 && forall i :: 0 <= i < |damaged| ==> SettledAs(cfg, steps[i], damaged[i], now, steps[i + 1])
  }

  ghost predicate FinishedInTurn(cfg: Config, bs: seq<BucketState>, now: real, steps: seq<Emitting>)
    requires NonEmpty(bs)
  {
    |steps| == |bs| + 1 && forall i :: 0 <= i < |bs| ==> BecomesEvent(cfg, steps[i], bs[i], now, steps[i + 1])
  }

  lemma {:induction false} SettlingExactly(cfg: Config, em: Emitting, damaged: seq<BucketState>, now: real)
      returns (steps: seq<Emitting>)
    requires EmittingInv(em) && Damaged(damaged) && NonEmpty(damaged)
    ensures SettledInTurn(cfg, damaged, now, steps)
    ensures steps[0] == em && steps[|damaged|] == SettleAll(cfg, em, damaged, now)
  {
    hide GoodBucket, Settle, SettledAs, BecomesEvent;
    if damaged == [] {
      steps := [em];
    } else {
      var n := |damaged| - 1;
      var front := damaged[..n];
      var before := SettlingExactly(cfg, em, front, now);
      SettleAllKeepsInv(cfg, em, front, now);
      SettleExactly(cfg, SettleAll(cfg, em, front, now), damaged[n], now);
      steps := before + [SettleAll(cfg, em, damaged, now)];
      forall i | 0 <= i < |damaged| ensures SettledAs(cfg, steps[i], damaged[i], now, steps[i + 1]) {
        if i < n {
          assert SettledAs(cfg, before[i], front[i], now, before[i + 1]);
        }
      }
    }
  }

  lemma FinishExactly(cfg: Config, em: Emitting, b: BucketState, now: real)
    requires b.sightings != []
    ensures BecomesEvent(cfg, em, b, now, Finish(em, b, Build(cfg, b), now))
  {
    hide Build, MessageKey;
  }

  lemma {:induction false} FinishingExactly(cfg: Config, em: Emitting, bs: seq<BucketState>, now: real)
      returns (steps: seq<Emitting>)
    requires NonEmpty(bs)
    ensures FinishedInTurn(cfg, bs, now, steps)
    ensures steps[0] == em && steps[|bs|] == FinishAll(cfg, em, bs, now)
  {
    hide Finish, BecomesEvent, Build;
    if bs == [] {
      steps := [em];
    } else {
      var n := |bs| - 1;
      var front := bs[..n];
      var before := FinishingExactly(cfg, em, front, now);
      FinishExactly(cfg, FinishAll(cfg, em, front, now), bs[n], now);
      steps := before + [FinishAll(cfg, em, bs, now)];
      forall i | 0 <= i < |bs| ensures BecomesEvent(cfg, steps[i], bs[i], now, steps[i + 1]) {
        if i < n {
          assert BecomesEvent(cfg, before[i], front[i], now, before[i + 1]);
        }
      }
    }
  }

  lemma {:induction false} FilterCount(bs: seq<BucketState>, good: bool, b: BucketState)
    ensures multiset(Filter(bs, good))[b] == if b.hasGood == good then multiset(bs)[b] else 0
  {
    if bs == [] {
    } else {
      var front, last := bs[..|bs| - 1], bs[|bs| - 1];
      FilterCount(front, good, b);
      FilterLast(bs, good);
      hide Filter;
      assert bs == front + [last];
      MultisetAppend(front, last);
      MultisetAppend(Filter(front, good), last);
    }
  }

  lemma FilterCounts(bs: seq<BucketState>, good: bool)
    ensures forall b :: multiset(Filter(bs, good))[b] == if b.hasGood == good then multiset(bs)[b] else 0
    ensures forall b :: b in Filter(bs, good) ==> b in bs
  {
    hide Filter;
    forall b ensures multiset(Filter(bs, good))[b] == if b.hasGood == good then multiset(bs)[b] else 0 {
      FilterCount(bs, good, b);
    }
    forall b | b in Filter(bs, good) ensures b in bs {
      assert multiset(Filter(bs, good))[b] > 0;
    }
  }

  lemma {:induction false} FilterSorted(bs: seq<BucketState>, good: bool)
    requires SortedBy(bs, Opened())
    ensures SortedBy(Filter(bs, good), Opened())
  {
    if bs != [] {
      var n := |bs| - 1;
      FilterSorted(bs[..n], good);
      FilterCounts(bs[..n], good);
      forall b | b in bs[..n] ensures b.openedAt <= bs[n].openedAt {
        assert Opened()(b) <= Opened()(bs[n]);
      }
    }
  }

  lemma {:induction false} FilterKeeps(bs: seq<BucketState>, good: bool, t: real)
    ensures Those(Filter(bs, good), OpenedAt(t, good)) == Those(bs, OpenedAt(t, good))
  {
    if bs != [] {
      var n := |bs| - 1;
      FilterKeeps(bs[..n], good, t);
      assert bs == bs[..n] + [bs[n]];
      FilterLast(bs, good);
      hide Those, Filter;
      ThosePush(bs[..n], bs[n], OpenedAt(t, good));
      if bs[n].hasGood == good {
        ThosePush(Filter(bs[..n], good), bs[n], OpenedAt(t, good));
      }
    }
  }

  lemma FilterLast(bs: seq<BucketState>, good: bool)
    requires bs != []
    ensures var n := |bs| - 1; Filter(bs, good) == if bs[n].hasGood == good then Filter(bs[..n], good) + [bs[n]] else Filter(bs[..n], good)
  {
  }

  /** Sorted by opening and dealt out by kind. */
  lemma TurnsKept(done: seq<BucketState>, good: bool)
    requires NonEmpty(Filter(SortBy(done, Opened()), good))
    ensures InTurn(done, Filter(SortBy(done, Opened()), good), good)
  {
    hide NonEmpty, SortBy, Filter, Those;
    var sorted := SortBy(done, Opened());
    var some := Filter(sorted, good);
    SortSorted(done, Opened());
    FilterCounts(sorted, good);
    FilterSorted(sorted, good);
    forall i, j | 0 <= i < j < |some| ensures some[i].openedAt <= some[j].openedAt {
      assert Opened()(some[i]) <= Opened()(some[j]);
    }
    forall t ensures Those(some, OpenedAt(t, good)) == Those(done, OpenedAt(t, good)) {
      SortStable(done, Opened(), OpenedAt(t, good));
      FilterKeeps(sorted, good, t);
    }
    hide SortedBy;
  }

  /**
   * How an emission goes: the damaged buckets are settled one by one in order of opening, while the verified ones pend;
   * then what pends, with all that joined it, becomes events in order of opening.
   */
  ghost predicate EmittedFrom(cfg: Config, st: FusionState, done: seq<BucketState>, now: real, verified: seq<BucketState>,
                              damaged: seq<BucketState>, settling: seq<Emitting>, finishing: seq<Emitting>, em: Emitting) {
    InTurn(done, verified, true) && InTurn(done, damaged, false) && SettledInTurn(cfg, damaged, now, settling) &&
    settling[0] == Emitting(st, verified, [], []) &&
    var pending := settling[|damaged|].pending;
    NonEmpty(pending) && FinishedInTurn(cfg, pending, now, finishing) && finishing[0] == settling[|damaged|] &&
    em == finishing[|pending|]
  }

  lemma EmitExactly(cfg: Config, st: FusionState, done: seq<BucketState>, now: real)
      returns (verified: seq<BucketState>, damaged: seq<BucketState>, settling: seq<Emitting>, finishing: seq<Emitting>)
    requires Inv(st) && GoodBuckets(done) && NonEmpty(done)
    ensures EmittedFrom(cfg, st, done, now, verified, damaged, settling, finishing, Emit(cfg, st, done, now))
  {
    hide GoodBucket, GoodOpen, SettleAll, FinishAll, Filter, SortBy, SettledAs, BecomesEvent, InTurn;
    var sorted := SortBy(done, Opened());
    SortSorted(done, Opened());
    SortGood(done);
    SortNonEmpty(done);
    FilterGood(sorted, true);
    FilterGood(sorted, false);
    FilterNonEmpty(sorted, true);
    FilterNonEmpty(sorted, false);
    TurnsKept(done, true);
    TurnsKept(done, false);
    hide SortedBy, NonEmpty, Opened, InTurn;
    verified, damaged := Filter(sorted, true), Filter(sorted, false);
    var start := Emitting(st, verified, [], []);
    settling := SettlingExactly(cfg, start, damaged, now);
    SettleKeepsPending(cfg, start, damaged, now);
    var settled := SettleAll(cfg, start, damaged, now);
    finishing := FinishingExactly(cfg, settled, settled.pending, now);
  }

  function SeenFirstAt(t: real): FusedEvent -> bool { (e: FusedEvent) => e.firstSeen == t }

  /** A call returns the events it finished, by when they were first seen; of those first seen together, the first finished first. */
  lemma EventsExactly(out: seq<Emission>)
    ensures var events := Events(out);
            multiset(events) == multiset(S.EventsOf(out)) &&
            (forall i, j :: 0 <= i < j < |events| ==> events[i].firstSeen <= events[j].firstSeen) &&
            forall t :: Those(events, SeenFirstAt(t)) == Those(S.EventsOf(out), SeenFirstAt(t))
  {
    hide Events, SortBy, Those;
    var all, key := S.EventsOf(out), (e: FusedEvent) => e.firstSeen;
    S.SortEvents(out);
    SortSorted(all, key);
    forall t ensures Those(Events(out), SeenFirstAt(t)) == Those(all, SeenFirstAt(t)) {
      SortStable(all, key, SeenFirstAt(t));
    }
    var events := Events(out);
    forall i, j | 0 <= i < j < |events| ensures events[i].firstSeen <= events[j].firstSeen {
      assert key(events[i]) <= key(events[j]);
    }
  }

  // ------------------------------------------------------------------ a pop and a flush

  /** The buckets a pop takes: the ready ones and those past their deadline, allowing for lateness; the rest stay. */
  ghost predicate TakenAt(cfg: Config, st: FusionState, now: real, done: seq<BucketState>, still: seq<Slot>) {
    multiset(done) + multiset(Buckets(still)) == multiset(st.ready) + multiset(Buckets(st.open)) && st.ready <= done &&
    (forall i :: |st.ready| <= i < |done| ==> IsClosed(cfg, done[i], now - cfg.lateness)) &&
    forall i :: 0 <= i < |still| ==> still[i] in st.open && !IsClosed(cfg, still[i].bucket, now - cfg.lateness)
  }

  /** What is left of the closed table once everything finished longer ago than the repeat memory is forgotten. */
  ghost predicate ForgottenAt(cfg: Config, before: map<Wire, ClosedKey>, now: real, after: map<Wire, ClosedKey>) {
    forall k :: (k in after <==> k in before && now - before[k].at <= cfg.repeatMemory) && (k in after ==> after[k] == before[k])
  }

  lemma {:induction false} ClosingExactly(cfg: Config, open: seq<Slot>, now: real)
    ensures forall i :: 0 <= i < |ClosedBuckets(cfg, open, now)| ==> IsClosed(cfg, ClosedBuckets(cfg, open, now)[i], now)
    ensures forall i :: 0 <= i < |StillOpen(cfg, open, now)| ==>
              StillOpen(cfg, open, now)[i] in open && !IsClosed(cfg, StillOpen(cfg, open, now)[i].bucket, now)
  {
    hide IsClosed;
    if open != [] {
      ClosingExactly(cfg, open[..|open| - 1], now);
    }
  }

  /** What a pop takes is emitted with the rest still open and old messages forgotten. */
  lemma PopExactly(cfg: Config, st: FusionState, now: real)
      returns (rest: FusionState, done: seq<BucketState>, verified: seq<BucketState>, damaged: seq<BucketState>,
               settling: seq<Emitting>, finishing: seq<Emitting>)
    requires Inv(st)
    ensures Sane(st) && TakenAt(cfg, st, now, done, rest.open) && ForgottenAt(cfg, st.closed, now, rest.closed)
    ensures rest.ready == [] && rest.late == st.late && rest.folded == st.folded
    ensures EmittedFrom(cfg, rest, done, now, verified, damaged, settling, finishing, PopStep(cfg, st, now))
  {
    hide BucketOf, Homogeneous, Emit, StillOpen, ClosedBuckets, IsClosed, GoodBucket, EmittedFrom;
    var cut := now - cfg.lateness;
    InvSane(st);
    CloseGood(cfg, st.open, cut);
    ClosedNonEmpty(cfg, st.open, cut);
    P.CloseMultiset(cfg, st.open, cut);
    ClosingExactly(cfg, st.open, cut);
    rest, done := PopRest(cfg, st, now), PopDone(cfg, st, now);
    verified, damaged, settling, finishing := EmitExactly(cfg, rest, done, now);
  }

  /** A flush emits everything held, and forgets nothing. */
  lemma FlushExactly(cfg: Config, st: FusionState, now: real)
      returns (verified: seq<BucketState>, damaged: seq<BucketState>, settling: seq<Emitting>, finishing: seq<Emitting>)
    requires Inv(st)
    ensures Sane(st)
    ensures EmittedFrom(cfg, st.(open := [], ready := []), st.ready + Buckets(st.open), now, verified, damaged, settling, finishing,
                        FlushStep(cfg, st, now))
  {
    hide BucketOf, Homogeneous, Emit, GoodBucket, EmittedFrom;
    InvSane(st);
    verified, damaged, settling, finishing := EmitExactly(cfg, st.(open := [], ready := []), st.ready + Buckets(st.open), now);
  }
}
