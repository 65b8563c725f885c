/** Whole runs of fusion: conservation of sightings, bounded retention, and the corner cases of bucket keys. */
module FusionRuns {
  import opened Packets
  import opened Plm
  import opened Sorting
  import opened Sums
  import opened Combine
  import opened Fusion
  import opened FusionProofs

  // ------------------------------------------------------------------ counting sightings

  type Which = Sighting -> bool

  function One(p: Which): Sighting -> int { (s: Sighting) => if p(s) then 1 else 0 }

  /** How many of these sightings `p` picks. */
  function Copies(ss: seq<Sighting>, p: Which): int { Sum(ss, One(p)) }

  function InBucket(p: Which): BucketState -> int { (b: BucketState) => Copies(b.sightings, p) }

  function InSlot(p: Which): Slot -> int { (slot: Slot) => Copies(slot.bucket.sightings, p) }

  function InEmission(p: Which): Emission -> int { (e: Emission) => Copies(e.bucket.sightings, p) }

  function Held(st: FusionState, p: Which): int { Sum(st.open, InSlot(p)) + Sum(st.ready, InBucket(p)) }

  /** Everything a partly emitted state still accounts for. */
  function Account(em: Emitting, p: Which): int {
    Held(em.st, p) + Sum(em.pending, InBucket(p)) + Sum(em.out, InEmission(p)) + Copies(em.dropped, p)
  }

  lemma CopiesOne(s: Sighting, p: Which)
    ensures Copies([s], p) == One(p)(s)
  {
    SumOne(s, One(p));
  }

  lemma AddToCopies(b: BucketState, s: Sighting, p: Which)
    ensures Copies(AddTo(b, s).sightings, p) == Copies(b.sightings, p) + One(p)(s)
  {
    hide MessageKey;
    SumConcat(b.sightings, [s], One(p));
    CopiesOne(s, p);
  }

  lemma AddAllCopies(b: BucketState, more: seq<Sighting>, p: Which)
    ensures Copies(AddAll(b, more).sightings, p) == Copies(b.sightings, p) + Copies(more, p)
  {
    AddAllSightings(b, more);
    SumConcat(b.sightings, more, One(p));
    hide AddAll;
  }

  // ------------------------------------------------------------------ one step

  lemma AddToSlotCopies(open: seq<Slot>, i: nat, s: Sighting, p: Which)
    requires i < |open|
    ensures Sum(AddToSlot(open, i, s), InSlot(p)) == Sum(open, InSlot(p)) + One(p)(s)
  {
    hide AddTo, Copies;
    SumUpdate(open, i, Slot(open[i].key, AddTo(open[i].bucket, s)), InSlot(p));
    AddToCopies(open[i].bucket, s, p);
  }

  lemma PlaceCopies(cfg: Config, open: seq<Slot>, key: Wire, s: Sighting, p: Which)
    ensures Sum(Place(cfg, open, key, s), InSlot(p)) == Sum(open, InSlot(p)) + One(p)(s)
  {
    hide Nearest, Copies, AddToSlot, MessageKey;
    var near := if cfg.allowCombine then Nearest(cfg, open, s, |open|) else Far;
    if near.Near? {
      AddToSlotCopies(open, near.slot, s, p);
    } else {
      var slot := Slot(key, NewBucket(key, s));
      SumConcat(open, [slot], InSlot(p));
      SumOne(slot, InSlot(p));
      assert slot.bucket.sightings == [s];
      CopiesOne(s, p);
    }
  }

  /** The copy `add` counts as late, if it does. */
  function AddDrops(cfg: Config, st: FusionState, s: Sighting): seq<Sighting> {
    var key := MessageKey(s.packet);
    if SlotOf(st.open, key).None? && Straggler(cfg, st.closed, key, s) then [s] else []
  }

  /** Each add is accounted for exactly once: in a bucket, or as late. */
  lemma AddConserves(cfg: Config, st: FusionState, s: Sighting, p: Which)
    ensures Held(AddStep(cfg, st, s), p) + Copies(AddDrops(cfg, st, s), p) == Held(st, p) + One(p)(s)
  {
    hide Place, Accepts, Straggler, AddToSlot, MessageKey, Copies;
    var key := MessageKey(s.packet);
    var at := SlotOf(st.open, key);
    assert Copies([], p) == 0 by { CopiesNone(p); }
    CopiesOne(s, p);
    if at.Some? {
      var i := at.value;
      var rest := st.open[..i] + st.open[i + 1..];
      AddToSlotCopies(st.open, i, s, p);
      PlaceCopies(cfg, rest, key, s, p);
      SumRemove(st.open, i, InSlot(p));
      SumConcat(st.ready, [st.open[i].bucket], InBucket(p));
      SumOne(st.open[i].bucket, InBucket(p));
    } else {
      PlaceCopies(cfg, st.open, key, s, p);
    }
  }

  lemma CopiesNone(p: Which)
    ensures Copies([], p) == 0
  {
  }

  lemma FinishConserves(em: Emitting, b: BucketState, event: FusedEvent, now: real, p: Which)
    ensures Account(Finish(em, b, event, now), p) == Account(em, p) + Copies(b.sightings, p)
  {
    hide MessageKey, Copies;
    var out := Finish(em, b, event, now).out;
    var last := out[|out| - 1];
    SumConcat(em.out, [last], InEmission(p));
    SumOne(last, InEmission(p));
  }

  lemma SettleConserves(cfg: Config, em: Emitting, b: BucketState, now: real, p: Which)
    requires b.sightings != []
    ensures Account(Settle(cfg, em, b, now), p) == Account(em, p) + Copies(b.sightings, p)
  {
    hide MessageKey, Copies, Build, Accepts, Finish, AddAll, CountAllLate;
    var event := Build(cfg, b);
    FinishConserves(em, b, event, now, p);
    var key := MessageKey(event.packet);
    var home := HomeOf(cfg, em.pending, key, b.openedAt);
    var live := SlotOf(em.st.open, key);
    if home.Some? {
      var g := em.pending[home.value];
      AddAllCopies(g, b.sightings, p);
      SumUpdate(em.pending, home.value, AddAll(g, b.sightings), InBucket(p));
    } else if live.Some? {
      var g := em.st.open[live.value].bucket;
      AddAllCopies(g, b.sightings, p);
      SumUpdate(em.st.open, live.value, Slot(key, AddAll(g, b.sightings)), InSlot(p));
    }
    assert Copies(em.dropped + b.sightings, p) == Copies(em.dropped, p) + Copies(b.sightings, p) by {
      CopiesConcat(em.dropped, b.sightings, p);
    }
  }

  lemma CopiesConcat(a: seq<Sighting>, b: seq<Sighting>, p: Which)
    ensures Copies(a + b, p) == Copies(a, p) + Copies(b, p)
  {
    SumConcat(a, b, One(p));
  }

  lemma {:induction false} SettleAllConserves(cfg: Config, em: Emitting, damaged: seq<BucketState>, now: real, p: Which)
    requires NonEmpty(damaged)
    ensures Account(SettleAll(cfg, em, damaged, now), p) == Account(em, p) + Sum(damaged, InBucket(p))
  {
    hide Settle, Account, Copies;
    if damaged != [] {
      var n := |damaged| - 1;
      SettleAllConserves(cfg, em, damaged[..n], now, p);
      SettleConserves(cfg, SettleAll(cfg, em, damaged[..n], now), damaged[n], now, p);
    }
  }

  lemma {:induction false} FinishAllConserves(cfg: Config, em: Emitting, bs: seq<BucketState>, now: real, p: Which)
    requires NonEmpty(bs)
    ensures Account(FinishAll(cfg, em, bs, now), p) == Account(em, p) + Sum(bs, InBucket(p))
    ensures FinishAll(cfg, em, bs, now).pending == em.pending
  {
    hide Finish, Account, Copies, Build;
    if bs != [] {
      var n := |bs| - 1;
      FinishAllConserves(cfg, em, bs[..n], now, p);
      var before := FinishAll(cfg, em, bs[..n], now);
      FinishConserves(before, bs[n], Build(cfg, bs[n]), now, p);
      FinishKeepsPending(before, bs[n], Build(cfg, bs[n]), now);
    }
  }

  lemma {:induction false} FilterSplits(bs: seq<BucketState>, p: Which)
    ensures Sum(Filter(bs, true), InBucket(p)) + Sum(Filter(bs, false), InBucket(p)) == Sum(bs, InBucket(p))
  {
    hide Copies, InBucket, Sum;
    if bs == [] {
      SumNone(InBucket(p));
    } else {
      var n := |bs| - 1;
      FilterSplits(bs[..n], p);
      SumConcat(bs[..n], [bs[n]], InBucket(p));
      assert bs[..n] + [bs[n]] == bs;
      SumConcat(Filter(bs[..n], true), [bs[n]], InBucket(p));
      SumConcat(Filter(bs[..n], false), [bs[n]], InBucket(p));
      SumOne(bs[n], InBucket(p));
      SumNone(InBucket(p));
      SumConcat(Filter(bs[..n], true), [], InBucket(p));
      SumConcat(Filter(bs[..n], false), [], InBucket(p));
    }
  }

  /** What the emitted events, the drops and the state after hold is what the state and the closed buckets held. */
  ghost function After(em: Emitting, p: Which): int {
    Held(em.st, p) + Sum(em.out, InEmission(p)) + Copies(em.dropped, p)
  }

  lemma EmitConserves(cfg: Config, st: FusionState, done: seq<BucketState>, now: real, p: Which)
    requires NonEmpty(done)
    ensures After(Emit(cfg, st, done, now), p) == Held(st, p) + Sum(done, InBucket(p))
  {
    hide Held, Copies, SettleAll, FinishAll, Filter, SortBy;
    var sorted := SortBy(done, Opened());
    SortNonEmpty(done);
    FilterNonEmpty(sorted, true);
    FilterNonEmpty(sorted, false);
    var start := Emitting(st, Filter(sorted, true), [], []);
    SettleAllConserves(cfg, start, Filter(sorted, false), now, p);
    SettleKeepsPending(cfg, start, Filter(sorted, false), now);
    var settled := SettleAll(cfg, start, Filter(sorted, false), now);
    FinishAllConserves(cfg, settled, settled.pending, now, p);
    SumSort(done, Opened(), InBucket(p));
    FilterSplits(sorted, p);
    CopiesNone(p);
  }

  lemma {:induction false} CloseSplits(cfg: Config, open: seq<Slot>, now: real, p: Which)
    ensures Sum(StillOpen(cfg, open, now), InSlot(p)) + Sum(ClosedBuckets(cfg, open, now), InBucket(p))
         == Sum(open, InSlot(p))
  {
    hide Copies, IsClosed, Sum;
    SumNone(InSlot(p));
    SumNone(InBucket(p));
    if open != [] {
      var n := |open| - 1;
      CloseSplits(cfg, open[..n], now, p);
      SumConcat(open[..n], [open[n]], InSlot(p));
      assert open[..n] + [open[n]] == open;
      SumConcat(StillOpen(cfg, open[..n], now), [], InSlot(p));
      SumConcat(ClosedBuckets(cfg, open[..n], now), [], InBucket(p));
      SumConcat(StillOpen(cfg, open[..n], now), [open[n]], InSlot(p));
      SumConcat(ClosedBuckets(cfg, open[..n], now), [open[n].bucket], InBucket(p));
      SumOne(open[n], InSlot(p));
      SumOne(open[n].bucket, InBucket(p));
    }
  }

  lemma {:induction false} BucketsSum(open: seq<Slot>, p: Which)
    ensures Sum(Buckets(open), InBucket(p)) == Sum(open, InSlot(p))
  {
    hide Copies;
    if open != [] {
      BucketsSum(open[..|open| - 1], p);
      assert Buckets(open)[..|open| - 1] == Buckets(open[..|open| - 1]);
    }
  }

  lemma PopConserves(cfg: Config, st: FusionState, now: real, p: Which)
    requires Sane(st)
    ensures After(PopStep(cfg, st, now), p) == Held(st, p)
  {
    hide Copies, Emit, StillOpen, ClosedBuckets;
    var cut := now - cfg.lateness;
    ClosedNonEmpty(cfg, st.open, cut);
    var rest := st.(open := StillOpen(cfg, st.open, cut), ready := [], closed := Remembered(cfg, st.closed, now));
    var done := st.ready + ClosedBuckets(cfg, st.open, cut);
    EmitConserves(cfg, rest, done, now, p);
    SumConcat(st.ready, ClosedBuckets(cfg, st.open, cut), InBucket(p));
    CloseSplits(cfg, st.open, cut, p);
  }

  lemma FlushConserves(cfg: Config, st: FusionState, now: real, p: Which)
    requires Sane(st)
    ensures After(FlushStep(cfg, st, now), p) == Held(st, p)
  {
    hide Copies, Emit;
    EmitConserves(cfg, st.(open := [], ready := []), st.ready + Buckets(st.open), now, p);
    SumConcat(st.ready, Buckets(st.open), InBucket(p));
    BucketsSum(st.open, p);
  }

  // ------------------------------------------------------------------ the counters the program itself keeps

  function From(r: string): Which { (s: Sighting) => s.receiver == r }

  lemma {:induction false} LateCounts(late: map<string, nat>, ss: seq<Sighting>, r: string)
    ensures LateOf(CountAllLate(late, ss), r) == LateOf(late, r) + Copies(ss, From(r))
  {
    if ss != [] {
      LateCounts(late, ss[..|ss| - 1], r);
    }
  }

  function Named(r: string): ReceiverView -> int { (v: ReceiverView) => if v.name == r then v.copies else 0 }

  lemma {:induction false} IntoViewsCounts(views: seq<ReceiverView>, s: Sighting, r: string)
    ensures Sum(IntoViews(views, s), Named(r)) == Sum(views, Named(r)) + One(From(r))(s)
  {
    hide BestRssi, GoodCopy, Sum;
    if views == [] {
      SumOne(IntoViews(views, s)[0], Named(r));
      SumNone(Named(r));
    } else {
      SumFront(views[0], views[1..], Named(r));
      assert views == [views[0]] + views[1..];
      var after := IntoViews(views, s);
      if views[0].name == s.receiver {
        SumFront(after[0], views[1..], Named(r));
        assert after == [after[0]] + views[1..];
      } else {
        IntoViewsCounts(views[1..], s, r);
        SumFront(views[0], IntoViews(views[1..], s), Named(r));
      }
    }
  }

  /** An event's receiver views count its bucket's copies, receiver by receiver. */
  lemma {:induction false} ViewsCount(ss: seq<Sighting>, r: string)
    ensures Sum(Views(ss), Named(r)) == Copies(ss, From(r))
  {
    hide IntoViews;
    if ss != [] {
      ViewsCount(ss[..|ss| - 1], r);
      IntoViewsCounts(Views(ss[..|ss| - 1]), ss[|ss| - 1], r);
    } else {
      SumNone(Named(r));
    }
  }

  /** An emission is its bucket's event, but for the key and the number `_finish` gave it. */
  ghost predicate Faithful(cfg: Config, e: Emission) {
    GoodBucket(e.bucket) && e.event == Build(cfg, e.bucket).(key := e.event.key, repeatIndex := e.event.repeatIndex)
  }

  ghost predicate AllFaithful(cfg: Config, out: seq<Emission>) { forall i :: 0 <= i < |out| ==> Faithful(cfg, out[i]) }

  lemma SettleFaithful(cfg: Config, em: Emitting, b: BucketState, now: real)
    requires GoodBucket(b) && AllFaithful(cfg, em.out)
    ensures AllFaithful(cfg, Settle(cfg, em, b, now).out)
  {
    hide Build, GoodBucket, MessageKey, Accepts, AddAll;
  }

  lemma {:induction false} FinishAllFaithful(cfg: Config, em: Emitting, bs: seq<BucketState>, now: real)
    requires NonEmpty(bs) && GoodBuckets(bs) && AllFaithful(cfg, em.out)
    ensures AllFaithful(cfg, FinishAll(cfg, em, bs, now).out)
  {
    hide Build, GoodBucket, MessageKey;
    if bs != [] {
      FinishAllFaithful(cfg, em, bs[..|bs| - 1], now);
    }
  }

  lemma {:induction false} SettleAllFaithful(cfg: Config, em: Emitting, damaged: seq<BucketState>, now: real)
    requires NonEmpty(damaged) && GoodBuckets(damaged) && AllFaithful(cfg, em.out)
    ensures AllFaithful(cfg, SettleAll(cfg, em, damaged, now).out)
  {
    hide GoodBucket, Settle, Faithful;
    if damaged != [] {
      var n := |damaged| - 1;
      SettleAllFaithful(cfg, em, damaged[..n], now);
      SettleFaithful(cfg, SettleAll(cfg, em, damaged[..n], now), damaged[n], now);
    }
  }

  /** What emitting does to `late` and `folded`: the drops are counted per receiver. */
  ghost predicate LateMatches(before: FusionState, em: Emitting) {
    forall r :: LateOf(em.st.late, r) == LateOf(before.late, r) + Copies(em.dropped, From(r))
  }

  lemma {:induction false} SettleAllLate(cfg: Config, before: FusionState, em: Emitting, damaged: seq<BucketState>, now: real)
    requires NonEmpty(damaged) && LateMatches(before, em)
    ensures LateMatches(before, SettleAll(cfg, em, damaged, now))
  {
    if damaged != [] {
      var n := |damaged| - 1;
      SettleAllLate(cfg, before, em, damaged[..n], now);
      SettleLate(cfg, before, SettleAll(cfg, em, damaged[..n], now), damaged[n], now);
      hide Settle, LateMatches;
    }
  }

  lemma SettleLate(cfg: Config, before: FusionState, em: Emitting, b: BucketState, now: real)
    requires b.sightings != [] && LateMatches(before, em)
    ensures LateMatches(before, Settle(cfg, em, b, now))
  {
    hide Build, MessageKey, Accepts, AddAll, Copies, CountAllLate, LateOf;
    forall r ensures LateOf(CountAllLate(em.st.late, b.sightings), r)
                  == LateOf(before.late, r) + Copies(em.dropped + b.sightings, From(r)) {
      LateCounts(em.st.late, b.sightings, r);
      CopiesConcat(em.dropped, b.sightings, From(r));
    }
  }

  /** The same slots, opened by the same copies. */
  ghost predicate SameOpeners(a: seq<Slot>, b: seq<Slot>) {
    |a| == |b| &&
    forall i :: 0 <= i < |a| ==> a[i].bucket.sightings != [] && b[i].bucket.sightings != [] &&
                                 a[i].bucket.sightings[0] == b[i].bucket.sightings[0]
  }

  lemma SettleOpeners(cfg: Config, em: Emitting, b: BucketState, now: real)
    requires b.sightings != [] && SameOpeners(em.st.open, em.st.open)
    ensures SameOpeners(em.st.open, Settle(cfg, em, b, now).st.open)
  {
    hide Build, MessageKey, Accepts, AddAll;
    forall i | 0 <= i < |em.st.open|
      ensures AddAll(em.st.open[i].bucket, b.sightings).sightings == em.st.open[i].bucket.sightings + b.sightings
    {
      AddAllSightings(em.st.open[i].bucket, b.sightings);
    }
  }

  lemma {:induction false} SettleAllOpeners(cfg: Config, em: Emitting, damaged: seq<BucketState>, now: real)
    requires NonEmpty(damaged) && NonEmpty(Buckets(em.st.open))
    ensures SameOpeners(em.st.open, SettleAll(cfg, em, damaged, now).st.open)
  {
    hide Settle;
    if damaged == [] {
      assert forall i :: 0 <= i < |em.st.open| ==> Buckets(em.st.open)[i].sightings != [];
    } else {
      var n := |damaged| - 1;
      SettleAllOpeners(cfg, em, damaged[..n], now);
      SettleOpeners(cfg, SettleAll(cfg, em, damaged[..n], now), damaged[n], now);
    }
  }

  /** Emitting in one statement: faithful events, late counted, openers kept. */
  lemma EmitFacts(cfg: Config, st: FusionState, done: seq<BucketState>, now: real)
    requires Inv(st) && GoodBuckets(done) && NonEmpty(done)
    ensures var em := Emit(cfg, st, done, now);
            AllFaithful(cfg, em.out) && LateMatches(st, em) && SameOpeners(st.open, em.st.open) && em.st.ready == st.ready
  {
    var sorted := SortBy(done, Opened());
    SortGood(done);
    SortNonEmpty(done);
    FilterGood(sorted, true);
    FilterGood(sorted, false);
    FilterNonEmpty(sorted, true);
    FilterNonEmpty(sorted, false);
    assert NonEmpty(Buckets(st.open));
    var start := Emitting(st, Filter(sorted, true), [], []);
    assert LateMatches(st, start);
    EmitReadyKept(cfg, start, Filter(sorted, false), now);
    hide GoodBucket, GoodSlot, SettleAll, FinishAll, Filter, SortBy, Faithful, LateMatches;
    SettleAllKeepsInv(cfg, start, Filter(sorted, false), now);
    SettleKeepsPending(cfg, start, Filter(sorted, false), now);
    var settled := SettleAll(cfg, start, Filter(sorted, false), now);
    SettleAllFaithful(cfg, start, Filter(sorted, false), now);
    SettleAllLate(cfg, st, start, Filter(sorted, false), now);
    SettleAllOpeners(cfg, start, Filter(sorted, false), now);
    FinishAllKeepsState(cfg, settled, settled.pending, now);
    FinishAllFaithful(cfg, settled, settled.pending, now);
    LateMatchesSame(st, settled, FinishAll(cfg, settled, settled.pending, now));
  }

  lemma LateMatchesSame(before: FusionState, a: Emitting, b: Emitting)
    requires LateMatches(before, a) && a.st.late == b.st.late && a.dropped == b.dropped
    ensures LateMatches(before, b)
  {
  }

  lemma {:induction false} EmitReadyKept(cfg: Config, em: Emitting, damaged: seq<BucketState>, now: real)
    requires NonEmpty(damaged)
    ensures SettleAll(cfg, em, damaged, now).st.ready == em.st.ready
  {
    hide Build, MessageKey, Accepts, AddAll;
    if damaged != [] {
      EmitReadyKept(cfg, em, damaged[..|damaged| - 1], now);
    }
  }

  // ------------------------------------------------------------------ runs

  datatype Op = Add(s: Sighting) | Pop(now: real) | Flush(now: real)

  /** A finished event, the operation that finished it, and when. */
  datatype Entry = Entry(op: nat, at: real, emission: Emission)

  /** The state, and everything that has gone in and out; `log` in finishing order. */
  datatype Run = Run(st: FusionState, log: seq<Entry>, adds: seq<Sighting>, dropped: seq<Sighting>)

  function Entries(op: nat, at: real, out: seq<Emission>): (r: seq<Entry>)
    ensures |r| == |out|
  {
    seq(|out|, i requires 0 <= i < |out| => Entry(op, at, out[i]))
  }

  ghost function Do(cfg: Config, run: Run, op: Op, n: nat): (r: Run)
    requires Inv(run.st)
    ensures Inv(r.st)
  {
    match op
    case Add(s) =>
      AddKeepsInv(cfg, run.st, s);
      Run(AddStep(cfg, run.st, s), run.log, run.adds + [s], run.dropped + AddDrops(cfg, run.st, s))
    case Pop(now) =>
      PopKeepsInv(cfg, run.st, now);
      var em := PopStep(cfg, run.st, now);
      Run(em.st, run.log + Entries(n, now, em.out), run.adds, run.dropped + em.dropped)
    case Flush(now) =>
      FlushKeepsInv(cfg, run.st, now);
      var em := FlushStep(cfg, run.st, now);
      Run(em.st, run.log + Entries(n, now, em.out), run.adds, run.dropped + em.dropped)
  }

  /** Any sequence of calls on a new Fusion. */
  ghost function Exec(cfg: Config, ops: seq<Op>): (r: Run)
    ensures Inv(r.st)
  {
    if ops == [] then Run(EMPTY, [], [], [])
    else Do(cfg, Exec(cfg, ops[..|ops| - 1]), ops[|ops| - 1], |ops| - 1)
  }

  function InEntry(p: Which): Entry -> int { (e: Entry) => Copies(e.emission.bucket.sightings, p) }

  lemma {:induction false} EntriesSum(op: nat, at: real, out: seq<Emission>, p: Which)
    ensures Sum(Entries(op, at, out), InEntry(p)) == Sum(out, InEmission(p))
  {
    hide Copies;
    if out != [] {
      EntriesSum(op, at, out[..|out| - 1], p);
      assert Entries(op, at, out)[..|out| - 1] == Entries(op, at, out[..|out| - 1]);
    }
  }

  /**
   * Conservation: over every run, for every way of picking sightings, the ones added are exactly the ones in finished
   * events, in open or ready buckets, or counted late. Nothing is lost when a slot is reused or a repair folded home.
   */
  lemma {:induction false} Conservation(cfg: Config, ops: seq<Op>, p: Which)
    ensures var run := Exec(cfg, ops);
            Copies(run.adds, p) == Sum(run.log, InEntry(p)) + Held(run.st, p) + Copies(run.dropped, p)
  {
    hide Held, Copies, AddStep, PopStep, FlushStep, AddDrops, Inv;
    if ops == [] {
      CopiesNone(p);
      HeldNone(p);
    } else {
      var n := |ops| - 1;
      Conservation(cfg, ops[..n], p);
      var run := Exec(cfg, ops[..n]);
      match ops[n] {
        case Add(s) =>
          AddConserves(cfg, run.st, s, p);
          CopiesConcat(run.adds, [s], p);
          CopiesOne(s, p);
          CopiesConcat(run.dropped, AddDrops(cfg, run.st, s), p);
        case Pop(now) =>
          InvSane(run.st);
          PopConserves(cfg, run.st, now, p);
          LogGrows(run, n, now, PopStep(cfg, run.st, now), p);
        case Flush(now) =>
          InvSane(run.st);
          FlushConserves(cfg, run.st, now, p);
          LogGrows(run, n, now, FlushStep(cfg, run.st, now), p);
      }
    }
  }

  lemma HeldNone(p: Which)
    ensures Held(EMPTY, p) == 0
  {
  }

  lemma LogGrows(run: Run, n: nat, now: real, em: Emitting, p: Which)
    ensures Sum(run.log + Entries(n, now, em.out), InEntry(p)) == Sum(run.log, InEntry(p)) + Sum(em.out, InEmission(p))
    ensures Copies(run.dropped + em.dropped, p) == Copies(run.dropped, p) + Copies(em.dropped, p)
  {
    SumConcat(run.log, Entries(n, now, em.out), InEntry(p));
    EntriesSum(n, now, em.out, p);
    CopiesConcat(run.dropped, em.dropped, p);
  }

  lemma EmitFactsOfStep(cfg: Config, run: Run, op: Op)
    requires Inv(run.st) && !op.Add?
    ensures Sane(run.st)
    ensures var em := if op.Pop? then PopStep(cfg, run.st, op.now) else FlushStep(cfg, run.st, op.now);
            AllFaithful(cfg, em.out) && LateMatches(run.st, em) && em.st.ready == [] &&
            SameOpeners(if op.Pop? then StillOpen(cfg, run.st.open, op.now - cfg.lateness) else [], em.st.open)
  {
    hide BucketOf, Homogeneous, Emit, StillOpen, ClosedBuckets, Faithful, LateMatches;
    InvSane(run.st);
    if op.Pop? {
      var cut := op.now - cfg.lateness;
      CloseGood(cfg, run.st.open, cut);
      ClosedNonEmpty(cfg, run.st.open, cut);
      var rest := run.st.(open := StillOpen(cfg, run.st.open, cut), ready := [],
                          closed := Remembered(cfg, run.st.closed, op.now));
      EmitFacts(cfg, rest, run.st.ready + ClosedBuckets(cfg, run.st.open, cut), op.now);
      LateMatchesFrom(rest, run.st, PopStep(cfg, run.st, op.now));
    } else {
      var rest := run.st.(open := [], ready := []);
      EmitFacts(cfg, rest, run.st.ready + Buckets(run.st.open), op.now);
      LateMatchesFrom(rest, run.st, FlushStep(cfg, run.st, op.now));
    }
  }

  lemma LateMatchesFrom(a: FusionState, b: FusionState, em: Emitting)
    requires LateMatches(a, em) && a.late == b.late
    ensures LateMatches(b, em)
  {
  }

  ghost predicate FaithfulLog(cfg: Config, log: seq<Entry>) {
    forall i :: 0 <= i < |log| ==> Faithful(cfg, log[i].emission)
  }

  /** The program's own counters say what was dropped. */
  ghost predicate LateIsDropped(run: Run) {
    forall r :: LateOf(run.st.late, r) == Copies(run.dropped, From(r))
  }

  lemma DoCounts(cfg: Config, run: Run, op: Op, n: nat)
    requires Inv(run.st) && FaithfulLog(cfg, run.log) && LateIsDropped(run)
    ensures FaithfulLog(cfg, Do(cfg, run, op, n).log) && LateIsDropped(Do(cfg, run, op, n))
  {
    hide PopStep, FlushStep, Inv, Faithful, Copies, LateOf, AddStep, AddDrops;
    var after := Do(cfg, run, op, n);
    if op.Add? {
      forall r ensures LateOf(after.st.late, r) == Copies(after.dropped, From(r)) {
        AddLate(cfg, run.st, op.s, r);
        CopiesConcat(run.dropped, AddDrops(cfg, run.st, op.s), From(r));
      }
    } else {
      EmitFactsOfStep(cfg, run, op);
      var em := if op.Pop? then PopStep(cfg, run.st, op.now) else FlushStep(cfg, run.st, op.now);
      forall r ensures LateOf(after.st.late, r) == Copies(after.dropped, From(r)) {
        CopiesConcat(run.dropped, em.dropped, From(r));
      }
    }
  }

  /** Over every run `late` counts, per receiver, exactly the dropped copies, and every event is its bucket's. */
  lemma {:induction false} LateAndFaithful(cfg: Config, ops: seq<Op>)
    ensures FaithfulLog(cfg, Exec(cfg, ops).log) && LateIsDropped(Exec(cfg, ops))
  {
    if ops == [] {
      NoneLate();
    } else {
      var n := |ops| - 1;
      LateAndFaithful(cfg, ops[..n]);
      DoCounts(cfg, Exec(cfg, ops[..n]), ops[n], n);
    }
    hide Do, FaithfulLog, LateIsDropped;
  }

  lemma NoneLate()
    ensures forall r :: LateOf(map[], r) == Copies([], From(r)) == 0
  {
  }

  lemma AddLate(cfg: Config, st: FusionState, s: Sighting, r: string)
    ensures LateOf(AddStep(cfg, st, s).late, r) == LateOf(st.late, r) + Copies(AddDrops(cfg, st, s), From(r))
  {
    hide MessageKey, Accepts, Straggler, Place, AddToSlot;
    CopiesOne(s, From(r));
    CopiesNone(From(r));
    hide Copies;
  }

  /** What a finished event says a receiver contributed. */
  function InViews(r: string): Entry -> int { (e: Entry) => Sum(e.emission.event.receivers, Named(r)) }

  /**
   * Receiver by receiver: the copies a receiver contributed to all events, plus those still held, plus `late`, are
   * the sightings it sent in.
   */
  lemma ReceiverConservation(cfg: Config, ops: seq<Op>, r: string)
    ensures var run := Exec(cfg, ops);
            Copies(run.adds, From(r))
            == Sum(run.log, InViews(r)) + Held(run.st, From(r)) + LateOf(run.st.late, r)
  {
    hide Exec, Held, LateOf, Copies;
    var run := Exec(cfg, ops);
    Conservation(cfg, ops, From(r));
    LateAndFaithful(cfg, ops);
    ViewsAreCopies(cfg, run.log, r);
  }

  lemma {:induction false} ViewsAreCopies(cfg: Config, log: seq<Entry>, r: string)
    requires FaithfulLog(cfg, log)
    ensures Sum(log, InViews(r)) == Sum(log, InEntry(From(r)))
  {
    hide BucketOf, Homogeneous, BestGood, Closest, HopsMin, HopsMax, Copies, Views;
    if log != [] {
      var last := log[|log| - 1].emission;
      ViewsAreCopies(cfg, log[..|log| - 1], r);
      ViewsCount(last.bucket.sightings, r);
      assert Faithful(cfg, last);
    }
  }

  // ------------------------------------------------------------------ bounded retention

  lemma DeadlineBound(cfg: Config, b: BucketState)
    requires GoodBucket(b)
    ensures Deadline(cfg, b) <= b.sightings[0].when + cfg.maxWindow
  {
    BucketMeaning(b.sightings);
  }

  /**
   * However late its copies arrive, a bucket does not survive a `pop_ready` whose time is past the on-air time of
   * the copy that opened it by more than the maximal window and the lateness allowance; nor does a ready one.
   */
  lemma NothingOverstays(cfg: Config, ops: seq<Op>, now: real)
    ensures var st := Exec(cfg, ops + [Pop(now)]).st;
            st.ready == [] &&
            forall i :: 0 <= i < |st.open| ==>
              st.open[i].bucket.sightings != [] &&
              now - cfg.lateness <= st.open[i].bucket.sightings[0].when + cfg.maxWindow
  {
    hide Exec, PopStep, GoodOpen, GoodSlot, IsClosed, StillOpen, AllFaithful, LateMatches, Sane, SameOpeners;
    var run := Exec(cfg, ops);
    ExecPop(cfg, ops, now);
    EmitFactsOfStep(cfg, run, Pop(now));
    CloseGood(cfg, run.st.open, now - cfg.lateness);
    StillWithin(cfg, StillOpen(cfg, run.st.open, now - cfg.lateness), Exec(cfg, ops + [Pop(now)]).st.open, now - cfg.lateness);
  }

  lemma StillWithin(cfg: Config, still: seq<Slot>, after: seq<Slot>, cut: real)
    requires GoodOpen(still) && SameOpeners(still, after)
    requires forall i :: 0 <= i < |still| ==> !IsClosed(cfg, still[i].bucket, cut)
    ensures forall i :: 0 <= i < |after| ==> after[i].bucket.sightings != [] && cut <= after[i].bucket.sightings[0].when + cfg.maxWindow
  {
    hide DistinctKeys, BucketOf, Homogeneous, Deadline;
    forall i | 0 <= i < |after|
      ensures after[i].bucket.sightings != [] && cut <= after[i].bucket.sightings[0].when + cfg.maxWindow
    {
      assert GoodSlot(still[i]);
      DeadlineBound(cfg, still[i].bucket);
    }
  }

  lemma ExecPop(cfg: Config, ops: seq<Op>, now: real)
    ensures Sane(Exec(cfg, ops).st) && Exec(cfg, ops + [Pop(now)]).st == PopStep(cfg, Exec(cfg, ops).st, now).st
  {
    assert (ops + [Pop(now)])[..|ops|] == ops;
    InvSane(Exec(cfg, ops).st);
    hide PopStep, Inv;
  }
}
