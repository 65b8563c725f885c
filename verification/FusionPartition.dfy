/**
 * Runs whose copies all verify and arrive in on-air order: each message's copies are cut into consecutive buckets, which
 * share at most an instant, and not even that (`tight`) as long as no message is forgotten and no event re-keyed.
 */
module FusionPartition {
  import opened Common
  import opened Packets
  import opened Plm
  import opened Sorting
  import opened Sums
  import opened Combine
  import opened Fusion
  import opened FusionProofs
  import opened FusionRuns
  import opened FusionAdding

  // ------------------------------------------------------------------ the runs in question

  /** Windows are never negative. */
  ghost predicate Sensible(cfg: Config) { cfg.window >= 0.0 && cfg.extend >= 0.0 && cfg.maxWindow >= 0.0 }

  /**
   * Whether the event built from this bucket keeps its key. Only a combined packet can re-key it, and with verified
   * copies nothing is combined unless every one of them has impossible hop fields.
   */
  predicate KeepsKey(cfg: Config, b: BucketState) {
    !cfg.allowCombine || (exists i | 0 <= i < |b.sightings| :: GoodCopy(b.sightings[i])) ||
    CombineOf(b.sightings).None? || MessageKey(CombineOf(b.sightings).value) == b.key
  }

  ghost predicate AllKeep(cfg: Config, bs: seq<BucketState>) { forall i :: 0 <= i < |bs| ==> KeepsKey(cfg, bs[i]) }

  /** The next operation is a verified copy no earlier on the air than the last, or any pop or flush. */
  ghost predicate CleanOp(cfg: Config, run: Run, op: Op, tight: bool) {
    match op
    case Add(s) => s.packet.Verified() && (run.adds != [] ==> run.adds[|run.adds| - 1].when <= s.when)
    case Pop(now) =>
      tight ==> (forall k :: k in run.st.closed ==> now - run.st.closed[k].at <= cfg.repeatMemory) &&
                AllKeep(cfg, PopDone(cfg, run.st, now))
    case Flush(_) => tight ==> AllKeep(cfg, run.st.ready + Buckets(run.st.open))
  }

  ghost predicate CleanRun(cfg: Config, ops: seq<Op>, tight: bool) {
    ops == [] ||
    (CleanRun(cfg, ops[..|ops| - 1], tight) && CleanOp(cfg, Exec(cfg, ops[..|ops| - 1]), ops[|ops| - 1], tight))
  }

  // ------------------------------------------------------------------ clean buckets

  ghost predicate InOrder(ss: seq<Sighting>) {
    forall i, j :: 0 <= i < j < |ss| ==> ss[i].when <= ss[j].when
  }

  ghost predicate AllOfKey(ss: seq<Sighting>, key: Wire) {
    forall i :: 0 <= i < |ss| ==> ss[i].packet.Verified() && MessageKey(ss[i].packet) == key
  }

  /** One message's verified copies in on-air order, from the first to the last, no longer than the cap. */
  ghost predicate CleanBucket(cfg: Config, b: BucketState) {
    GoodBucket(b) && InOrder(b.sightings) && AllOfKey(b.sightings, b.key) && b.hasGood &&
    b.openedAt == b.sightings[0].when && b.lastAt == b.sightings[|b.sightings| - 1].when &&
    b.openedAt <= b.lastAt <= b.openedAt + cfg.maxWindow
  }

  lemma CleanNew(cfg: Config, s: Sighting)
    requires Sensible(cfg) && s.packet.Verified()
    ensures var b := NewBucket(MessageKey(s.packet), s);
            CleanBucket(cfg, b) && b.key == MessageKey(s.packet) && b.openedAt == b.lastAt == s.when
  {
    FreshGood(s);
    hide MessageKey, BucketOf, Homogeneous;
    assert [] + [s] == [s];
  }

  lemma CleanGrows(cfg: Config, b: BucketState, s: Sighting)
    requires Sensible(cfg) && CleanBucket(cfg, b) && s.packet.Verified() && MessageKey(s.packet) == b.key
    requires b.lastAt <= s.when && Accepts(cfg, b, s.when)
    ensures var after := AddTo(b, s);
            CleanBucket(cfg, after) && after.key == b.key && after.openedAt == b.openedAt && after.lastAt == s.when
  {
    BucketGrows(b.sightings, s);
    HomogeneousGrows(b.sightings, s);
    hide MessageKey, BucketOf, Homogeneous, HopsLegal;
    var after := AddTo(b, s);
    assert after == BucketOf(after.sightings);
  }

  // ------------------------------------------------------------------ the invariant

  /** Everything of `b` is before anything of `c`; unless `tight`, they may meet in an instant. */
  ghost predicate Before(b: BucketState, c: BucketState, tight: bool) {
    if tight then b.lastAt < c.openedAt else b.lastAt <= c.openedAt
  }

  /** Buckets of one message follow one another; two alike, which `tight` rules out, are of one instant. */
  ghost predicate Apart(all: multiset<BucketState>, tight: bool) {
    (forall b :: all[b] > 1 ==> Before(b, b, tight)) &&
    forall b, c :: b in all && c in all && b != c && b.key == c.key ==> Before(b, c, tight) || Before(c, b, tight)
  }

  function LogBuckets(log: seq<Entry>): (r: seq<BucketState>)
    ensures |r| == |log|
  {
    seq(|log|, i requires 0 <= i < |log| => log[i].emission.bucket)
  }

  /** All buckets there have ever been: finished, ready and open. */
  ghost function Gathered(run: Run): multiset<BucketState> {
    multiset(LogBuckets(run.log)) + multiset(run.st.ready) + multiset(Buckets(run.st.open))
  }

  ghost predicate LastSeenBy(adds: seq<Sighting>, when: real) {
    adds != [] && when <= adds[|adds| - 1].when
  }

  /** Every bucket is clean and has seen nothing later than the latest copy. */
  ghost predicate Spans(cfg: Config, all: multiset<BucketState>, adds: seq<Sighting>) {
    forall b :: b in all ==> CleanBucket(cfg, b) && LastSeenBy(adds, b.lastAt)
  }

  /** An open bucket is under its own key, and everything else of its message is before it. */
  ghost predicate Latest(open: seq<Slot>, all: multiset<BucketState>, tight: bool) {
    (forall i :: 0 <= i < |open| ==> open[i].key == open[i].bucket.key) &&
    forall i, b :: 0 <= i < |open| && b in all && b != open[i].bucket && b.key == open[i].key ==> Before(b, open[i].bucket, tight)
  }

  /** A retired bucket has been followed by an open one. */
  ghost predicate Followed(ready: seq<BucketState>, open: seq<Slot>) {
    forall i :: 0 <= i < |ready| ==> SlotOf(open, ready[i].key).Some?
  }

  /** What was finished comes before what was retired since. */
  ghost predicate Follows(log: seq<Entry>, ready: seq<BucketState>) {
    forall i, j :: 0 <= i < |log| && 0 <= j < |ready| && log[i].emission.bucket.key == ready[j].key ==>
      Before(log[i].emission.bucket, ready[j], true)
  }

  /** The closed table knows every finished message, up to its last copy at least. */
  ghost predicate Knows(log: seq<Entry>, closed: map<Wire, ClosedKey>) {
    forall i :: 0 <= i < |log| ==>
      log[i].emission.bucket.key in closed && log[i].emission.bucket.lastAt <= closed[log[i].emission.bucket.key].last
  }

  ghost predicate ClosedSeen(closed: map<Wire, ClosedKey>, adds: seq<Sighting>) {
    forall k :: k in closed ==> LastSeenBy(adds, closed[k].first)
  }

  /** An event spans its bucket; its key is its packet's, and its bucket's exactly when nothing re-keyed it. */
  ghost predicate CleanEvent(cfg: Config, e: Emission) {
    e.event.firstSeen == e.bucket.openedAt && e.event.lastSeen == e.bucket.lastAt &&
    e.event.key == MessageKey(e.event.packet) && (e.event.key == e.bucket.key <==> KeepsKey(cfg, e.bucket))
  }

  ghost predicate CleanEvents(cfg: Config, log: seq<Entry>) { forall i :: 0 <= i < |log| ==> CleanEvent(cfg, log[i].emission) }

  ghost predicate Tidy(cfg: Config, run: Run, tight: bool) {
    var all := Gathered(run);
    Inv(run.st) && Apart(all, tight) && Spans(cfg, all, run.adds) && Latest(run.st.open, all, tight) &&
    Followed(run.st.ready, run.st.open) &&
    (tight ==> Follows(run.log, run.st.ready) && Knows(run.log, run.st.closed)) && ClosedSeen(run.st.closed, run.adds) && CleanEvents(cfg, run.log)
  }

  // ------------------------------------------------------------------ adding a clean copy

  /** With every open bucket verified, a verified copy never joins by similarity. */
  lemma {:induction false} NoneNear(cfg: Config, open: seq<Slot>, s: Sighting, n: nat)
    requires n <= |open| && s.packet.Verified() && forall i :: 0 <= i < |open| ==> open[i].bucket.hasGood
    ensures Nearest(cfg, open, s, n) == Far
  {
    hide Distance, Accepts;
    if n > 0 {
      NoneNear(cfg, open, s, n - 1);
    }
  }

  lemma OpenInAll(run: Run, i: nat)
    requires i < |run.st.open|
    ensures run.st.open[i].bucket in Gathered(run)
  {
    assert Buckets(run.st.open)[i] in multiset(Buckets(run.st.open));
  }

  lemma LaterAdds(cfg: Config, run: Run, s: Sighting)
    requires Spans(cfg, Gathered(run), run.adds) && ClosedSeen(run.st.closed, run.adds)
    requires run.adds != [] ==> run.adds[|run.adds| - 1].when <= s.when
    ensures Spans(cfg, Gathered(run), run.adds + [s]) && ClosedSeen(run.st.closed, run.adds + [s])
    ensures forall b :: b in Gathered(run) ==> b.lastAt <= s.when
    ensures forall k :: k in run.st.closed ==> run.st.closed[k].first <= s.when
  {
    hide CleanBucket, Gathered;
  }

  /** The copy joins its message's open bucket. */
  lemma JoinTidy(cfg: Config, run: Run, s: Sighting, i: nat, tight: bool)
    requires Sensible(cfg) && Tidy(cfg, run, tight) && CleanOp(cfg, run, Add(s), tight)
    requires i < |run.st.open| && run.st.open[i].key == MessageKey(s.packet)
    requires Accepts(cfg, run.st.open[i].bucket, s.when)
    requires Inv(run.st.(open := AddToSlot(run.st.open, i, s)))
    ensures Tidy(cfg, Run(run.st.(open := AddToSlot(run.st.open, i, s)), run.log, run.adds + [s], run.dropped), tight)
  {
    hide MessageKey, Inv, HopsLegal, CleanBucket, AddTo, Accepts, Gathered, Apart, Spans, Latest, DistinctKeys, Knows,
         Follows, Followed, CleanEvents, ClosedSeen;
    var after := Run(run.st.(open := AddToSlot(run.st.open, i, s)), run.log, run.adds + [s], run.dropped);
    var b := run.st.open[i].bucket;
    var c := AddTo(b, s);
    forall j | 0 <= j < |run.st.open| ensures run.st.open[j].bucket in Gathered(run) {
      OpenInAll(run, j);
    }
    OwnKey(run.st.open, i, Gathered(run), tight);
    SpanOf(cfg, Gathered(run), run.adds, b);
    LaterAdds(cfg, run, s);
    CleanGrows(cfg, b, s);
    GatheredUpdate(run, i, c, run.adds + [s]);
    InvDistinct(run.st);
    AddToSightings(b, s);
    ReplaceLatest(cfg, run.st.open, Gathered(run), i, c, run.adds + [s], tight);
    FollowedStill(run.st.ready, run.st.open, after.st.open);
  }

  lemma SpanOf(cfg: Config, all: multiset<BucketState>, adds: seq<Sighting>, b: BucketState)
    requires Spans(cfg, all, adds) && b in all
    ensures CleanBucket(cfg, b) && LastSeenBy(adds, b.lastAt)
  {
    hide CleanBucket;
  }

  lemma InvDistinct(st: FusionState)
    requires Inv(st)
    ensures DistinctKeys(st.open)
  {
  }

  lemma GatheredUpdate(run: Run, i: nat, c: BucketState, adds: seq<Sighting>)
    requires i < |run.st.open|
    ensures Gathered(Run(run.st.(open := run.st.open[i := Slot(run.st.open[i].key, c)]), run.log, adds, run.dropped))
         == Gathered(run) - multiset{run.st.open[i].bucket} + multiset{c}
  {
    assert Buckets(run.st.open[i := Slot(run.st.open[i].key, c)]) == Buckets(run.st.open)[i := c];
  }

  lemma FollowedStill(ready: seq<BucketState>, open: seq<Slot>, after: seq<Slot>)
    requires Followed(ready, open) && |open| == |after| && forall i :: 0 <= i < |open| ==> open[i].key == after[i].key
    ensures Followed(ready, after)
  {
  }

  lemma ReplaceLatest(cfg: Config, open: seq<Slot>, all: multiset<BucketState>, i: nat, c: BucketState,
                      adds: seq<Sighting>, tight: bool)
    requires i < |open| && open[i].bucket in all && DistinctKeys(open)
    requires Apart(all, tight) && Latest(open, all, tight) && Spans(cfg, all, adds)
    requires CleanBucket(cfg, c) && c.key == open[i].key && c.openedAt == open[i].bucket.openedAt
    requires c.sightings != open[i].bucket.sightings && LastSeenBy(adds, c.lastAt)
    requires forall j :: 0 <= j < |open| ==> open[j].bucket in all
    ensures var after := all - multiset{open[i].bucket} + multiset{c};
            Apart(after, tight) && Spans(cfg, after, adds) && Latest(open[i := Slot(open[i].key, c)], after, tight)
  {
    hide GoodBucket, InOrder, AllOfKey;
    var b := open[i].bucket;
    var after := all - multiset{b} + multiset{c};
    forall x | x in after ensures x in all || x == c {
    }
    forall x | x in all && x in after && x.key == c.key ensures Before(x, c, tight) {
      if x == b {
        assert all[b] > 1;
      }
    }
    forall x | after[x] > 1 ensures Before(x, x, tight) {
      assert x != c ==> all[x] > 1;
    }
  }

  /** Every bucket of this message has ended by `when`. */
  ghost predicate AllEnded(all: multiset<BucketState>, key: Wire, when: real, tight: bool) {
    forall b :: b in all && b.key == key ==> if tight then b.lastAt < when else b.lastAt <= when
  }

  lemma AppendLatest(cfg: Config, open: seq<Slot>, all: multiset<BucketState>, c: BucketState, adds: seq<Sighting>,
                     tight: bool)
    requires Apart(all, tight) && Latest(open, all, tight) && Spans(cfg, all, adds)
    requires CleanBucket(cfg, c) && LastSeenBy(adds, c.lastAt) && AllEnded(all, c.key, c.openedAt, tight)
    requires forall i :: 0 <= i < |open| ==> open[i].key != c.key
    ensures var after := all + multiset{c};
            Apart(after, tight) && Spans(cfg, after, adds) && Latest(open + [Slot(c.key, c)], after, tight)
  {
    hide GoodBucket, InOrder, AllOfKey;
    var after := all + multiset{c};
    assert forall x :: x in after <==> x in all || x == c;
    forall x | after[x] > 1 ensures Before(x, x, tight) {
      assert x != c ==> all[x] > 1;
    }
  }

  lemma GatheredAppend(run: Run, c: BucketState, adds: seq<Sighting>, dropped: seq<Sighting>)
    ensures Gathered(Run(run.st.(open := run.st.open + [Slot(c.key, c)]), run.log, adds, dropped))
         == Gathered(run) + multiset{c}
  {
    assert Buckets(run.st.open + [Slot(c.key, c)]) == Buckets(run.st.open) + [c];
  }

  /** Moving a bucket from its slot to the ready list loses nothing. */
  lemma GatheredRetire(run: Run, i: nat)
    requires i < |run.st.open|
    ensures var rest := run.st.open[..i] + run.st.open[i + 1..];
            Gathered(run.(st := run.st.(open := rest, ready := run.st.ready + [run.st.open[i].bucket]))) == Gathered(run)
  {
    var open := run.st.open;
    var rest := open[..i] + open[i + 1..];
    assert Buckets(rest) == Buckets(open)[..i] + Buckets(open)[i + 1..];
    assert Buckets(open) == Buckets(open)[..i] + [Buckets(open)[i]] + Buckets(open)[i + 1..];
  }

  /** Once everything of the message has ended, the copy opens a new bucket. */
  lemma OpenTidy(cfg: Config, run: Run, s: Sighting, tight: bool)
    requires Sensible(cfg) && Tidy(cfg, run, tight) && CleanOp(cfg, run, Add(s), tight)
    requires SlotOf(run.st.open, MessageKey(s.packet)).None?
    requires AllEnded(Gathered(run), MessageKey(s.packet), s.when, tight)
    ensures var c := NewBucket(MessageKey(s.packet), s);
            var st := run.st.(open := run.st.open + [Slot(c.key, c)]);
            Inv(st) ==> Tidy(cfg, Run(st, run.log, run.adds + [s], run.dropped), tight)
  {
    hide MessageKey, Inv, HopsLegal, CleanBucket, NewBucket;
    var c := NewBucket(MessageKey(s.packet), s);
    LaterAdds(cfg, run, s);
    CleanNew(cfg, s);
    GatheredAppend(run, c, run.adds + [s], run.dropped);
    FollowedMore(run.st.ready, run.st.open, Slot(c.key, c));
    hide Gathered, Apart, Spans, Latest, Knows, Follows, CleanEvents, ClosedSeen, Followed, AllEnded;
    AppendLatest(cfg, run.st.open, Gathered(run), c, run.adds + [s], tight);
  }

  lemma FollowedMore(ready: seq<BucketState>, open: seq<Slot>, slot: Slot)
    requires Followed(ready, open)
    ensures Followed(ready, open + [slot])
  {
    forall i | 0 <= i < |ready| ensures SlotOf(open + [slot], ready[i].key).Some? {
      assert (open + [slot])[..|open|] == open;
    }
  }

  /** A fresh message, or one whose event has gone: everything known of it has ended. */
  lemma FreshEnded(cfg: Config, run: Run, s: Sighting, tight: bool)
    requires Sensible(cfg) && Tidy(cfg, run, tight) && CleanOp(cfg, run, Add(s), tight)
    requires SlotOf(run.st.open, MessageKey(s.packet)).None?
    requires !Straggler(cfg, run.st.closed, MessageKey(s.packet), s)
    ensures AllEnded(Gathered(run), MessageKey(s.packet), s.when, tight)
  {
    hide MessageKey, Inv, HopsLegal, CleanBucket, Apart, Spans, ClosedSeen, CleanEvents, Follows;
    LaterAdds(cfg, run, s);
    var key := MessageKey(s.packet);
    if tight {
      NothingPending(run, key, tight);
      hide Latest, Followed;
      var finished := LogBuckets(run.log);
      forall b | b in Gathered(run) && b.key == key ensures b.lastAt < s.when {
        assert b in finished;
        var i :| 0 <= i < |finished| && finished[i] == b;
        assert run.log[i].emission.bucket == b;
      }
    }
  }

  /** Without an open bucket for the key, nothing of it is open or ready. */
  lemma NothingPending(run: Run, key: Wire, tight: bool)
    requires Latest(run.st.open, Gathered(run), tight) && Followed(run.st.ready, run.st.open) && SlotOf(run.st.open, key).None?
    ensures forall b :: b in Gathered(run) && b.key == key ==> b in LogBuckets(run.log)
  {
    hide Before;
    var open, ready := Buckets(run.st.open), run.st.ready;
    assert forall i :: 0 <= i < |open| ==> open[i].key == run.st.open[i].key != key;
    forall i | 0 <= i < |ready| ensures ready[i].key != key {
      assert SlotOf(run.st.open, ready[i].key).Some?;
    }
    forall b | b in Gathered(run) && b.key == key ensures b in LogBuckets(run.log) {
      assert b !in open && b !in ready;
    }
  }

  /** The retired bucket and everything before it has ended by the time its successor opens. */
  lemma RetireEnded(cfg: Config, run: Run, s: Sighting, i: nat, tight: bool)
    requires Sensible(cfg) && Tidy(cfg, run, tight) && CleanOp(cfg, run, Add(s), tight)
    requires i < |run.st.open| && run.st.open[i].key == MessageKey(s.packet)
    requires !Accepts(cfg, run.st.open[i].bucket, s.when)
    ensures AllEnded(Gathered(run), MessageKey(s.packet), s.when, tight)
  {
    hide MessageKey, Inv, HopsLegal, GoodBucket, Apart, Knows, Follows, CleanEvents, Accepts, Followed;
    LaterAdds(cfg, run, s);
    OpenInAll(run, i);
    hide Gathered;
    if tight {
      RefusedIsLater(cfg, run.st.open[i].bucket, s.when);
    }
  }

  lemma RefusedIsLater(cfg: Config, b: BucketState, when: real)
    requires Sensible(cfg) && CleanBucket(cfg, b) && b.lastAt <= when && !Accepts(cfg, b, when)
    ensures b.lastAt < when
  {
    hide BucketOf, Homogeneous, InOrder, AllOfKey;
    Extends(cfg, |b.sightings|);
    hide Extension;
  }

  /** A bucket is closed at `now` exactly when no copy from then on could still join it. */
  lemma ClosedExactlyWhen(cfg: Config, b: BucketState, now: real)
    requires Sensible(cfg) && GoodBucket(b)
    ensures IsClosed(cfg, b, now) <==> forall when: real :: when >= now ==> !Accepts(cfg, b, when)
  {
    DeadlineAfterOpening(cfg, b);
    hide Deadline, BucketOf, Homogeneous;
    if !IsClosed(cfg, b, now) {
      assert Accepts(cfg, b, MaxReal(now, b.openedAt - cfg.window));
    }
  }

  lemma DeadlineAfterOpening(cfg: Config, b: BucketState)
    requires Sensible(cfg) && GoodBucket(b)
    ensures b.openedAt <= Deadline(cfg, b)
  {
    hide BucketOf, Homogeneous, LatestKey, AnyVerified;
    BucketMeaning(b.sightings);
    assert b.openedAt <= b.sightings[0].when <= b.lastAt;
    Extends(cfg, |b.sightings|);
    hide Extension;
  }

  lemma Extends(cfg: Config, n: nat)
    requires cfg.extend >= 0.0 && n > 0
    ensures Extension(cfg, n) >= 0.0
  {
    NonNegative(cfg.extend, (n - 1) as real);
  }

  lemma NonNegative(x: real, y: real)
    requires x >= 0.0 && y >= 0.0
    ensures x * y >= 0.0
  {
  }

  lemma CountTwice(run: Run, i: nat, e: nat)
    requires i < |run.st.open| && e < |run.log| && run.log[e].emission.bucket == run.st.open[i].bucket
    ensures Gathered(run)[run.st.open[i].bucket] >= 2
  {
    assert LogBuckets(run.log)[e] in multiset(LogBuckets(run.log));
    assert Buckets(run.st.open)[i] in multiset(Buckets(run.st.open));
  }

  /** The state between retiring a bucket and opening its successor, which `Followed` does not yet describe. */
  lemma RetireTidy(cfg: Config, run: Run, s: Sighting, i: nat, tight: bool)
    requires Sensible(cfg) && Tidy(cfg, run, tight) && CleanOp(cfg, run, Add(s), tight)
    requires i < |run.st.open| && run.st.open[i].key == MessageKey(s.packet)
    requires !Accepts(cfg, run.st.open[i].bucket, s.when)
    ensures var rest := run.st.open[..i] + run.st.open[i + 1..];
            var c := NewBucket(MessageKey(s.packet), s);
            var st := run.st.(open := rest + [Slot(c.key, c)], ready := run.st.ready + [run.st.open[i].bucket]);
            Inv(st) ==> Tidy(cfg, Run(st, run.log, run.adds + [s], run.dropped), tight)
  {
    hide MessageKey, Inv, HopsLegal, CleanBucket, NewBucket, Accepts, Gathered, Apart, Spans, Latest, Knows, Follows,
         CleanEvents, ClosedSeen, Followed, AllEnded, DistinctKeys, SlotOf;
    var open := run.st.open;
    var rest := open[..i] + open[i + 1..];
    var c := NewBucket(MessageKey(s.packet), s);
    var retired := run.(st := run.st.(open := rest, ready := run.st.ready + [open[i].bucket]));
    RetireEnded(cfg, run, s, i, tight);
    LaterAdds(cfg, run, s);
    CleanNew(cfg, s);
    GatheredRetire(run, i);
    GatheredAppend(retired, c, run.adds + [s], run.dropped);
    if tight {
      RetireFollows(cfg, run, i);
    }
    OwnKey(open, i, Gathered(run), tight);
    RetireFollowed(run.st.ready, open, i, Slot(c.key, c));
    RestLatest(open, i, Gathered(run), tight);
    InvDistinct(run.st);
    RestKeys(open, i);
    assert LastSeenBy(run.adds + [s], c.lastAt);
    AppendLatest(cfg, rest, Gathered(run), c, run.adds + [s], tight);
  }

  lemma OwnKey(open: seq<Slot>, i: nat, all: multiset<BucketState>, tight: bool)
    requires Latest(open, all, tight) && i < |open|
    ensures open[i].key == open[i].bucket.key
  {
  }

  lemma RestKeys(open: seq<Slot>, i: nat)
    requires DistinctKeys(open) && i < |open|
    ensures var rest := open[..i] + open[i + 1..]; forall j :: 0 <= j < |rest| ==> rest[j].key != open[i].key
  {
    var rest := open[..i] + open[i + 1..];
    assert forall j :: 0 <= j < |rest| ==> rest[j] == if j < i then open[j] else open[j + 1];
  }

  lemma RestLatest(open: seq<Slot>, i: nat, all: multiset<BucketState>, tight: bool)
    requires i < |open| && Latest(open, all, tight)
    ensures Latest(open[..i] + open[i + 1..], all, tight)
  {
    hide Before;
    var rest := open[..i] + open[i + 1..];
    assert forall j :: 0 <= j < |rest| ==> rest[j] == if j < i then open[j] else open[j + 1];
  }

  lemma RetireFollows(cfg: Config, run: Run, i: nat)
    requires Tidy(cfg, run, true) && i < |run.st.open|
    ensures Follows(run.log, run.st.ready + [run.st.open[i].bucket])
  {
    hide Inv, CleanBucket, Before, Knows, CleanEvents;
    var b := run.st.open[i].bucket;
    OpenInAll(run, i);
    forall e | 0 <= e < |run.log| && run.log[e].emission.bucket.key == b.key ensures Before(run.log[e].emission.bucket, b, true) {
      if run.log[e].emission.bucket == b {
        CountTwice(run, i, e);
      }
      assert LogBuckets(run.log)[e] in multiset(LogBuckets(run.log));
    }
  }

  lemma RetireFollowed(ready: seq<BucketState>, open: seq<Slot>, i: nat, slot: Slot)
    requires Followed(ready, open) && i < |open| && open[i].key == slot.key && open[i].key == open[i].bucket.key
    ensures Followed(ready + [open[i].bucket], open[..i] + open[i + 1..] + [slot])
  {
    var rest := open[..i] + open[i + 1..];
    assert (rest + [slot])[..|rest|] == rest;
    forall k | SlotOf(open, k).Some? ensures SlotOf(rest + [slot], k).Some? {
      if k != slot.key {
        var at := SlotOf(open, k).value;
        assert rest[if at < i then at else at - 1].key == k;
      } else {
        SlotOfLast(rest, slot);
      }
    }
    SlotOfLast(rest, slot);
  }

  lemma SlotOfLast(rest: seq<Slot>, slot: Slot)
    ensures SlotOf(rest + [slot], slot.key).Some?
  {
  }

  /** What `add` does with a verified copy when every open bucket has one: similarity plays no part. */
  function CleanAdd(cfg: Config, st: FusionState, s: Sighting): FusionState {
    var key := MessageKey(s.packet);
    var at := SlotOf(st.open, key);
    var newest := Slot(key, NewBucket(key, s));
    if at.Some? && Accepts(cfg, st.open[at.value].bucket, s.when) then
      st.(open := AddToSlot(st.open, at.value, s))
    else if at.Some? then
      st.(open := st.open[..at.value] + st.open[at.value + 1..] + [newest], ready := st.ready + [st.open[at.value].bucket])
    else if Straggler(cfg, st.closed, key, s) then
      st.(late := CountLate(st.late, s.receiver))
    else
      st.(open := st.open + [newest])
  }

  lemma AddIsClean(cfg: Config, st: FusionState, s: Sighting)
    requires s.packet.Verified() && forall i :: 0 <= i < |st.open| ==> st.open[i].bucket.hasGood
    ensures AddStep(cfg, st, s) == CleanAdd(cfg, st, s)
  {
    hide MessageKey, Accepts, Straggler, AddToSlot, NewBucket, Nearest;
    var at := SlotOf(st.open, MessageKey(s.packet));
    if at.Some? {
      var rest := st.open[..at.value] + st.open[at.value + 1..];
      assert forall j :: 0 <= j < |rest| ==> rest[j] == if j < at.value then st.open[j] else st.open[j + 1];
      NoneNear(cfg, rest, s, |rest|);
    } else {
      NoneNear(cfg, st.open, s, |st.open|);
    }
  }

  lemma AddTidy(cfg: Config, run: Run, s: Sighting, n: nat, tight: bool)
    requires Sensible(cfg) && Tidy(cfg, run, tight) && CleanOp(cfg, run, Add(s), tight)
    ensures Tidy(cfg, Do(cfg, run, Add(s), n), tight)
  {
    hide MessageKey, Inv, HopsLegal, Accepts, Straggler, AddToSlot, NewBucket, AddStep;
    var key := MessageKey(s.packet);
    var at := SlotOf(run.st.open, key);
    AllGood(cfg, run, tight);
    AddKeepsInv(cfg, run.st, s);
    AddIsClean(cfg, run.st, s);
    NewKey(s);
    hide Tidy;
    if at.Some? && Accepts(cfg, run.st.open[at.value].bucket, s.when) {
      JoinTidy(cfg, run, s, at.value, tight);
    } else if at.Some? {
      RetireTidy(cfg, run, s, at.value, tight);
    } else if Straggler(cfg, run.st.closed, key, s) {
      StragglerTidy(cfg, run, s, tight);
    } else {
      FreshEnded(cfg, run, s, tight);
      OpenTidy(cfg, run, s, tight);
    }
  }

  lemma NewKey(s: Sighting)
    requires s.packet.Verified()
    ensures NewBucket(MessageKey(s.packet), s).key == MessageKey(s.packet)
  {
    hide MessageKey;
  }

  lemma AllGood(cfg: Config, run: Run, tight: bool)
    requires Tidy(cfg, run, tight)
    ensures forall i :: 0 <= i < |run.st.open| ==> run.st.open[i].bucket.hasGood
  {
    hide Inv, GoodBucket, InOrder, AllOfKey;
    forall i | 0 <= i < |run.st.open| ensures run.st.open[i].bucket.hasGood {
      OpenInAll(run, i);
    }
  }

  /** A copy of a message whose event has gone changes nothing but the count of late copies. */
  lemma StragglerTidy(cfg: Config, run: Run, s: Sighting, tight: bool)
    requires Tidy(cfg, run, tight) && CleanOp(cfg, run, Add(s), tight)
    ensures Tidy(cfg, Run(run.st.(late := CountLate(run.st.late, s.receiver)), run.log, run.adds + [s], run.dropped + [s]), tight)
  {
    LaterAdds(cfg, run, s);
    hide Apart, Spans, Latest, Followed, Follows, Knows, CleanEvents, ClosedSeen, GoodSlot, GoodBucket;
  }

  // ------------------------------------------------------------------ emitting clean buckets

  /** A built packet is one of the copies' own unless it was combined. */
  lemma {:induction false} BestGoodIsOne(ss: seq<Sighting>)
    ensures BestGood(ss).Some? ==> exists i :: 0 <= i < |ss| && ss[i] == BestGood(ss).value && GoodCopy(ss[i])
    ensures BestGood(ss).None? <==> forall i :: 0 <= i < |ss| ==> !GoodCopy(ss[i])
  {
    hide GoodCopy, BetterCopy;
    if ss != [] {
      var n := |ss| - 1;
      BestGoodIsOne(ss[..n]);
      if BestGood(ss[..n]).Some? {
        var i :| 0 <= i < n && ss[..n][i] == BestGood(ss[..n]).value && GoodCopy(ss[..n][i]);
        assert ss[i] == ss[..n][i];
      }
      assert BestGood(ss) == Some(ss[n]) || BestGood(ss) == BestGood(ss[..n]);
    }
  }

  /** The key an event is finished under. */
  function KeyOf(event: FusedEvent): Wire { if event.combined then MessageKey(event.packet) else event.key }

  /** It is its packet's, and the bucket's exactly when nothing re-keyed it. */
  lemma CleanBuild(cfg: Config, b: BucketState)
    requires CleanBucket(cfg, b)
    ensures var event := Build(cfg, b);
            event.firstSeen == b.openedAt && event.lastSeen == b.lastAt && KeyOf(event) == MessageKey(event.packet) &&
            (KeyOf(event) == b.key <==> KeepsKey(cfg, b))
  {
    BestGoodIsOne(b.sightings);
    hide BestGood, BucketOf, Homogeneous, HopsMin, HopsMax, Closest, Views, MessageKey, GoodCopy, CombineOf,
         Packet.Verified;
  }

  /** In order of opening, each message's buckets follow one another. */
  ghost predicate Chronological(bs: seq<BucketState>) {
    forall i, j :: 0 <= i < j < |bs| && bs[i].key == bs[j].key ==> Before(bs[i], bs[j], true)
  }

  ghost predicate AllClean(cfg: Config, bs: seq<BucketState>) { forall i :: 0 <= i < |bs| ==> CleanBucket(cfg, bs[i]) }

  /** The closed table after finishing `bs`: every entry an old one or a bucket's span, and under its own key if all keep theirs. */
  ghost predicate ClosedAfter(before: map<Wire, ClosedKey>, after: map<Wire, ClosedKey>, bs: seq<BucketState>, tight: bool) {
    (tight ==> forall i :: 0 <= i < |bs| ==> bs[i].key in after && bs[i].lastAt <= after[bs[i].key].last) &&
    (forall k :: k in before ==> k in after) &&
    forall k :: k in after ==> (k in before && after[k] == before[k]) || SpanIn(bs, k, after[k], tight)
  }

  ghost predicate SpanIn(bs: seq<BucketState>, k: Wire, c: ClosedKey, tight: bool) {
    exists i :: 0 <= i < |bs| && (tight ==> bs[i].key == k) && c.last == bs[i].lastAt && c.first == bs[i].openedAt
  }

  ghost predicate EmittedAs(cfg: Config, out: seq<Emission>, bs: seq<BucketState>) {
    |out| == |bs| && forall i :: 0 <= i < |bs| ==> out[i].bucket == bs[i] && CleanEvent(cfg, out[i])
  }

  lemma ClosedStep(before: map<Wire, ClosedKey>, mid: map<Wire, ClosedKey>, bs: seq<BucketState>, b: BucketState, key: Wire,
                   c: ClosedKey, tight: bool)
    requires ClosedAfter(before, mid, bs, tight) && c.first == b.openedAt && c.last == b.lastAt
    requires tight ==> key == b.key && forall i :: 0 <= i < |bs| && bs[i].key == b.key ==> bs[i].lastAt <= b.lastAt
    ensures ClosedAfter(before, mid[key := c], bs + [b], tight)
  {
    var after, more := mid[key := c], bs + [b];
    forall k | k in after ensures (k in before && after[k] == before[k]) || SpanIn(more, k, after[k], tight) {
      if k == key {
        assert more[|bs|] == b;
      } else if !(k in before && after[k] == before[k]) {
        var i :| 0 <= i < |bs| && (tight ==> bs[i].key == k) && mid[k].last == bs[i].lastAt && mid[k].first == bs[i].openedAt;
        assert more[i] == bs[i];
      }
    }
  }

  lemma FinishClean(cfg: Config, em: Emitting, b: BucketState, now: real)
    requires CleanBucket(cfg, b)
    ensures var after := Finish(em, b, Build(cfg, b), now);
            var key := KeyOf(Build(cfg, b));
            (exists index :: after.st.closed == em.st.closed[key := ClosedKey(now, index, b.openedAt, b.lastAt)]) &&
            |after.out| == |em.out| + 1 && after.out[..|em.out|] == em.out && after.pending == em.pending &&
            after.out[|em.out|].bucket == b && CleanEvent(cfg, after.out[|em.out|]) && (key == b.key <==> KeepsKey(cfg, b))
  {
    CleanBuild(cfg, b);
    hide Build, CleanBucket, MessageKey, KeepsKey;
    var after := Finish(em, b, Build(cfg, b), now);
    var index := after.out[|em.out|].event.repeatIndex;
    assert after.st.closed == em.st.closed[KeyOf(Build(cfg, b)) := ClosedKey(now, index, b.openedAt, b.lastAt)];
  }

  /** A bucket of verified copies is finished under its own key exactly when nothing re-keys its event. */
  lemma KeyKeptExactlyWhen(cfg: Config, em: Emitting, b: BucketState, now: real)
    requires CleanBucket(cfg, b)
    ensures var out := Finish(em, b, Build(cfg, b), now).out;
            out != [] && (out[|out| - 1].event.key == b.key <==> KeepsKey(cfg, b))
  {
    FinishClean(cfg, em, b, now);
    hide Build, CleanBucket, MessageKey, KeepsKey;
  }

  lemma LastIsLatest(cfg: Config, bs: seq<BucketState>)
    requires bs != [] && AllClean(cfg, bs) && Chronological(bs)
    ensures var n := |bs| - 1;
            CleanBucket(cfg, bs[n]) && AllClean(cfg, bs[..n]) && Chronological(bs[..n]) && bs[..n] + [bs[n]] == bs &&
            forall i :: 0 <= i < |bs[..n]| && bs[..n][i].key == bs[n].key ==> bs[..n][i].lastAt <= bs[n].lastAt
  {
    hide GoodBucket, InOrder, AllOfKey;
  }

  lemma EmittedMore(cfg: Config, out: seq<Emission>, bs: seq<BucketState>, after: seq<Emission>, b: BucketState)
    requires EmittedAs(cfg, out, bs) && |after| == |out| + 1 && after[..|out|] == out
    requires after[|out|].bucket == b && CleanEvent(cfg, after[|out|])
    ensures EmittedAs(cfg, after, bs + [b])
  {
    hide CleanEvent;
    assert forall i :: 0 <= i < |out| ==> after[i] == after[..|out|][i];
  }

  lemma {:induction false} FinishAllClean(cfg: Config, em: Emitting, bs: seq<BucketState>, now: real, tight: bool)
    requires NonEmpty(bs) && AllClean(cfg, bs) && em.out == []
    requires tight ==> Chronological(bs) && AllKeep(cfg, bs)
    ensures var after := FinishAll(cfg, em, bs, now);
            EmittedAs(cfg, after.out, bs) && ClosedAfter(em.st.closed, after.st.closed, bs, tight)
  {
    hide CleanEvent, Build, Finish, ClosedAfter, CleanBucket, Chronological, EmittedAs, KeepsKey, KeyOf;
    if bs == [] {
      NoneClosed(em.st.closed, tight);
      NoneEmitted(cfg);
    } else {
      var n := |bs| - 1;
      if tight {
        LastIsLatest(cfg, bs);
      }
      assert bs[..n] + [bs[n]] == bs;
      FinishAllClean(cfg, em, bs[..n], now, tight);
      var mid := FinishAll(cfg, em, bs[..n], now);
      var after := Finish(mid, bs[n], Build(cfg, bs[n]), now);
      var key := KeyOf(Build(cfg, bs[n]));
      FinishClean(cfg, mid, bs[n], now);
      var index :| after.st.closed == mid.st.closed[key := ClosedKey(now, index, bs[n].openedAt, bs[n].lastAt)];
      ClosedStep(em.st.closed, mid.st.closed, bs[..n], bs[n], key, ClosedKey(now, index, bs[n].openedAt, bs[n].lastAt), tight);
      EmittedMore(cfg, mid.out, bs[..n], after.out, bs[n]);
    }
  }

  lemma NoneEmitted(cfg: Config)
    ensures EmittedAs(cfg, [], [])
  {
  }

  lemma NoneClosed(closed: map<Wire, ClosedKey>, tight: bool)
    ensures ClosedAfter(closed, closed, [], tight)
  {
  }

  lemma SortClean(cfg: Config, done: seq<BucketState>)
    requires AllClean(cfg, done)
    ensures var sorted := SortBy(done, Opened());
            AllClean(cfg, sorted) && multiset(sorted) == multiset(done) && (AllKeep(cfg, done) ==> AllKeep(cfg, sorted))
  {
    var sorted := SortBy(done, Opened());
    SortSorted(done, Opened());
    SameElements(done, Opened());
    hide CleanBucket, SortBy, KeepsKey;
    forall i | 0 <= i < |sorted| ensures CleanBucket(cfg, sorted[i]) && (AllKeep(cfg, done) ==> KeepsKey(cfg, sorted[i])) {
      assert sorted[i] in done;
    }
  }

  lemma SortChronological(cfg: Config, done: seq<BucketState>, all: multiset<BucketState>)
    requires Apart(all, true) && multiset(done) <= all && AllClean(cfg, done)
    ensures Chronological(SortBy(done, Opened()))
  {
    var sorted := SortBy(done, Opened());
    SortClean(cfg, done);
    SortSorted(done, Opened());
    hide GoodBucket, InOrder, AllOfKey, SortBy;
    forall x ensures multiset(sorted)[x] <= 1 {
      OnceEach(cfg, sorted, all, x);
    }
    DistinctMultiset(sorted);
    forall i, j | 0 <= i < j < |sorted| && sorted[i].key == sorted[j].key ensures Before(sorted[i], sorted[j], true) {
      assert sorted[i] in multiset(sorted) && sorted[j] in multiset(sorted);
      assert sorted[i] != sorted[j];
      assert Opened()(sorted[i]) <= Opened()(sorted[j]);
      assert CleanBucket(cfg, sorted[i]) && CleanBucket(cfg, sorted[j]);
    }
  }

  lemma OnceEach(cfg: Config, bs: seq<BucketState>, all: multiset<BucketState>, x: BucketState)
    requires Apart(all, true) && multiset(bs) <= all && AllClean(cfg, bs)
    ensures multiset(bs)[x] <= 1
  {
    hide GoodBucket, InOrder, AllOfKey;
    if x in bs {
      assert CleanBucket(cfg, x);
      assert !Before(x, x, true);
      assert all[x] <= 1;
    }
  }

  lemma FilterLast(bs: seq<BucketState>, b: BucketState)
    requires b.hasGood
    ensures Filter(bs + [b], true) == Filter(bs, true) + [b] && Filter(bs + [b], false) == Filter(bs, false)
  {
    assert (bs + [b])[..|bs|] == bs;
    assert Filter(bs, false) + [] == Filter(bs, false);
  }

  lemma {:induction false} FilterAllGood(bs: seq<BucketState>)
    requires forall i :: 0 <= i < |bs| ==> bs[i].hasGood
    ensures Filter(bs, true) == bs && Filter(bs, false) == []
  {
    if bs != [] {
      var n := |bs| - 1;
      hide Filter;
      FilterAllGood(bs[..n]);
      FilterLast(bs[..n], bs[n]);
      assert bs[..n] + [bs[n]] == bs;
    }
  }

  /** Clean buckets come out as they are, in order of opening, and nothing else changes but the closed table. */
  lemma EmitClean(cfg: Config, st: FusionState, done: seq<BucketState>, now: real, all: multiset<BucketState>, tight: bool)
    requires NonEmpty(done) && Apart(all, tight) && multiset(done) <= all && AllClean(cfg, done) && (tight ==> AllKeep(cfg, done))
    ensures var em := Emit(cfg, st, done, now);
            var sorted := SortBy(done, Opened());
            multiset(sorted) == multiset(done) && EmittedAs(cfg, em.out, sorted) &&
            ClosedAfter(st.closed, em.st.closed, sorted, tight) && em.dropped == [] &&
            em.st.open == st.open && em.st.ready == st.ready
  {
    var sorted := SortBy(done, Opened());
    SortClean(cfg, done);
    if tight {
      SortChronological(cfg, done, all);
    }
    SortNonEmpty(done);
    assert forall i :: 0 <= i < |sorted| ==> CleanBucket(cfg, sorted[i]);
    FilterAllGood(sorted);
    hide SortBy, CleanBucket, Chronological, ClosedAfter, EmittedAs, FinishAll, Apart, KeepsKey;
    var start := Emitting(st, sorted, [], []);
    assert SettleAll(cfg, start, [], now) == start;
    FinishAllClean(cfg, start, sorted, now, tight);
    FinishAllKeepsState(cfg, start, sorted, now);
    assert Emit(cfg, st, done, now) == FinishAll(cfg, start, sorted, now);
  }

  // ------------------------------------------------------------------ a pop or a flush

  /** What was finished earlier comes before every bucket not yet finished. */
  lemma FinishedBefore(cfg: Config, run: Run, e: nat, x: BucketState)
    requires Tidy(cfg, run, true) && e < |run.log| && run.log[e].emission.bucket.key == x.key
    requires x in run.st.ready || x in Buckets(run.st.open)
    ensures Before(run.log[e].emission.bucket, x, true)
  {
    hide Inv, CleanBucket, Before, CleanEvents, Knows, Apart, Spans, ClosedSeen;
    if x in run.st.ready {
      var j :| 0 <= j < |run.st.ready| && run.st.ready[j] == x;
      assert run.log[e].emission.bucket.key == run.st.ready[j].key;
    } else {
      var j :| 0 <= j < |run.st.open| && Buckets(run.st.open)[j] == x;
      RetireFollows(cfg, run, j);
      var retired := run.st.ready + [run.st.open[j].bucket];
      assert retired[|run.st.ready|] == x;
    }
  }

  /** The closed table after emitting knows the old events and the new. */
  lemma KnowsAfter(cfg: Config, run: Run, closed: map<Wire, ClosedKey>, sorted: seq<BucketState>, entries: seq<Entry>)
    requires Tidy(cfg, run, true) && ClosedAfter(run.st.closed, closed, sorted, true)
    requires |entries| == |sorted| && forall i :: 0 <= i < |entries| ==> entries[i].emission.bucket == sorted[i]
    requires forall i :: 0 <= i < |sorted| ==> sorted[i] in run.st.ready || sorted[i] in Buckets(run.st.open)
    ensures Knows(run.log + entries, closed)
  {
    hide Inv, Follows, Followed, Latest, Apart, CleanEvents, CleanBucket, Before, Gathered;
    var log := run.log + entries;
    forall i | 0 <= i < |log|
      ensures log[i].emission.bucket.key in closed && log[i].emission.bucket.lastAt <= closed[log[i].emission.bucket.key].last
    {
      if i < |run.log| {
        OldKnown(cfg, run, closed, sorted, i);
      } else {
        assert log[i].emission.bucket == sorted[i - |run.log|];
      }
    }
  }

  /** Nothing is remembered from later than the latest copy. `kept` is what was remembered when emitting began. */
  lemma ClosedSeenAfter(cfg: Config, run: Run, kept: map<Wire, ClosedKey>, closed: map<Wire, ClosedKey>,
                        sorted: seq<BucketState>, tight: bool)
    requires Spans(cfg, Gathered(run), run.adds) && ClosedSeen(kept, run.adds)
    requires ClosedAfter(kept, closed, sorted, tight)
    requires forall i :: 0 <= i < |sorted| ==> sorted[i] in run.st.ready || sorted[i] in Buckets(run.st.open)
    ensures ClosedSeen(closed, run.adds)
  {
    hide CleanBucket;
    forall k | k in closed ensures LastSeenBy(run.adds, closed[k].first) {
      if !(k in kept && closed[k] == kept[k]) {
        assert SpanIn(sorted, k, closed[k], tight);
        var j :| 0 <= j < |sorted| && closed[k].last == sorted[j].lastAt && closed[k].first == sorted[j].openedAt;
        assert sorted[j] in Gathered(run);
        OpenedSeen(cfg, sorted[j], run.adds);
      }
    }
  }

  lemma OpenedSeen(cfg: Config, b: BucketState, adds: seq<Sighting>)
    requires CleanBucket(cfg, b) && LastSeenBy(adds, b.lastAt)
    ensures LastSeenBy(adds, b.openedAt)
  {
    hide GoodBucket;
  }

  lemma OldKnown(cfg: Config, run: Run, closed: map<Wire, ClosedKey>, sorted: seq<BucketState>, i: nat)
    requires Tidy(cfg, run, true) && ClosedAfter(run.st.closed, closed, sorted, true) && i < |run.log|
    requires forall i :: 0 <= i < |sorted| ==> sorted[i] in run.st.ready || sorted[i] in Buckets(run.st.open)
    ensures var b := run.log[i].emission.bucket; b.key in closed && b.lastAt <= closed[b.key].last
  {
    hide Inv, Follows, Followed, Latest, Apart, CleanEvents, ClosedSeen, GoodBucket, InOrder, AllOfKey;
    var b := run.log[i].emission.bucket;
    if closed[b.key] != run.st.closed[b.key] {
      assert SpanIn(sorted, b.key, closed[b.key], true);
      var j :| 0 <= j < |sorted| && sorted[j].key == b.key && closed[b.key].last == sorted[j].lastAt;
      FinishedBefore(cfg, run, i, sorted[j]);
      assert sorted[j] in Gathered(run);
      assert sorted[j].openedAt <= sorted[j].lastAt;
    }
  }

  lemma GatheredEmit(run: Run, st: FusionState, entries: seq<Entry>, sorted: seq<BucketState>, dropped: seq<Sighting>)
    requires |entries| == |sorted| && forall i :: 0 <= i < |entries| ==> entries[i].emission.bucket == sorted[i]
    requires st.ready == []
    requires multiset(sorted) + multiset(Buckets(st.open)) == multiset(run.st.ready) + multiset(Buckets(run.st.open))
    ensures Gathered(Run(st, run.log + entries, run.adds, dropped)) == Gathered(run)
  {
    var log, pending := multiset(LogBuckets(run.log)), multiset(run.st.ready) + multiset(Buckets(run.st.open));
    assert LogBuckets(run.log + entries) == LogBuckets(run.log) + sorted;
    assert Gathered(run) == log + pending;
    assert multiset(LogBuckets(run.log + entries)) == log + multiset(sorted);
    hide LogBuckets, Buckets;
    assert Gathered(Run(st, run.log + entries, run.adds, dropped)) == log + (multiset(sorted) + multiset(Buckets(st.open)));
  }

  lemma PartOfAll(run: Run, done: seq<BucketState>, still: seq<Slot>)
    requires multiset(done) + multiset(Buckets(still)) == multiset(run.st.ready) + multiset(Buckets(run.st.open))
    ensures multiset(done) <= Gathered(run)
  {
    assert multiset(done) <= multiset(done) + multiset(Buckets(still));
    assert multiset(run.st.ready) + multiset(Buckets(run.st.open)) <= Gathered(run);
  }

  lemma StillLatest(open: seq<Slot>, still: seq<Slot>, all: multiset<BucketState>, tight: bool)
    requires Latest(open, all, tight) && forall i :: 0 <= i < |still| ==> still[i] in open
    ensures Latest(still, all, tight)
  {
    hide Before;
    forall i | 0 <= i < |still| ensures exists j :: 0 <= j < |open| && open[j] == still[i] {
      assert still[i] in open;
    }
  }

  /** The messages still remembered when emitting begins: all of them, for the strict partition. */
  ghost predicate Kept(closed: map<Wire, ClosedKey>, kept: map<Wire, ClosedKey>, tight: bool) {
    (forall k :: k in kept ==> k in closed && kept[k] == closed[k]) && (tight ==> kept == closed)
  }

  /** Emitting `done` and keeping `still` open keeps everything tidy. */
  lemma EmitTidy(cfg: Config, run: Run, still: seq<Slot>, done: seq<BucketState>, kept: map<Wire, ClosedKey>,
                 now: real, n: nat, tight: bool)
    requires Tidy(cfg, run, tight) && NonEmpty(done) && Kept(run.st.closed, kept, tight) && (tight ==> AllKeep(cfg, done))
    requires forall i :: 0 <= i < |still| ==> still[i] in run.st.open
    requires multiset(done) + multiset(Buckets(still)) == multiset(run.st.ready) + multiset(Buckets(run.st.open))
    requires Inv(Emit(cfg, run.st.(open := still, ready := [], closed := kept), done, now).st)
    ensures var em := Emit(cfg, run.st.(open := still, ready := [], closed := kept), done, now);
            var after := Run(em.st, run.log + Entries(n, now, em.out), run.adds, run.dropped + em.dropped);
            Tidy(cfg, after, tight) && Gathered(after) == Gathered(run) && em.dropped == []
  {
    hide Emit, Inv, SortBy, NonEmpty, Gathered, Apart, Spans, Latest, Follows, Knows, CleanEvents, ClosedAfter,
         KeepsKey, AllKeep;
    var st := run.st.(open := still, ready := [], closed := kept);
    var em := Emit(cfg, st, done, now);
    var sorted := SortBy(done, Opened());
    var entries := Entries(n, now, em.out);
    assert ClosedSeen(kept, run.adds);
    hide ClosedSeen;
    DoneIsClean(cfg, run, done, still);
    EmitClean(cfg, st, done, now, Gathered(run), tight);
    SortedFrom(run, sorted, still);
    hide EmittedAs;
    EntriesClean(cfg, run.log, n, now, em.out, sorted);
    GatheredEmit(run, em.st, entries, sorted, run.dropped + em.dropped);
    StillLatest(run.st.open, still, Gathered(run), tight);
    ClosedSeenAfter(cfg, run, kept, em.st.closed, sorted, tight);
    if tight {
      KnowsAfter(cfg, run, em.st.closed, sorted, entries);
    }
    NothingReady(run.log + entries, still);
  }

  lemma NothingReady(log: seq<Entry>, open: seq<Slot>)
    ensures Followed([], open) && Follows(log, [])
  {
  }

  lemma DoneIsClean(cfg: Config, run: Run, done: seq<BucketState>, still: seq<Slot>)
    requires Spans(cfg, Gathered(run), run.adds)
    requires multiset(done) + multiset(Buckets(still)) == multiset(run.st.ready) + multiset(Buckets(run.st.open))
    ensures multiset(done) <= Gathered(run) && AllClean(cfg, done)
  {
    hide CleanBucket, Gathered;
    PartOfAll(run, done, still);
    forall i | 0 <= i < |done| ensures CleanBucket(cfg, done[i]) {
      assert done[i] in multiset(done);
    }
  }

  lemma SortedFrom(run: Run, sorted: seq<BucketState>, still: seq<Slot>)
    requires multiset(sorted) + multiset(Buckets(still)) == multiset(run.st.ready) + multiset(Buckets(run.st.open))
    ensures forall i :: 0 <= i < |sorted| ==> sorted[i] in run.st.ready || sorted[i] in Buckets(run.st.open)
  {
    forall i | 0 <= i < |sorted| ensures sorted[i] in run.st.ready || sorted[i] in Buckets(run.st.open) {
      assert sorted[i] in multiset(sorted) + multiset(Buckets(still));
    }
  }

  lemma EntriesClean(cfg: Config, log: seq<Entry>, n: nat, now: real, out: seq<Emission>, sorted: seq<BucketState>)
    requires CleanEvents(cfg, log) && EmittedAs(cfg, out, sorted)
    ensures var entries := Entries(n, now, out);
            CleanEvents(cfg, log + entries) && |entries| == |sorted| &&
            forall i :: 0 <= i < |entries| ==> entries[i].emission.bucket == sorted[i]
  {
    hide CleanEvent;
  }

  lemma {:induction false} CloseMultiset(cfg: Config, open: seq<Slot>, now: real)
    ensures multiset(ClosedBuckets(cfg, open, now)) + multiset(Buckets(StillOpen(cfg, open, now))) == multiset(Buckets(open))
  {
    hide IsClosed, ClosedBuckets, StillOpen;
    if open == [] {
      NoneOpen(cfg, now);
    } else {
      var n := |open| - 1;
      var b := open[n].bucket;
      var still := StillOpen(cfg, open[..n], now);
      CloseMultiset(cfg, open[..n], now);
      CloseLast(cfg, open, now);
      assert Buckets(open) == Buckets(open[..n]) + [b];
      assert Buckets(still + [open[n]]) == Buckets(still) + [b];
      hide Buckets;
      Dealt(ClosedBuckets(cfg, open[..n], now), Buckets(still), Buckets(open[..n]), b, IsClosed(cfg, b, now));
    }
  }

  lemma NoneOpen(cfg: Config, now: real)
    ensures ClosedBuckets(cfg, [], now) == [] && StillOpen(cfg, [], now) == []
  {
  }

  lemma CloseLast(cfg: Config, open: seq<Slot>, now: real)
    requires open != []
    ensures var slot, before := open[|open| - 1], open[..|open| - 1];
            var closing := IsClosed(cfg, slot.bucket, now);
            ClosedBuckets(cfg, open, now) == (if closing then ClosedBuckets(cfg, before, now) + [slot.bucket] else ClosedBuckets(cfg, before, now)) &&
            StillOpen(cfg, open, now) == if closing then StillOpen(cfg, before, now) else StillOpen(cfg, before, now) + [slot]
  {
    hide IsClosed;
  }

  lemma PopTidy(cfg: Config, run: Run, now: real, n: nat, tight: bool)
    requires Tidy(cfg, run, tight) && CleanOp(cfg, run, Pop(now), tight)
    ensures var after := Do(cfg, run, Pop(now), n);
            Tidy(cfg, after, tight) && Gathered(after) == Gathered(run) && after.dropped == run.dropped
  {
    hide Emit, GoodOpen, BucketOf, Homogeneous, Apart, Spans, Latest, Followed, Follows, Knows, CleanEvents, ClosedSeen,
         StillOpen, ClosedBuckets, Gathered;
    var cut := now - cfg.lateness;
    var still, closing := StillOpen(cfg, run.st.open, cut), ClosedBuckets(cfg, run.st.open, cut);
    PopKeepsInv(cfg, run.st, now);
    ClosedNonEmpty(cfg, run.st.open, cut);
    var kept := Remembered(cfg, run.st.closed, now);
    assert Kept(run.st.closed, kept, tight);
    CloseMultiset(cfg, run.st.open, cut);
    assert GoodOpen(run.st.open) && GoodBuckets(run.st.ready);
    CloseGood(cfg, run.st.open, cut);
    EmitTidy(cfg, run, still, run.st.ready + closing, kept, now, n, tight);
  }

  lemma FlushTidy(cfg: Config, run: Run, now: real, n: nat, tight: bool)
    requires Tidy(cfg, run, tight) && CleanOp(cfg, run, Flush(now), tight)
    ensures var after := Do(cfg, run, Flush(now), n);
            Tidy(cfg, after, tight) && Gathered(after) == Gathered(run) && after.dropped == run.dropped
  {
    hide Emit, BucketOf, Homogeneous, Apart, Spans, Latest, Followed, Follows, Knows, CleanEvents, ClosedSeen, Gathered;
    FlushKeepsInv(cfg, run.st, now);
    EmitTidy(cfg, run, [], run.st.ready + Buckets(run.st.open), run.st.closed, now, n, tight);
  }

  // ------------------------------------------------------------------ whole runs

  lemma {:induction false} RunsAreTidy(cfg: Config, ops: seq<Op>, tight: bool)
    requires Sensible(cfg) && CleanRun(cfg, ops, tight)
    ensures Tidy(cfg, Exec(cfg, ops), tight)
  {
    if ops == [] {
      EmptyTidy(cfg, tight);
    } else {
      var n := |ops| - 1;
      RunsAreTidy(cfg, ops[..n], tight);
      match ops[n] {
        case Add(s) => AddTidy(cfg, Exec(cfg, ops[..n]), s, n, tight);
        case Pop(now) => PopTidy(cfg, Exec(cfg, ops[..n]), now, n, tight);
        case Flush(now) => FlushTidy(cfg, Exec(cfg, ops[..n]), now, n, tight);
      }
    }
    hide Do, Tidy;
  }

  lemma EmptyTidy(cfg: Config, tight: bool)
    ensures Tidy(cfg, Run(EMPTY, [], [], []), tight)
  {
  }

  /** A finished event of the copy's message lies within the window of it. */
  ghost predicate NearAnEvent(cfg: Config, log: seq<Entry>, s: Sighting) {
    exists e :: 0 <= e < |log| && log[e].emission.event.key == MessageKey(s.packet) && Around(cfg, log[e].emission.event, s.when)
  }

  ghost predicate LateNearby(cfg: Config, run: Run) {
    forall i :: 0 <= i < |run.dropped| ==> NearAnEvent(cfg, run.log, run.dropped[i])
  }

  lemma NearbyStill(cfg: Config, before: Run, after: Run)
    requires LateNearby(cfg, before) && before.log <= after.log && before.dropped == after.dropped
    ensures LateNearby(cfg, after)
  {
    hide MessageKey, Around;
    forall i | 0 <= i < |after.dropped| ensures NearAnEvent(cfg, after.log, after.dropped[i]) {
      assert NearAnEvent(cfg, before.log, before.dropped[i]);
      var e :| 0 <= e < |before.log| && before.log[e].emission.event.key == MessageKey(before.dropped[i].packet) &&
               Around(cfg, before.log[e].emission.event, before.dropped[i].when);
      assert after.log[e] == before.log[e];
    }
  }

  lemma LateNearEvent(cfg: Config, ops: seq<Op>, s: Sighting)
    requires LateNearby(cfg, Exec(cfg, ops))
    ensures LateNearby(cfg, Exec(cfg, ops + [Add(s)]))
  {
    hide Exec, MessageKey, Around, Placed, HasSlot, Accepts, AddTo, Packet.Verified, LateOf;
    AddExactly(cfg, ops, s);
    var before, after := Exec(cfg, ops), Exec(cfg, ops + [Add(s)]);
    if after.dropped == before.dropped {
      NearbyStill(cfg, before, after);
    } else {
      assert NearAnEvent(cfg, after.log, s);
    }
  }

  /** Over such a run every copy counted late is within the window of a finished event of its message. */
  lemma {:induction false} LateOnesAreNear(cfg: Config, ops: seq<Op>)
    requires Sensible(cfg) && CleanRun(cfg, ops, false)
    ensures LateNearby(cfg, Exec(cfg, ops))
  {
    hide Tidy, Gathered, CleanOp, LateNearby, Inv;
    if ops == [] {
      NoneLate(cfg);
    } else {
      var n := |ops| - 1;
      LateOnesAreNear(cfg, ops[..n]);
      RunsAreTidy(cfg, ops[..n], false);
      assert ops[..n] + [ops[n]] == ops;
      match ops[n] {
        case Add(s) => LateNearEvent(cfg, ops[..n], s);
        case Pop(now) =>
          PopTidy(cfg, Exec(cfg, ops[..n]), now, n, false);
          NearbyStill(cfg, Exec(cfg, ops[..n]), Exec(cfg, ops));
        case Flush(now) =>
          FlushTidy(cfg, Exec(cfg, ops[..n]), now, n, false);
          NearbyStill(cfg, Exec(cfg, ops[..n]), Exec(cfg, ops));
      }
    }
  }

  lemma NoneLate(cfg: Config)
    ensures LateNearby(cfg, Run(EMPTY, [], [], []))
  {
  }

  lemma {:induction false} StillClean(cfg: Config, ops: seq<Op>)
    requires CleanRun(cfg, ops, true)
    ensures CleanRun(cfg, ops, false)
  {
    hide Exec, AllKeep;
    if ops != [] {
      StillClean(cfg, ops[..|ops| - 1]);
    }
  }

  /** The copies of one message. */
  function OfKey(key: Wire): Which { (s: Sighting) => MessageKey(s.packet) == key }

  lemma {:induction false} AllPicked(ss: seq<Sighting>, key: Wire, own: Wire)
    requires AllOfKey(ss, own)
    ensures Copies(ss, OfKey(key)) == if key == own then |ss| else 0
  {
    hide MessageKey, Packet.Verified;
    if ss != [] {
      AllPicked(ss[..|ss| - 1], key, own);
    }
  }

  /** Two buckets of a message meet in an instant at most, and not even that if `tight`. */
  ghost predicate Disjoint(bs: seq<BucketState>, key: Wire, tight: bool) {
    forall i, j :: 0 <= i < |bs| && 0 <= j < |bs| && i != j && bs[i].key == bs[j].key == key ==>
      Before(bs[i], bs[j], tight) || Before(bs[j], bs[i], tight)
  }

  /** Every bucket there has ever been, finished ones first. */
  ghost function EveryBucket(run: Run): seq<BucketState> { LogBuckets(run.log) + run.st.ready + Buckets(run.st.open) }

  /**
   * The partition. Any two buckets of a message, finished or not, have on-air intervals that share at most an instant,
   * no interval is longer than the cap, and each holds only that message's copies, in order. Every copy of a message is
   * in exactly one of them or counted late: nothing is missed, nothing is in two, and a late one is within the window of a
   * finished event of its message, so that one sent later starts an event or joins one. Each finished event spans exactly its
   * bucket, and is of its bucket's message exactly when the combination did not re-key it. With `tight`, when no message
   * has been forgotten and no event re-keyed, the intervals do not share even an instant.
   */
  lemma Partition(cfg: Config, ops: seq<Op>, key: Wire, tight: bool)
    requires Sensible(cfg) && CleanRun(cfg, ops, tight)
    ensures var run := Exec(cfg, ops);
            var bs := EveryBucket(run);
            Disjoint(bs, key, tight) && (forall i :: 0 <= i < |bs| ==> CleanBucket(cfg, bs[i])) && CleanEvents(cfg, run.log) &&
            Copies(run.adds, OfKey(key)) == Copies(run.dropped, OfKey(key)) + Sum(bs, SizeIfKey(key)) && LateNearby(cfg, run)
  {
    hide Exec, Sum, Copies, Apart, CleanBucket, CleanEvents, CleanRun, LogBuckets, Buckets, Before, Disjoint, SizeIfKey,
         LateNearby;
    RunsAreTidy(cfg, ops, tight);
    var run := Exec(cfg, ops);
    var bs := EveryBucket(run);
    AllGathered(run);
    ApartDisjoint(bs, key, tight);
    forall i | 0 <= i < |bs| ensures CleanBucket(cfg, bs[i]) {
      assert bs[i] in multiset(bs);
    }
    CopiesInOnePlace(cfg, ops, key, tight);
    if tight {
      StillClean(cfg, ops);
    }
    LateOnesAreNear(cfg, ops);
  }

  lemma AllGathered(run: Run)
    ensures multiset(EveryBucket(run)) == Gathered(run)
  {
    hide LogBuckets, Buckets;
  }

  lemma ApartDisjoint(bs: seq<BucketState>, key: Wire, tight: bool)
    requires Apart(multiset(bs), tight)
    ensures Disjoint(bs, key, tight)
  {
    hide Before;
    forall i, j | 0 <= i < |bs| && 0 <= j < |bs| && i != j && bs[i].key == bs[j].key == key
      ensures Before(bs[i], bs[j], tight) || Before(bs[j], bs[i], tight)
    {
      assert bs[i] in multiset(bs) && bs[j] in multiset(bs);
      if bs[i] == bs[j] {
        TwiceIn(bs, i, j);
      }
    }
  }

  lemma TwiceIn(bs: seq<BucketState>, i: nat, j: nat)
    requires i < |bs| && j < |bs| && i != j && bs[i] == bs[j]
    ensures multiset(bs)[bs[i]] > 1
  {
    var a, b := if i < j then i else j, if i < j then j else i;
    assert bs == bs[..b] + [bs[b]] + bs[b + 1..];
    assert bs[..b][a] == bs[a];
  }

  lemma CopiesInOnePlace(cfg: Config, ops: seq<Op>, key: Wire, tight: bool)
    requires Tidy(cfg, Exec(cfg, ops), tight)
    ensures var run := Exec(cfg, ops);
            Copies(run.adds, OfKey(key)) == Copies(run.dropped, OfKey(key)) +
              Sum(EveryBucket(run), SizeIfKey(key))
  {
    hide Exec, Sum, Copies, Apart, CleanBucket, CleanEvents, InBucket, SizeIfKey, InEntry, InSlot;
    var run := Exec(cfg, ops);
    Conservation(cfg, ops, OfKey(key));
    var finished, open := LogBuckets(run.log), Buckets(run.st.open);
    SumConcat(finished + run.st.ready, open, SizeIfKey(key));
    SumConcat(finished, run.st.ready, SizeIfKey(key));
    assert forall b :: b in finished || b in run.st.ready || b in open ==> b in Gathered(run);
    SizesAreCopies(cfg, run.st.ready, key);
    SizesAreCopies(cfg, open, key);
    SizesAreCopies(cfg, finished, key);
    BucketsSum(run.st.open, OfKey(key));
    LogBucketsSum(run.log, OfKey(key));
  }

  function SizeIfKey(key: Wire): BucketState -> int {
    (b: BucketState) => if b.key == key then |b.sightings| else 0
  }

  lemma {:induction false} LogBucketsSum(log: seq<Entry>, p: Which)
    ensures Sum(LogBuckets(log), InBucket(p)) == Sum(log, InEntry(p))
  {
    hide Copies;
    if log != [] {
      LogBucketsSum(log[..|log| - 1], p);
      assert LogBuckets(log)[..|log| - 1] == LogBuckets(log[..|log| - 1]);
    }
  }

  lemma {:induction false} SizesAreCopies(cfg: Config, bs: seq<BucketState>, key: Wire)
    requires forall b :: b in bs ==> CleanBucket(cfg, b)
    ensures Sum(bs, SizeIfKey(key)) == Sum(bs, InBucket(OfKey(key)))
  {
    hide MessageKey, GoodBucket, InOrder, Copies;
    if bs != [] {
      SizesAreCopies(cfg, bs[..|bs| - 1], key);
      var b := bs[|bs| - 1];
      assert CleanBucket(cfg, b);
      AllPicked(b.sightings, key, b.key);
    }
  }
}
