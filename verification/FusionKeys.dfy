/** When two open buckets come to carry one message: the one kind of call that does it, and whole runs. */
module FusionKeys {
  import opened Packets
  import opened Plm
  import opened Sorting
  import opened Combine
  import opened Fusion
  import opened FusionProofs
  import opened FusionRuns

  /** No two open buckets carry one message. */
  ghost predicate OnePerKey(open: seq<Slot>) {
    forall i, j :: 0 <= i < j < |open| ==> open[i].bucket.key != open[j].bucket.key
  }

  // ------------------------------------------------------------------ what can be checked before the call

  /** The copy's own slot takes it. */
  predicate JoinsOwn(cfg: Config, st: FusionState, s: Sighting) {
    var at := SlotOf(st.open, MessageKey(s.packet));
    at.Some? && Accepts(cfg, st.open[at.value].bucket, s.when)
  }

  /** The copy is counted late. */
  predicate Dropped(cfg: Config, st: FusionState, s: Sighting) {
    var key := MessageKey(s.packet);
    SlotOf(st.open, key).None? && Straggler(cfg, st.closed, key, s)
  }

  /** The slots without the copy's own, which is retired if it does not take it. */
  function OtherSlots(open: seq<Slot>, key: Wire): seq<Slot> {
    var at := SlotOf(open, key);
    if at.Some? then open[..at.value] + open[at.value + 1..] else open
  }

  /** Nothing open takes the copy, by key or by similarity. */
  predicate OpensNew(cfg: Config, st: FusionState, s: Sighting) {
    var rest := OtherSlots(st.open, MessageKey(s.packet));
    !JoinsOwn(cfg, st, s) && !Dropped(cfg, st, s) && (cfg.allowCombine ==> Nearest(cfg, rest, s, |rest|) == Far)
  }

  /** Some open bucket carries this message under another key's slot. */
  ghost predicate Misplaced(open: seq<Slot>, key: Wire) {
    exists i :: 0 <= i < |open| && open[i].bucket.key == key && open[i].key != key
  }

  ghost predicate Splits(cfg: Config, st: FusionState, s: Sighting) {
    !Dropped(cfg, st, s) && (s.packet.Verified() || OpensNew(cfg, st, s)) && Misplaced(st.open, MessageKey(s.packet))
  }

  // ------------------------------------------------------------------ one copy

  /** A copy joins slot i: an unverified one changes no key, a verified one makes the bucket its message's. */
  lemma JoinSplits(open: seq<Slot>, i: nat, s: Sighting)
    requires i < |open| && OnePerKey(open)
    ensures OnePerKey(AddToSlot(open, i, s)) <==>
            !(s.packet.Verified() && exists j :: 0 <= j < |open| && j != i && open[j].bucket.key == MessageKey(s.packet))
  {
    hide MessageKey, Packet.Verified;
    var key, after := MessageKey(s.packet), AddToSlot(open, i, s);
    if s.packet.Verified() && exists j :: 0 <= j < |open| && j != i && open[j].bucket.key == key {
      var j :| 0 <= j < |open| && j != i && open[j].bucket.key == key;
      assert after[i].bucket.key == key == after[j].bucket.key;
    }
  }

  /** A new bucket at the end. */
  lemma OpenSplits(open: seq<Slot>, key: Wire, s: Sighting)
    requires OnePerKey(open) && key == MessageKey(s.packet)
    ensures OnePerKey(open + [Slot(key, NewBucket(key, s))]) <==> forall j :: 0 <= j < |open| ==> open[j].bucket.key != key
  {
    hide MessageKey, Packet.Verified;
    var after := open + [Slot(key, NewBucket(key, s))];
    assert after[|open|].bucket.key == key;
    assert forall j :: 0 <= j < |open| ==> after[j] == open[j];
  }

  /** A bucket a verified copy joins by similarity is still its opener's. */
  lemma NearHasOwnKey(cfg: Config, open: seq<Slot>, s: Sighting)
    requires GoodOpen(open)
    ensures var near := Nearest(cfg, open, s, |open|);
            near.Near? && s.packet.Verified() ==> open[near.slot].bucket.key == open[near.slot].key
  {
    hide Nearest, Accepts, Distance, MessageKey, BucketOf, Homogeneous, Packet.Verified;
    var near := Nearest(cfg, open, s, |open|);
    if near.Near? && s.packet.Verified() {
      var ss := open[near.slot].bucket.sightings;
      BucketMeaning(ss);
      OpenerStays(ss);
    }
  }

  lemma {:induction false} OpenerStays(ss: seq<Sighting>)
    requires ss != [] && !AnyVerified(ss)
    ensures LatestKey(ss) == MessageKey(ss[0].packet)
  {
    hide MessageKey, Packet.Verified;
    LastVerified(ss);
    if |ss| > 1 {
      OpenerStays(ss[..|ss| - 1]);
    }
  }

  lemma PlaceSplits(cfg: Config, open: seq<Slot>, s: Sighting)
    requires GoodOpen(open) && OnePerKey(open) && forall i :: 0 <= i < |open| ==> open[i].key != MessageKey(s.packet)
    ensures OnePerKey(Place(cfg, open, MessageKey(s.packet), s)) <==>
            !((s.packet.Verified() || (cfg.allowCombine ==> Nearest(cfg, open, s, |open|) == Far)) &&
              Misplaced(open, MessageKey(s.packet)))
  {
    hide MessageKey, Nearest, GoodBucket, AddToSlot, NewBucket, OnePerKey, Packet.Verified;
    var key := MessageKey(s.packet);
    var near := if cfg.allowCombine then Nearest(cfg, open, s, |open|) else Far;
    if near.Near? {
      NearHasOwnKey(cfg, open, s);
      JoinSplits(open, near.slot, s);
    } else {
      OpenSplits(open, key, s);
    }
  }

  lemma OthersKeep(open: seq<Slot>, key: Wire)
    requires GoodOpen(open) && OnePerKey(open)
    ensures var rest := OtherSlots(open, key);
            GoodOpen(rest) && OnePerKey(rest) && (Misplaced(rest, key) <==> Misplaced(open, key)) &&
            forall i :: 0 <= i < |rest| ==> rest[i].key != key
  {
    hide GoodOpen, Misplaced, OnePerKey;
    var at := SlotOf(open, key);
    if at.Some? {
      RemoveSlotGood(open, at.value);
      RemoveKeepsOne(open, at.value);
      MisplacedStays(open, at.value, key);
    }
  }

  lemma RemoveKeepsOne(open: seq<Slot>, at: nat)
    requires OnePerKey(open) && at < |open|
    ensures OnePerKey(open[..at] + open[at + 1..])
  {
    var rest := open[..at] + open[at + 1..];
    forall i, j | 0 <= i < j < |rest| ensures rest[i].bucket.key != rest[j].bucket.key {
      var p, q := if i < at then i else i + 1, if j < at then j else j + 1;
      assert rest[i] == open[p] && rest[j] == open[q] && p < q;
    }
  }

  lemma MisplacedStays(open: seq<Slot>, at: nat, key: Wire)
    requires at < |open| && open[at].key == key
    ensures Misplaced(open[..at] + open[at + 1..], key) <==> Misplaced(open, key)
  {
    var rest := open[..at] + open[at + 1..];
    if Misplaced(open, key) {
      var i :| 0 <= i < |open| && open[i].bucket.key == key && open[i].key != key;
      assert rest[if i < at then i else i - 1] == open[i];
    }
    if Misplaced(rest, key) {
      var i :| 0 <= i < |rest| && rest[i].bucket.key == key && rest[i].key != key;
      assert open[if i < at then i else i + 1] == rest[i];
    }
  }

  /**
   * From a state in which no message has two open buckets, a copy leaves one that has exactly when it is not dropped, it
   * is verified or opens a bucket of its own, and some open bucket carries its message under another key's slot.
   */
  lemma SplitsExactlyWhen(cfg: Config, st: FusionState, s: Sighting)
    requires Inv(st) && OnePerKey(st.open)
    ensures OnePerKey(AddStep(cfg, st, s).open) <==> !Splits(cfg, st, s)
  {
    hide MessageKey, Place, Accepts, GoodBucket, Straggler, AddToSlot, Nearest, OnePerKey, Packet.Verified;
    var key := MessageKey(s.packet);
    var at := SlotOf(st.open, key);
    AddCases(cfg, st, s);
    hide AddStep;
    OthersKeep(st.open, key);
    var rest := OtherSlots(st.open, key);
    if JoinsOwn(cfg, st, s) {
      JoinSplits(st.open, at.value, s);
      OnlyOwn(st.open, at.value, key);
    } else if !Dropped(cfg, st, s) {
      PlaceSplits(cfg, rest, s);
    }
  }

  /** Apart from its own slot, a bucket of this message is under another key's. */
  lemma OnlyOwn(open: seq<Slot>, at: nat, key: Wire)
    requires GoodOpen(open) && at < |open| && open[at].key == key
    ensures Misplaced(open, key) <==> exists j :: 0 <= j < |open| && j != at && open[j].bucket.key == key
  {
    hide GoodSlot;
  }

  // ------------------------------------------------------------------ emitting

  /** The same buckets' messages, in the same order. */
  ghost predicate SameKeys(a: seq<Slot>, b: seq<Slot>) {
    |a| == |b| && forall i :: 0 <= i < |a| ==> a[i].bucket.key == b[i].bucket.key
  }

  lemma SettleKeepsKeys(cfg: Config, em: Emitting, b: BucketState, now: real)
    requires EmittingInv(em) && GoodBucket(b) && !b.hasGood
    ensures SameKeys(em.st.open, Settle(cfg, em, b, now).st.open)
  {
    hide MessageKey, Build, Accepts, AddAll, BucketOf, Homogeneous;
    BucketMeaning(b.sightings);
    var event := Build(cfg, b);
    if event.combined {
      var live := SlotOf(em.st.open, MessageKey(event.packet));
      if live.Some? {
        DamagedJoins(em.st.open[live.value].bucket, b.sightings);
      }
    }
  }

  lemma {:induction false} SettleAllKeepsKeys(cfg: Config, em: Emitting, damaged: seq<BucketState>, now: real)
    requires EmittingInv(em) && Damaged(damaged) && NonEmpty(damaged)
    ensures SameKeys(em.st.open, SettleAll(cfg, em, damaged, now).st.open)
  {
    hide GoodBucket, Settle, Inv;
    if damaged != [] {
      var n := |damaged| - 1;
      SettleAllKeepsKeys(cfg, em, damaged[..n], now);
      SettleAllKeepsInv(cfg, em, damaged[..n], now);
      SettleKeepsKeys(cfg, SettleAll(cfg, em, damaged[..n], now), damaged[n], now);
    }
  }

  /** Emitting changes no open bucket's message. */
  lemma EmitKeepsKeys(cfg: Config, st: FusionState, done: seq<BucketState>, now: real)
    requires Inv(st) && GoodBuckets(done) && NonEmpty(done)
    ensures SameKeys(st.open, Emit(cfg, st, done, now).st.open)
  {
    hide GoodBucket, GoodOpen, SettleAll, FinishAll, Filter, SortBy;
    var sorted := SortBy(done, Opened());
    SortGood(done);
    SortNonEmpty(done);
    FilterGood(sorted, true);
    FilterGood(sorted, false);
    FilterNonEmpty(sorted, true);
    FilterNonEmpty(sorted, false);
    var start := Emitting(st, Filter(sorted, true), [], []);
    SettleAllKeepsKeys(cfg, start, Filter(sorted, false), now);
    SettleKeepsPending(cfg, start, Filter(sorted, false), now);
    var settled := SettleAll(cfg, start, Filter(sorted, false), now);
    FinishAllKeepsState(cfg, settled, settled.pending, now);
  }

  lemma {:induction false} StillOnePerKey(cfg: Config, open: seq<Slot>, now: real)
    requires OnePerKey(open)
    ensures OnePerKey(StillOpen(cfg, open, now))
    ensures forall x :: x in StillOpen(cfg, open, now) ==> x in open
  {
    hide IsClosed;
    if open != [] {
      var n := |open| - 1;
      StillOnePerKey(cfg, open[..n], now);
      forall x | x in StillOpen(cfg, open[..n], now) ensures x.bucket.key != open[n].bucket.key {
        var i :| 0 <= i < n && open[..n][i] == x;
        assert open[i] == x;
      }
    }
  }

  // ------------------------------------------------------------------ whole runs

  lemma EmissionKeepsOne(cfg: Config, run: Run, op: Op, n: nat)
    requires Inv(run.st) && OnePerKey(run.st.open) && !op.Add?
    ensures OnePerKey(Do(cfg, run, op, n).st.open)
  {
    hide BucketOf, Homogeneous, Emit, StillOpen, ClosedBuckets;
    InvSane(run.st);
    if op.Pop? {
      var cut := op.now - cfg.lateness;
      CloseGood(cfg, run.st.open, cut);
      ClosedNonEmpty(cfg, run.st.open, cut);
      StillOnePerKey(cfg, run.st.open, cut);
      EmitKeepsKeys(cfg, PopRest(cfg, run.st, op.now), PopDone(cfg, run.st, op.now), op.now);
    } else {
      EmitKeepsKeys(cfg, run.st.(open := [], ready := []), run.st.ready + Buckets(run.st.open), op.now);
    }
  }

  /** Throughout this run, and at its end, no message has two open buckets. */
  ghost predicate OneThroughout(cfg: Config, ops: seq<Op>) {
    OnePerKey(Exec(cfg, ops).st.open) && (ops != [] ==> OneThroughout(cfg, ops[..|ops| - 1]))
  }

  /** No copy of this run arrives to find its message under another key's slot, and splits it. */
  ghost predicate NoneSplits(cfg: Config, ops: seq<Op>) {
    ops != [] ==> NoneSplits(cfg, ops[..|ops| - 1]) && !SplitsBy(cfg, Exec(cfg, ops[..|ops| - 1]).st, ops[|ops| - 1])
  }

  ghost predicate SplitsBy(cfg: Config, st: FusionState, op: Op) { op.Add? && Splits(cfg, st, op.s) }

  /** Throughout a run each message has one open bucket at most, exactly when none of its copies splits one. */
  lemma {:induction false} OneThroughoutExactlyWhen(cfg: Config, ops: seq<Op>)
    ensures OneThroughout(cfg, ops) <==> NoneSplits(cfg, ops)
  {
    hide Exec, OnePerKey, SplitsBy, Inv;
    if ops == [] {
      StartsWithOne(cfg);
    } else {
      OneThroughoutExactlyWhen(cfg, ops[..|ops| - 1]);
      if OneThroughout(cfg, ops[..|ops| - 1]) {
        OneSoFar(cfg, ops[..|ops| - 1]);
        LastStep(cfg, ops);
      }
    }
  }

  lemma OneSoFar(cfg: Config, ops: seq<Op>)
    requires OneThroughout(cfg, ops)
    ensures OnePerKey(Exec(cfg, ops).st.open)
  {
    hide Exec, OnePerKey;
  }

  lemma StartsWithOne(cfg: Config)
    ensures OnePerKey(Exec(cfg, []).st.open)
  {
  }

  lemma LastStep(cfg: Config, ops: seq<Op>)
    requires ops != [] && OnePerKey(Exec(cfg, ops[..|ops| - 1]).st.open)
    ensures OnePerKey(Exec(cfg, ops).st.open) <==> !SplitsBy(cfg, Exec(cfg, ops[..|ops| - 1]).st, ops[|ops| - 1])
  {
    hide Inv, Splits, OnePerKey, AddStep, PopStep, FlushStep;
    var n := |ops| - 1;
    var run := Exec(cfg, ops[..n]);
    match ops[n] {
      case Add(s) => SplitsExactlyWhen(cfg, run.st, s);
      case _ => EmissionKeepsOne(cfg, run, ops[n], n);
    }
  }
}
