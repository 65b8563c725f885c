/** Repeat numbering over whole runs: 0, 1, 2, ... per message until the message is forgotten. */
module FusionNumbering {
  import opened Common
  import opened Packets
  import opened Plm
  import opened Sorting
  import opened Combine
  import opened Fusion
  import opened FusionProofs
  import opened FusionRuns

  /** The latest entry with this key. */
  ghost function LastOf(log: seq<Entry>, key: Wire): (r: Option<nat>)
    ensures r.Some? ==> r.value < |log| && log[r.value].emission.event.key == key
    ensures r.Some? ==> forall i :: r.value < i < |log| ==> log[i].emission.event.key != key
    ensures r.None? ==> forall i :: 0 <= i < |log| ==> log[i].emission.event.key != key
  {
    if log == [] then None
    else if log[|log| - 1].emission.event.key == key then Some(|log| - 1)
    else LastOf(log[..|log| - 1], key)
  }

  /** Operation m is a `pop_ready` so long after this event was finished that its key is dropped. */
  ghost predicate Forgets(cfg: Config, ops: seq<Op>, e: Entry, m: nat) {
    m < |ops| && e.op < m && ops[m].Pop? && ops[m].now - e.at > cfg.repeatMemory
  }

  ghost predicate ForgottenBy(cfg: Config, ops: seq<Op>, e: Entry, upto: nat) {
    exists m: nat :: m < upto && Forgets(cfg, ops, e, m)
  }

  /** The closed table knows the latest event of each message, unless a `pop_ready` has forgotten it. */
  ghost predicate Tracks(cfg: Config, ops: seq<Op>, closed: map<Wire, ClosedKey>, log: seq<Entry>, key: Wire) {
    var last := LastOf(log, key);
    if key in closed then
      last.Some? && !ForgottenBy(cfg, ops, log[last.value], |ops|) &&
      var e := log[last.value].emission.event;
      closed[key] == ClosedKey(log[last.value].at, e.repeatIndex, e.firstSeen, e.lastSeen)
    else last.None? || ForgottenBy(cfg, ops, log[last.value], |ops|)
  }

  ghost predicate TracksAll(cfg: Config, ops: seq<Op>, closed: map<Wire, ClosedKey>, log: seq<Entry>) {
    forall key :: Tracks(cfg, ops, closed, log, key)
  }

  /** The number an event must carry, given the ones finished before it. */
  ghost predicate Numbered(cfg: Config, ops: seq<Op>, log: seq<Entry>, i: nat)
    requires i < |log|
  {
    var last := LastOf(log[..i], log[i].emission.event.key);
    log[i].emission.event.repeatIndex
    == if last.None? || ForgottenBy(cfg, ops, log[last.value], log[i].op + 1) then 0
       else log[last.value].emission.event.repeatIndex + 1
  }

  ghost predicate AllNumbered(cfg: Config, ops: seq<Op>, log: seq<Entry>) {
    forall i :: 0 <= i < |log| ==> Numbered(cfg, ops, log, i)
  }

  ghost predicate Sound(cfg: Config, ops: seq<Op>, closed: map<Wire, ClosedKey>, log: seq<Entry>) {
    TracksAll(cfg, ops, closed, log) && AllNumbered(cfg, ops, log) && forall i :: 0 <= i < |log| ==> log[i].op < |ops|
  }

  // ------------------------------------------------------------------ one more operation

  lemma ForgottenStays(cfg: Config, ops: seq<Op>, op: Op, e: Entry, upto: nat)
    requires upto <= |ops|
    ensures ForgottenBy(cfg, ops + [op], e, upto) <==> ForgottenBy(cfg, ops, e, upto)
  {
    if ForgottenBy(cfg, ops, e, upto) {
      var m: nat :| m < upto && Forgets(cfg, ops, e, m);
      assert Forgets(cfg, ops + [op], e, m);
    }
    if ForgottenBy(cfg, ops + [op], e, upto) {
      var m: nat :| m < upto && Forgets(cfg, ops + [op], e, m);
      assert Forgets(cfg, ops, e, m);
    }
  }

  lemma ForgottenNow(cfg: Config, ops: seq<Op>, op: Op, e: Entry)
    requires e.op < |ops|
    ensures ForgottenBy(cfg, ops + [op], e, |ops| + 1)
         <==> ForgottenBy(cfg, ops, e, |ops|) || (op.Pop? && op.now - e.at > cfg.repeatMemory)
  {
    ForgottenStays(cfg, ops, op, e, |ops|);
    if op.Pop? && op.now - e.at > cfg.repeatMemory {
      assert Forgets(cfg, ops + [op], e, |ops|);
    }
    if ForgottenBy(cfg, ops + [op], e, |ops| + 1) && !ForgottenBy(cfg, ops + [op], e, |ops|) {
      var m: nat :| m < |ops| + 1 && Forgets(cfg, ops + [op], e, m);
      assert m == |ops|;
    }
  }

  /** The table after the operation has done its forgetting, before it finishes anything. */
  ghost function ClosedAtStart(cfg: Config, closed: map<Wire, ClosedKey>, op: Op): map<Wire, ClosedKey> {
    if op.Pop? then Remembered(cfg, closed, op.now) else closed
  }

  lemma OperationStarts(cfg: Config, ops: seq<Op>, op: Op, closed: map<Wire, ClosedKey>, log: seq<Entry>)
    requires Sound(cfg, ops, closed, log)
    ensures Sound(cfg, ops + [op], ClosedAtStart(cfg, closed, op), log)
  {
    forall key ensures Tracks(cfg, ops + [op], ClosedAtStart(cfg, closed, op), log, key) {
      assert Tracks(cfg, ops, closed, log, key);
      var last := LastOf(log, key);
      if last.Some? {
        ForgottenNow(cfg, ops, op, log[last.value]);
      }
    }
    forall i | 0 <= i < |log| ensures Numbered(cfg, ops + [op], log, i) {
      assert Numbered(cfg, ops, log, i);
      var last := LastOf(log[..i], log[i].emission.event.key);
      if last.Some? {
        ForgottenStays(cfg, ops, op, log[last.value], log[i].op + 1);
      }
    }
  }

  lemma LastOfAppend(log: seq<Entry>, e: Entry, key: Wire)
    ensures LastOf(log + [e], key) == if e.emission.event.key == key then Some(|log|) else LastOf(log, key)
  {
    assert (log + [e])[..|log|] == log;
  }

  /** Finishing one more event in the current operation. */
  lemma EventFinished(cfg: Config, ops: seq<Op>, closed: map<Wire, ClosedKey>, log: seq<Entry>, e: Entry)
    requires Sound(cfg, ops, closed, log) && ops != [] && e.op == |ops| - 1
    requires var event := e.emission.event;
             event.repeatIndex == if event.key in closed then closed[event.key].index + 1 else 0
    ensures var event := e.emission.event;
            Sound(cfg, ops, closed[event.key := ClosedKey(e.at, event.repeatIndex, event.firstSeen, event.lastSeen)], log + [e])
  {
    var event := e.emission.event;
    var after := closed[event.key := ClosedKey(e.at, event.repeatIndex, event.firstSeen, event.lastSeen)];
    forall key ensures Tracks(cfg, ops, after, log + [e], key) {
      assert Tracks(cfg, ops, closed, log, key);
      LastOfAppend(log, e, key);
    }
    forall i | 0 <= i < |log + [e]| ensures Numbered(cfg, ops, log + [e], i) {
      if i < |log| {
        assert Numbered(cfg, ops, log, i);
        assert (log + [e])[..i] == log[..i];
      } else {
        assert Tracks(cfg, ops, closed, log, event.key);
        assert (log + [e])[..i] == log;
      }
    }
  }

  // ------------------------------------------------------------------ a whole emission

  ghost function LogOf(log: seq<Entry>, op: nat, now: real, em: Emitting): seq<Entry> {
    log + Entries(op, now, em.out)
  }

  lemma FinishSound(cfg: Config, ops: seq<Op>, log: seq<Entry>, em: Emitting, b: BucketState, event: FusedEvent, now: real)
    requires ops != [] && Sound(cfg, ops, em.st.closed, LogOf(log, |ops| - 1, now, em))
    ensures var after := Finish(em, b, event, now);
            Sound(cfg, ops, after.st.closed, LogOf(log, |ops| - 1, now, after))
  {
    hide MessageKey, Sound;
    var after := Finish(em, b, event, now);
    var e := Entry(|ops| - 1, now, after.out[|em.out|]);
    EventFinished(cfg, ops, em.st.closed, LogOf(log, |ops| - 1, now, em), e);
    assert LogOf(log, |ops| - 1, now, after) == LogOf(log, |ops| - 1, now, em) + [e];
  }

  lemma {:induction false} SettleAllSound(cfg: Config, ops: seq<Op>, log: seq<Entry>, em: Emitting, damaged: seq<BucketState>, now: real)
    requires NonEmpty(damaged)
    requires ops != [] && Sound(cfg, ops, em.st.closed, LogOf(log, |ops| - 1, now, em))
    ensures var after := SettleAll(cfg, em, damaged, now);
            Sound(cfg, ops, after.st.closed, LogOf(log, |ops| - 1, now, after))
  {
    hide MessageKey, Sound, Finish, Build, Accepts, AddAll;
    if damaged != [] {
      var n := |damaged| - 1;
      SettleAllSound(cfg, ops, log, em, damaged[..n], now);
      FinishSound(cfg, ops, log, SettleAll(cfg, em, damaged[..n], now), damaged[n], Build(cfg, damaged[n]), now);
    }
  }

  lemma {:induction false} FinishAllSound(cfg: Config, ops: seq<Op>, log: seq<Entry>, em: Emitting, bs: seq<BucketState>, now: real)
    requires NonEmpty(bs)
    requires ops != [] && Sound(cfg, ops, em.st.closed, LogOf(log, |ops| - 1, now, em))
    ensures var after := FinishAll(cfg, em, bs, now);
            Sound(cfg, ops, after.st.closed, LogOf(log, |ops| - 1, now, after))
  {
    hide Sound, Finish, Build;
    if bs != [] {
      var n := |bs| - 1;
      FinishAllSound(cfg, ops, log, em, bs[..n], now);
      FinishSound(cfg, ops, log, FinishAll(cfg, em, bs[..n], now), bs[n], Build(cfg, bs[n]), now);
    }
  }

  lemma EmitSound(cfg: Config, ops: seq<Op>, log: seq<Entry>, st: FusionState, done: seq<BucketState>, now: real)
    requires NonEmpty(done) && ops != [] && Sound(cfg, ops, st.closed, log)
    ensures var em := Emit(cfg, st, done, now);
            Sound(cfg, ops, em.st.closed, log + Entries(|ops| - 1, now, em.out))
  {
    hide Sound, SettleAll, FinishAll, Filter, SortBy;
    var sorted := SortBy(done, Opened());
    SortNonEmpty(done);
    var start := Emitting(st, Filter(sorted, true), [], []);
    assert LogOf(log, |ops| - 1, now, start) == log;
    FilterNonEmpty(sorted, true);
    FilterNonEmpty(sorted, false);
    SettleAllSound(cfg, ops, log, start, Filter(sorted, false), now);
    SettleKeepsPending(cfg, start, Filter(sorted, false), now);
    var settled := SettleAll(cfg, start, Filter(sorted, false), now);
    FinishAllSound(cfg, ops, log, settled, settled.pending, now);
  }

  /**
   * Over every run each event is numbered one past the previous event of its message in finishing order, or 0 when
   * there is none or a `pop_ready` in between came more than the repeat memory after it; and the closed table holds
   * exactly the messages not yet forgotten.
   */
  lemma {:induction false} NumberingOfRuns(cfg: Config, ops: seq<Op>)
    ensures Sound(cfg, ops, Exec(cfg, ops).st.closed, Exec(cfg, ops).log)
  {
    hide Sound, Inv, Emit, StillOpen, ClosedBuckets, AddDrops;
    if ops == [] {
      NothingFinished(cfg);
    } else {
      var n := |ops| - 1;
      NumberingOfRuns(cfg, ops[..n]);
      var run := Exec(cfg, ops[..n]);
      assert ops[..n] + [ops[n]] == ops;
      OperationStarts(cfg, ops[..n], ops[n], run.st.closed, run.log);
      match ops[n] {
        case Add(s) => AddKeepsClosed(cfg, run.st, s);
        case Pop(now) =>
          InvSane(run.st);
          var cut := now - cfg.lateness;
          ClosedNonEmpty(cfg, run.st.open, cut);
          EmitSound(cfg, ops, run.log, run.st.(open := StillOpen(cfg, run.st.open, cut), ready := [],
                                               closed := Remembered(cfg, run.st.closed, now)),
                    run.st.ready + ClosedBuckets(cfg, run.st.open, cut), now);
        case Flush(now) =>
          InvSane(run.st);
          EmitSound(cfg, ops, run.log, run.st.(open := [], ready := []), run.st.ready + Buckets(run.st.open), now);
      }
    }
  }

  lemma AddKeepsClosed(cfg: Config, st: FusionState, s: Sighting)
    ensures AddStep(cfg, st, s).closed == st.closed
  {
    hide MessageKey, Place, Accepts, Straggler;
  }

  lemma NothingFinished(cfg: Config)
    ensures Sound(cfg, [], map[], [])
  {
  }
}
