/**
 * When two buckets of one message meet in an instant: the one kind of copy that makes them, over runs of verified copies
 * in on-air order.
 */
module FusionInstants {
  import opened Packets
  import opened Plm
  import opened Combine
  import opened Fusion
  import opened FusionProofs
  import opened FusionKeys
  import opened FusionRuns
  import opened FusionPartition

  // ------------------------------------------------------------------ the copy that makes two buckets meet

  /** A finished bucket of the copy's message ended at the very instant the copy was sent. */
  ghost predicate EndedJustNow(log: seq<Entry>, s: Sighting) {
    exists i :: 0 <= i < |log| && log[i].emission.bucket.key == MessageKey(s.packet) && log[i].emission.bucket.lastAt == s.when
  }

  /**
   * The copy finds neither an open bucket of its message nor an event it is late for, although a bucket of it ended just
   * now: that bucket's event was finished under another key, or has been forgotten.
   */
  ghost predicate Meets(cfg: Config, run: Run, s: Sighting) {
    SlotOf(run.st.open, MessageKey(s.packet)).None? && !Straggler(cfg, run.st.closed, MessageKey(s.packet), s) &&
    EndedJustNow(run.log, s)
  }

  /** No copy of the run makes two buckets meet. */
  ghost predicate NeverMeets(cfg: Config, ops: seq<Op>) {
    ops == [] ||
    (NeverMeets(cfg, ops[..|ops| - 1]) &&
     (ops[|ops| - 1].Add? ==> !Meets(cfg, Exec(cfg, ops[..|ops| - 1]), ops[|ops| - 1].s)))
  }

  // ------------------------------------------------------------------ the bucket a copy goes to

  /** What a clean copy does to the buckets gathered: one grows, none does, or one is added. */
  lemma GatheredAdd(cfg: Config, run: Run, s: Sighting, n: nat)
    requires Tidy(cfg, run, false) && CleanOp(cfg, run, Add(s), false)
    ensures var after := Gathered(Do(cfg, run, Add(s), n));
            var at := SlotOf(run.st.open, MessageKey(s.packet));
            if JoinsOwn(cfg, run.st, s) then
              after == Gathered(run) - multiset{run.st.open[at.value].bucket} + multiset{AddTo(run.st.open[at.value].bucket, s)}
            else if Dropped(cfg, run.st, s) then
              after == Gathered(run)
            else
              after == Gathered(run) + multiset{NewBucket(MessageKey(s.packet), s)}
  {
    hide MessageKey, Inv, HopsLegal, Accepts, Straggler, AddTo, NewBucket, AddStep, Gathered;
    var key := MessageKey(s.packet);
    var at := SlotOf(run.st.open, key);
    AllGood(cfg, run, false);
    AddIsClean(cfg, run.st, s);
    NewKey(s);
    hide Tidy;
    var c := NewBucket(key, s);
    var after := Do(cfg, run, Add(s), n);
    if JoinsOwn(cfg, run.st, s) {
      GatheredUpdate(run, at.value, AddTo(run.st.open[at.value].bucket, s), run.adds);
      SameGathered(after, Run(run.st.(open := AddToSlot(run.st.open, at.value, s)), run.log, run.adds, run.dropped));
    } else if at.Some? {
      var rest := run.st.open[..at.value] + run.st.open[at.value + 1..];
      var retired := run.(st := run.st.(open := rest, ready := run.st.ready + [run.st.open[at.value].bucket]));
      GatheredRetire(run, at.value);
      GatheredAppend(retired, c, run.adds, run.dropped);
      SameGathered(after, Run(retired.st.(open := rest + [Slot(c.key, c)]), run.log, run.adds, run.dropped));
    } else if Dropped(cfg, run.st, s) {
      SameGathered(after, run);
    } else {
      GatheredAppend(run, c, run.adds, run.dropped);
      SameGathered(after, Run(run.st.(open := run.st.open + [Slot(c.key, c)]), run.log, run.adds, run.dropped));
    }
  }

  lemma SameGathered(a: Run, b: Run)
    requires a.log == b.log && a.st.ready == b.st.ready && a.st.open == b.st.open
    ensures Gathered(a) == Gathered(b)
  {
  }

  // ------------------------------------------------------------------ what growing and opening do to the intervals

  /** A bucket that grows from where it began meets exactly those it did. */
  lemma GrownApart(cfg: Config, all: multiset<BucketState>, b: BucketState, c: BucketState)
    requires b in all && b != c && b.key == c.key && b.openedAt == c.openedAt <= b.lastAt <= c.lastAt && !Apart(all, true)
    ensures !Apart(all - multiset{b} + multiset{c}, true)
  {
    var after := all - multiset{b} + multiset{c};
    assert forall x :: x in all && x != b ==> x in after;
    assert all[b] > 1 ==> b in after && !Before(b, c, true) && !Before(c, b, true);
    if x :| all[x] > 1 && !Before(x, x, true) {
      assert x != b ==> after[x] > 1;
    } else {
      var x, y :| x in all && y in all && x != y && x.key == y.key && !Before(x, y, true) && !Before(y, x, true);
      var x', y' := if x == b then c else x, if y == b then c else y;
      assert x' in after && y' in after && x'.key == y'.key && !Before(x', y', true) && !Before(y', x', true);
      assert x' == y' ==> after[c] > 1 && !Before(c, c, true);
    }
  }

  /** A bucket opened once everything has begun is apart from the rest exactly when all of its message has ended. */
  lemma OpenedApart(all: multiset<BucketState>, c: BucketState)
    requires c.openedAt == c.lastAt && forall b :: b in all ==> b.openedAt <= c.openedAt
    ensures Apart(all + multiset{c}, true) <==> Apart(all, true) && AllEnded(all, c.key, c.openedAt, true)
  {
    if Apart(all, true) && AllEnded(all, c.key, c.openedAt, true) {
      AfterEnded(all, c);
    }
    if Apart(all + multiset{c}, true) {
      EndedBefore(all, c);
    }
  }

  lemma AfterEnded(all: multiset<BucketState>, c: BucketState)
    requires Apart(all, true) && AllEnded(all, c.key, c.openedAt, true) && c.openedAt == c.lastAt
    ensures Apart(all + multiset{c}, true)
  {
    var after := all + multiset{c};
    assert forall x :: x in after <==> x in all || x == c;
    assert c !in all;
    forall x | after[x] > 1 ensures Before(x, x, true) {
      assert x != c && all[x] > 1;
    }
  }

  lemma EndedBefore(all: multiset<BucketState>, c: BucketState)
    requires Apart(all + multiset{c}, true) && c.openedAt == c.lastAt && forall b :: b in all ==> b.openedAt <= c.openedAt
    ensures Apart(all, true) && AllEnded(all, c.key, c.openedAt, true)
  {
    var after := all + multiset{c};
    assert forall x :: x in all ==> x in after;
    assert c in after;
    forall x | all[x] > 1 ensures Before(x, x, true) {
      assert after[x] > 1;
    }
    forall b | b in all && b.key == c.key ensures b.lastAt < c.openedAt {
      assert b == c ==> after[c] > 1;
    }
  }

  // ------------------------------------------------------------------ the three cases

  /** With the buckets strictly apart, an open one is strictly last of its message. */
  lemma LatestStrictly(cfg: Config, run: Run)
    requires Tidy(cfg, run, false) && Apart(Gathered(run), true)
    ensures Latest(run.st.open, Gathered(run), true)
  {
    hide Inv, Gathered, GoodBucket, InOrder, AllOfKey, CleanEvents, Knows, Follows, Followed, ClosedSeen;
    var open, all := run.st.open, Gathered(run);
    forall i, b | 0 <= i < |open| && b in all && b != open[i].bucket && b.key == open[i].key
      ensures Before(b, open[i].bucket, true)
    {
      OpenInAll(run, i);
      assert CleanBucket(cfg, b) && CleanBucket(cfg, open[i].bucket);
    }
  }

  lemma JoinApart(cfg: Config, run: Run, s: Sighting, n: nat)
    requires Sensible(cfg) && Tidy(cfg, run, false) && CleanOp(cfg, run, Add(s), false) && JoinsOwn(cfg, run.st, s)
    ensures Apart(Gathered(Do(cfg, run, Add(s), n)), true) <==> Apart(Gathered(run), true)
  {
    var i := SlotOf(run.st.open, MessageKey(s.packet)).value;
    var b := run.st.open[i].bucket;
    hide MessageKey, Inv, HopsLegal, CleanBucket, AddTo, Accepts, Gathered, Apart, Spans, Latest, DistinctKeys, Knows,
         Follows, Followed, CleanEvents, ClosedSeen, Do;
    GatheredAdd(cfg, run, s, n);
    forall j | 0 <= j < |run.st.open| ensures run.st.open[j].bucket in Gathered(run) {
      OpenInAll(run, j);
    }
    OwnKey(run.st.open, i, Gathered(run), false);
    SpanOf(cfg, Gathered(run), run.adds, b);
    LaterAdds(cfg, run, s);
    CleanGrows(cfg, b, s);
    AddToSightings(b, s);
    if Apart(Gathered(run), true) {
      LatestStrictly(cfg, run);
      InvDistinct(run.st);
      ReplaceLatest(cfg, run.st.open, Gathered(run), i, AddTo(b, s), run.adds + [s], true);
    } else {
      Ordered(cfg, b);
      GrownApart(cfg, Gathered(run), b, AddTo(b, s));
    }
  }

  lemma Ordered(cfg: Config, b: BucketState)
    requires CleanBucket(cfg, b)
    ensures b.openedAt <= b.lastAt
  {
  }

  lemma OpenApart(cfg: Config, run: Run, s: Sighting, n: nat)
    requires Sensible(cfg) && Tidy(cfg, run, false) && CleanOp(cfg, run, Add(s), false)
    requires !JoinsOwn(cfg, run.st, s) && !Dropped(cfg, run.st, s)
    ensures Apart(Gathered(Do(cfg, run, Add(s), n)), true) <==>
            Apart(Gathered(run), true) && AllEnded(Gathered(run), MessageKey(s.packet), s.when, true)
  {
    hide MessageKey, Inv, HopsLegal, GoodBucket, InOrder, AllOfKey, NewBucket, Accepts, Gathered, Apart, Latest, Knows,
         Follows, Followed, CleanEvents, ClosedSeen, Do, AllEnded, Straggler;
    GatheredAdd(cfg, run, s, n);
    LaterAdds(cfg, run, s);
    CleanNew(cfg, s);
    OpenedApart(Gathered(run), NewBucket(MessageKey(s.packet), s));
  }

  /** The message's bucket refused the copy, so it and all before it ended strictly earlier. */
  lemma RetiredEnded(cfg: Config, run: Run, s: Sighting)
    requires Sensible(cfg) && Tidy(cfg, run, false) && Apart(Gathered(run), true) && CleanOp(cfg, run, Add(s), false)
    requires SlotOf(run.st.open, MessageKey(s.packet)).Some? && !JoinsOwn(cfg, run.st, s)
    ensures AllEnded(Gathered(run), MessageKey(s.packet), s.when, true)
  {
    LatestStrictly(cfg, run);
    hide MessageKey, Inv, HopsLegal, GoodBucket, Apart, Knows, Follows, CleanEvents, Accepts, Followed;
    var i := SlotOf(run.st.open, MessageKey(s.packet)).value;
    LaterAdds(cfg, run, s);
    OpenInAll(run, i);
    hide Gathered;
    RefusedIsLater(cfg, run.st.open[i].bucket, s.when);
  }

  /** With no open bucket of the message, the finished ones decide. */
  lemma EndedExactlyWhen(cfg: Config, run: Run, s: Sighting)
    requires Tidy(cfg, run, false) && CleanOp(cfg, run, Add(s), false) && SlotOf(run.st.open, MessageKey(s.packet)).None?
    ensures AllEnded(Gathered(run), MessageKey(s.packet), s.when, true) <==> !EndedJustNow(run.log, s)
  {
    hide MessageKey, Inv, CleanBucket, Apart, CleanEvents, ClosedSeen, Spans, Latest, Followed, Gathered, LogBuckets;
    LaterAdds(cfg, run, s);
    NothingPending(run, MessageKey(s.packet), false);
    LogInAll(run);
    hide Tidy, CleanOp;
    var finished := LogBuckets(run.log);
    forall b | b in Gathered(run) && b.key == MessageKey(s.packet)
      ensures b.lastAt <= s.when && exists i :: 0 <= i < |run.log| && run.log[i].emission.bucket == b
    {
      InLog(run.log, b);
    }
  }

  lemma InLog(log: seq<Entry>, b: BucketState)
    requires b in LogBuckets(log)
    ensures exists i :: 0 <= i < |log| && log[i].emission.bucket == b
  {
    var i :| 0 <= i < |log| && LogBuckets(log)[i] == b;
    assert log[i].emission.bucket == b;
  }

  lemma LogInAll(run: Run)
    ensures forall i :: 0 <= i < |run.log| ==> run.log[i].emission.bucket in Gathered(run)
  {
    forall i | 0 <= i < |run.log| ensures run.log[i].emission.bucket in Gathered(run) {
      assert LogBuckets(run.log)[i] in multiset(LogBuckets(run.log));
    }
  }

  // ------------------------------------------------------------------ one copy, and whole runs

  /** A verified copy leaves buckets of a message meeting exactly when some did before or it opens one where another ended. */
  lemma MeetsExactlyWhen(cfg: Config, run: Run, s: Sighting, n: nat)
    requires Sensible(cfg) && Tidy(cfg, run, false) && CleanOp(cfg, run, Add(s), false)
    ensures Apart(Gathered(Do(cfg, run, Add(s), n)), true) <==> Apart(Gathered(run), true) && !Meets(cfg, run, s)
  {
    hide Tidy, Apart, Gathered, Do, MessageKey, Straggler, Accepts, EndedJustNow, AllEnded, CleanOp;
    if JoinsOwn(cfg, run.st, s) {
      JoinApart(cfg, run, s, n);
    } else if Dropped(cfg, run.st, s) {
      GatheredAdd(cfg, run, s, n);
    } else {
      OpenApart(cfg, run, s, n);
      if SlotOf(run.st.open, MessageKey(s.packet)).None? {
        EndedExactlyWhen(cfg, run, s);
      } else if Apart(Gathered(run), true) {
        RetiredEnded(cfg, run, s);
      }
    }
  }

  lemma {:induction false} ApartExactlyWhen(cfg: Config, ops: seq<Op>)
    requires Sensible(cfg) && CleanRun(cfg, ops, false)
    ensures Apart(Gathered(Exec(cfg, ops)), true) <==> NeverMeets(cfg, ops)
  {
    hide Tidy, Apart, Gathered, Do, CleanOp, Meets;
    if ops == [] {
      NothingGathered();
    } else {
      var n := |ops| - 1;
      var run := Exec(cfg, ops[..n]);
      ApartExactlyWhen(cfg, ops[..n]);
      RunsAreTidy(cfg, ops[..n], false);
      match ops[n] {
        case Add(s) => MeetsExactlyWhen(cfg, run, s, n);
        case Pop(now) => PopTidy(cfg, run, now, n, false);
        case Flush(now) => FlushTidy(cfg, run, now, n, false);
      }
    }
  }

  lemma NothingGathered()
    ensures Apart(Gathered(Run(EMPTY, [], [], [])), true)
  {
  }

  lemma DisjointApart(bs: seq<BucketState>)
    requires forall key :: Disjoint(bs, key, true)
    ensures Apart(multiset(bs), true)
  {
    hide Before;
    forall b, c | b in bs && c in bs && b != c && b.key == c.key ensures Before(b, c, true) || Before(c, b, true) {
      var i, j :| 0 <= i < |bs| && 0 <= j < |bs| && bs[i] == b && bs[j] == c;
      assert Disjoint(bs, b.key, true);
    }
    forall b | multiset(bs)[b] > 1 ensures Before(b, b, true) {
      var i, j := TwoPlaces(bs, b);
      assert Disjoint(bs, b.key, true);
    }
  }

  lemma {:induction false} TwoPlaces(bs: seq<BucketState>, b: BucketState) returns (i: nat, j: nat)
    requires multiset(bs)[b] > 1
    ensures i < j < |bs| && bs[i] == bs[j] == b
  {
    var n := |bs| - 1;
    assert bs == bs[..n] + [bs[n]];
    if bs[n] == b {
      assert b in bs[..n];
      i :| 0 <= i < n && bs[..n][i] == b;
      j := n;
    } else {
      i, j := TwoPlaces(bs[..n], b);
    }
  }

  /**
   * Any run of verified copies in on-air order: no two buckets of a message share even an instant exactly when no copy
   * opened a bucket at the instant another of its message had ended.
   */
  lemma StrictExactlyWhen(cfg: Config, ops: seq<Op>)
    requires Sensible(cfg) && CleanRun(cfg, ops, false)
    ensures (forall key :: Disjoint(EveryBucket(Exec(cfg, ops)), key, true)) <==> NeverMeets(cfg, ops)
  {
    hide Exec, CleanRun, Apart, Disjoint, NeverMeets, EveryBucket, Gathered;
    var run := Exec(cfg, ops);
    AllGathered(run);
    ApartExactlyWhen(cfg, ops);
    if Apart(Gathered(run), true) {
      forall key ensures Disjoint(EveryBucket(run), key, true) {
        ApartDisjoint(EveryBucket(run), key, true);
      }
    }
    if forall key :: Disjoint(EveryBucket(run), key, true) {
      DisjointApart(EveryBucket(run));
    }
  }
}
