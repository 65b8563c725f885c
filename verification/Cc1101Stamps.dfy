/** When a capture began and when bytes stopped coming, over every run: what the radio's own time stamps say of the drains. */
module Cc1101Stamps {
  import opened Common
  import opened Cc1101
  import opened Cc1101Proofs

  /** How long ago, on a 32-bit clock that wraps: the time that has to be added to the earlier one to come to now. */
  lemma AgoExactly(now: nat, then_: nat)
    ensures Ago(now, then_) < 0x1_0000_0000 && (then_ + Ago(now, then_)) % 0x1_0000_0000 == now % 0x1_0000_0000
  {
  }

  /** The whole microseconds that many bytes take on the air, at 9124 symbols a second. */
  lemma AirTimeExactly(bytes: nat)
    ensures AirUs(bytes) * 9124 <= bytes * 8000000 < (AirUs(bytes) + 1) * 9124
  {
  }

  // ------------------------------------------------------------------ one drain

  /**
   * What the loop does to the stamp, `waiting` bytes being there from the first of the capture under way on. That capture
   * keeps the stamp it has; every other one the loop begins, or sees a byte of, is stamped by the bytes waiting from its
   * own first one on.
   */
  ghost predicate LoopStamps(cap: nat, now: nat, begun: bool, bit: nat, waiting: nat, made: seq<Capture>, after: nat) {
    (forall k :: 0 <= k < |made| ==> if k == 0 && begun then made[k].firstBit == bit else MadeBy(cap, now, waiting, k, made[k])) &&
    Start(cap, |made|) <= waiting &&
    after == if made == [] && begun then bit
             else if waiting > Start(cap, |made|) then Ago(now, AirUs(waiting - Start(cap, |made|)))
             else if made == [] then bit else made[|made| - 1].firstBit
  }

  /** The k-th capture the loop completes is stamped by the bytes waiting from its first one on. */
  ghost predicate MadeBy(cap: nat, now: nat, waiting: nat, k: nat, c: Capture) {
    Start(cap, k) <= waiting && c.firstBit == Ago(now, AirUs(waiting - Start(cap, k)))
  }

  lemma OneMoreMade(cap: nat, now: nat, begun: bool, bit: nat, waiting: nat, c: Capture, later: seq<Capture>, after: nat)
    requires cap <= waiting && LoopStamps(cap, now, false, c.firstBit, waiting - cap, later, after)
    requires c.firstBit == if begun then bit else Ago(now, AirUs(waiting))
    ensures LoopStamps(cap, now, begun, bit, waiting, [c] + later, after)
  {
    hide Ago, AirUs, Start;
    StartSteps(cap, 1, |later|);
    StartSteps(cap, 0, 0);
    forall k | 0 < k < 1 + |later| ensures MadeBy(cap, now, waiting, k, ([c] + later)[k]) {
      StartSteps(cap, 1, k - 1);
      assert MadeBy(cap, now, waiting - cap, k - 1, later[k - 1]);
    }
    assert MadeBy(cap, now, waiting, 0, c) || begun;
    hide MadeBy;
  }

  lemma NoneMade(cap: nat, now: nat, begun: bool, bit: nat, waiting: nat)
    ensures LoopStamps(cap, now, begun, bit, waiting, [],
                       if begun || waiting == 0 then bit else Ago(now, AirUs(waiting)))
  {
    StartSteps(cap, 0, 0);
  }

  lemma {:induction false} UnloadStamps(cap: nat, r: Radio, avail: nat, now: nat, arrivals: seq<seq<byte>>)
    requires Sized(cap, r) && avail <= |r.fifo| && (r.partial != [] ==> avail > 0)
    ensures LoopStamps(cap, now, r.partial != [], r.firstBit, |r.partial| + avail, CompletedBy(cap, r, avail, now, arrivals),
                       Unload(cap, r, avail, now, arrivals).r.firstBit)
    ensures Unload(cap, r, avail, now, arrivals).r.lastProgress == r.lastProgress
    decreases avail
  {
    hide Unload, CompletedBy, AcceptedBy, AfterReads, ReadStep, Ago, AirUs, Taken, LoopStamps, Flat;
    if avail == 0 || ReadSize(cap, |r.partial|, avail) == 0 {
      UnloadEnds(cap, r, avail, now, arrivals);
      NoneMade(cap, now, r.partial != [], r.firstBit, |r.partial| + avail);
    } else {
      UnloadUnfolds(cap, r, avail, now, arrivals);
      var s, n := Stamped(r, now, avail), ReadSize(cap, |r.partial|, avail);
      var next, later := ReadStep(cap, s, n, Next(arrivals)), Later(arrivals);
      ReadLeaves(cap, s, n, Next(arrivals));
      if |r.partial| + n == cap {
        UnloadStamps(cap, next, avail - n, now, later);
        var c := Capture(s.firstBit, s.partial + s.fifo[..n]);
        OneMoreMade(cap, now, r.partial != [], r.firstBit, |r.partial| + avail, c, CompletedBy(cap, next, avail - n, now, later),
                    Unload(cap, next, avail - n, now, later).r.firstBit);
      } else {
        UnloadEnds(cap, next, avail - n, now, later);
        NoneMade(cap, now, r.partial != [], r.firstBit, |r.partial| + avail);
      }
    }
  }

  lemma ReadLeaves(cap: nat, r: Radio, n: nat, air: seq<byte>)
    requires Sized(cap, r) && 0 < n <= |r.fifo| && |r.partial| + n <= cap
    ensures var after := ReadStep(cap, r, n, air);
            |after.partial| == (if |r.partial| + n == cap then 0 else |r.partial| + n) && after.firstBit == r.firstBit &&
            after.lastProgress == r.lastProgress
    ensures (r.fifo + Taken(r.fifo, r.overflowed, air))[..n] == r.fifo[..n]
  {
    hide Taken;
  }

  // ------------------------------------------------------------------ which drain stamps a capture

  /**
   * Drain i stamps the capture that begins `start` bytes after the last restart: the first drain to read from it, that is,
   * to see two bytes of it, or, while none has, the latest that saw its first byte.
   */
  ghost predicate Stamps(looks: seq<Look>, start: nat, i: nat) {
    i < |looks| && looks[i].received > start && (forall j :: 0 <= j < i ==> looks[j].received < start + 2) &&
    (looks[i].received >= start + 2 || i == |looks| - 1)
  }

  /** The stamp is that drain's time less the air time of the bytes received from the capture's first one on. */
  ghost predicate StampedBy(looks: seq<Look>, start: nat, bit: nat) {
    exists i: nat :: Stamps(looks, start, i) && bit == Ago(looks[i].now, AirUs(looks[i].received - start))
  }

  /** A drain that has read from a capture goes on being the one that stamps it. */
  lemma StampStays(looks: seq<Look>, more: Look, start: nat, bit: nat)
    requires StampedBy(looks, start, bit) && Sampled(looks) >= start + 2
    ensures StampedBy(looks + [more], start, bit)
  {
    hide Ago, AirUs;
    var i: nat :| Stamps(looks, start, i) && bit == Ago(looks[i].now, AirUs(looks[i].received - start));
    var after := looks + [more];
    assert Stamps(after, start, i) && after[i] == looks[i];
  }

  lemma StampNow(looks: seq<Look>, more: Look, start: nat, bit: nat)
    requires LooksAscend(looks) && Sampled(looks) < start + 2 && more.received > start
    requires bit == Ago(more.now, AirUs(more.received - start))
    ensures StampedBy(looks + [more], start, bit)
  {
    hide Ago, AirUs;
    var after := looks + [more];
    assert forall j :: 0 <= j < |looks| ==> after[j] == looks[j] && looks[j].received <= Sampled(looks);
    assert Stamps(after, start, |looks|) && after[|looks|] == more;
  }

  /**
   * The captures since the last restart, and the one a drain has seen a byte of, carry the stamp of the drain that began
   * reading them. Until a drain has seen one, the field still holds the stamp of the last capture completed.
   */
  ghost predicate AllStamped(cap: nat, t: Trace) {
    (forall k :: 0 <= k < |t.done| ==> StampedBy(t.looks, Start(cap, k), t.done[k].firstBit)) &&
    (Sampled(t.looks) > Start(cap, |t.done|) ==> StampedBy(t.looks, Start(cap, |t.done|), t.r.firstBit)) &&
    (Sampled(t.looks) == Start(cap, |t.done|) && t.done != [] ==> t.r.firstBit == t.done[|t.done| - 1].firstBit)
  }

  /** Drain i is the first to have seen all of n bytes, and no more. */
  ghost predicate FirstToSee(looks: seq<Look>, n: nat, i: nat) {
    i < |looks| && looks[i].received == n && forall j :: 0 <= j < i ==> looks[j].received < n
  }

  /** The time of the drain that first saw all the bytes the last one saw. */
  ghost predicate ProgressedAt(looks: seq<Look>, time: nat) {
    exists i: nat :: FirstToSee(looks, Sampled(looks), i) && looks[i].now == time
  }

  /** Once bytes have come, the time of last progress is that drain's. */
  ghost predicate ProgressKept(t: Trace) { Sampled(t.looks) > 0 ==> ProgressedAt(t.looks, t.r.lastProgress) }

  // ------------------------------------------------------------------ one drain in a run

  /** What was received, seen and completed, in numbers. */
  ghost predicate Levels(cap: nat, t: Trace) {
    var behind := Start(cap, |t.done|);
    Sized(cap, t.r) && |t.received| == behind + |t.r.partial| + |t.r.fifo| && (t.r.partial != [] ==> t.r.fifo != []) &&
    Sampled(t.looks) == behind + t.r.lastSeen <= |t.received| && LooksAscend(t.looks) &&
    if t.r.partial == [] then t.r.lastSeen <= 1 else t.r.lastSeen == |t.r.partial| + 1
  }

  lemma SoundLevels(cap: nat, t: Trace)
    requires Sound(cap, t)
    ensures Levels(cap, t)
  {
    hide Flat;
    FlatLength(cap, t.done);
  }

  /** The captures completed before keep their stamps. */
  lemma OldStampsStay(cap: nat, t: Trace, more: Look, k: nat)
    requires cap >= MIN_CAPTURE && Levels(cap, t) && AllStamped(cap, t) && k < |t.done|
    ensures StampedBy(t.looks + [more], Start(cap, k), t.done[k].firstBit)
  {
    hide StampedBy, Start, LooksAscend;
    StartSteps(cap, |t.done| - k, k);
    StampStays(t.looks, more, Start(cap, k), t.done[k].firstBit);
  }

  /** A capture of which this drain sees the beginning is stamped by it. */
  lemma NewStamp(cap: nat, t: Trace, now: nat, k: nat, bit: nat)
    requires cap >= MIN_CAPTURE && Levels(cap, t) && k >= |t.done| && (k > |t.done| || t.r.partial == [])
    requires |t.received| > Start(cap, k) && bit == Ago(now, AirUs(|t.received| - Start(cap, k)))
    ensures StampedBy(t.looks + [Look(now, |t.received|)], Start(cap, k), bit)
  {
    hide StampedBy, Start, Ago, AirUs, LooksAscend;
    if k > |t.done| {
      StartSteps(cap, k - |t.done|, |t.done|);
    }
    StampNow(t.looks, Look(now, |t.received|), Start(cap, k), bit);
  }

  /** The capture under way keeps the stamp it has. */
  lemma CurrentStampStays(cap: nat, t: Trace, more: Look)
    requires Levels(cap, t) && AllStamped(cap, t) && t.r.partial != []
    ensures StampedBy(t.looks + [more], Start(cap, |t.done|), t.r.firstBit)
  {
    hide StampedBy, Start, LooksAscend;
    StampStays(t.looks, more, Start(cap, |t.done|), t.r.firstBit);
  }

  /** The captures this drain completes, the one begun before it first. */
  lemma MadeStamps(cap: nat, t: Trace, now: nat, made: seq<Capture>, after: nat, i: nat)
    requires MIN_CAPTURE <= cap && Levels(cap, t) && AllStamped(cap, t) && i < |made|
    requires LoopStamps(cap, now, t.r.partial != [], t.r.firstBit, |t.r.partial| + |t.r.fifo|, made, after)
    ensures StampedBy(t.looks + [Look(now, |t.received|)], Start(cap, |t.done| + i), made[i].firstBit)
  {
    hide StampedBy, Start, Ago, AirUs, LooksAscend, AllStamped;
    StartSteps(cap, |t.done|, i);
    StartSteps(cap, |made| - i, i);
    if i == 0 && t.r.partial != [] {
      CurrentStampStays(cap, t, Look(now, |t.received|));
    } else {
      NewStamp(cap, t, now, |t.done| + i, made[i].firstBit);
    }
  }

  /** The capture it leaves under way, or has seen the first byte of. */
  lemma LeftStamp(cap: nat, t: Trace, now: nat, made: seq<Capture>, after: nat)
    requires MIN_CAPTURE <= cap && Levels(cap, t) && AllStamped(cap, t) && |t.received| > Start(cap, |t.done| + |made|)
    requires LoopStamps(cap, now, t.r.partial != [], t.r.firstBit, |t.r.partial| + |t.r.fifo|, made, after)
    ensures StampedBy(t.looks + [Look(now, |t.received|)], Start(cap, |t.done| + |made|), after)
  {
    hide StampedBy, Start, Ago, AirUs, LooksAscend, AllStamped;
    StartSteps(cap, |t.done|, |made|);
    if made == [] && t.r.partial != [] {
      CurrentStampStays(cap, t, Look(now, |t.received|));
    } else {
      NewStamp(cap, t, now, |t.done| + |made|, after);
    }
  }

  lemma LoopKeepsStamps(cap: nat, t: Trace, now: nat, made: seq<Capture>, after: Trace)
    requires MIN_CAPTURE <= cap && Levels(cap, t) && AllStamped(cap, t)
    requires LoopStamps(cap, now, t.r.partial != [], t.r.firstBit, |t.r.partial| + |t.r.fifo|, made, after.r.firstBit)
    requires after.done == t.done + made && after.looks == t.looks + [Look(now, |t.received|)]
    ensures AllStamped(cap, after)
  {
    hide StampedBy, Start, Ago, AirUs, LooksAscend;
    var m, look, done := |t.done|, Look(now, |t.received|), after.done;
    forall k | 0 <= k < |done| ensures StampedBy(after.looks, Start(cap, k), done[k].firstBit) {
      if k < m {
        OldStampsStay(cap, t, look, k);
      } else {
        MadeStamps(cap, t, now, made, after.r.firstBit, k - m);
      }
    }
    StartSteps(cap, m, |made|);
    if |t.received| > Start(cap, |done|) {
      LeftStamp(cap, t, now, made, after.r.firstBit);
    }
    if |t.received| == Start(cap, |done|) && done != [] {
      LastMade(cap, t, now, made, after.r.firstBit);
    }
  }

  lemma LastMade(cap: nat, t: Trace, now: nat, made: seq<Capture>, after: nat)
    requires Levels(cap, t) && AllStamped(cap, t) && |t.received| == Start(cap, |t.done| + |made|) && t.done + made != []
    requires LoopStamps(cap, now, t.r.partial != [], t.r.firstBit, |t.r.partial| + |t.r.fifo|, made, after)
    ensures after == (t.done + made)[|t.done| + |made| - 1].firstBit
  {
    hide StampedBy, Start, Ago, AirUs, LooksAscend;
    StartSteps(cap, |t.done|, |made|);
  }

  lemma DrainStamps(cap: nat, t: Trace, now: nat, arrivals: seq<seq<byte>>)
    requires MIN_CAPTURE <= cap && Sound(cap, t) && AllStamped(cap, t) && ProgressKept(t) && !Abandons(t.r, now)
    ensures var after := Do(cap, t, Drain(now, arrivals)); AllStamped(cap, after) && ProgressKept(after)
  {
    hide Flat, Unload, CompletedBy, AcceptedBy, Stalled, Ago, AirUs, Sound, LoopStamps, Start, StampedBy, AllStamped, ProgressKept;
    SoundLevels(cap, t);
    var start, after := Progressed(t.r, now), Do(cap, t, Drain(now, arrivals));
    UnloadStamps(cap, start, |t.r.fifo|, now, arrivals);
    LoopKeepsStamps(cap, t, now, CompletedBy(cap, start, |t.r.fifo|, now, arrivals), after);
    ProgressStays(cap, t, now, after);
  }

  lemma ProgressStays(cap: nat, t: Trace, now: nat, after: Trace)
    requires Levels(cap, t) && ProgressKept(t) && after.looks == t.looks + [Look(now, |t.received|)]
    requires after.r.lastProgress == Progressed(t.r, now).lastProgress
    ensures ProgressKept(after)
  {
    hide Start;
    var looks := t.looks;
    assert forall j :: 0 <= j < |looks| ==> after.looks[j] == looks[j] && looks[j].received <= Sampled(looks);
    if |t.received| > Sampled(looks) {
      assert FirstToSee(after.looks, |t.received|, |looks|);
    } else if Sampled(looks) > 0 {
      var i: nat :| FirstToSee(looks, Sampled(looks), i) && looks[i].now == t.r.lastProgress;
      assert FirstToSee(after.looks, |t.received|, i);
    }
  }

  // ------------------------------------------------------------------ whole runs

  lemma {:induction false} RunsAreStamped(cap: nat, steps: seq<Step>)
    requires MIN_CAPTURE <= cap <= BUFFER_SIZE
    ensures AllStamped(cap, Exec(cap, steps)) && ProgressKept(Exec(cap, steps))
  {
    hide Do, Sound, AllStamped, ProgressKept;
    if steps == [] {
      NothingStamped(cap, Exec(cap, steps));
    } else {
      var t, step := Exec(cap, steps[..|steps| - 1]), steps[|steps| - 1];
      RunsAreStamped(cap, steps[..|steps| - 1]);
      if step.Drain? && !Abandons(t.r, step.now) {
        DrainStamps(cap, t, step.now, step.arrivals);
      } else {
        OtherStep(cap, t, step);
      }
    }
  }

  /** After a restart there is nothing to say. */
  lemma NothingStamped(cap: nat, t: Trace)
    requires t.done == [] && t.looks == []
    ensures AllStamped(cap, t) && ProgressKept(t)
  {
    StartSteps(cap, 0, 0);
  }

  /** Everything but a drain leaves the stamps alone or starts over. */
  lemma OtherStep(cap: nat, t: Trace, step: Step)
    requires MIN_CAPTURE <= cap && Sound(cap, t) && AllStamped(cap, t) && ProgressKept(t)
    requires step.Drain? ==> Abandons(t.r, step.now)
    ensures AllStamped(cap, Do(cap, t, step)) && ProgressKept(Do(cap, t, step))
  {
    hide Sound, DrainStep, EndEarlyStep, StampedBy, ProgressedAt, CompletedBy, AcceptedBy, Start, Stalled, EarlyCapture, Taken,
         AllStamped, ProgressKept;
    SoundLevels(cap, t);
    var after := Do(cap, t, step);
    if step.Air? || step.Consume? {
      SameStamps(cap, t, after);
    } else {
      NothingStamped(cap, after);
    }
  }

  lemma SameStamps(cap: nat, t: Trace, after: Trace)
    requires AllStamped(cap, t) && ProgressKept(t) && after.done == t.done && after.looks == t.looks
    requires after.r.firstBit == t.r.firstBit && after.r.lastProgress == t.r.lastProgress
    ensures AllStamped(cap, after) && ProgressKept(after)
  {
    hide StampedBy, ProgressedAt, Start;
  }

  /**
   * Over every run: each capture completed since the last restart, however many drains it took, and the one under way carry
   * the stamp of the first drain that read from them, which is that drain's time less the air time of the bytes received
   * from the capture's own first one on until that drain looked.
   */
  lemma StampsExact(cap: nat, steps: seq<Step>, k: nat)
    requires MIN_CAPTURE <= cap <= BUFFER_SIZE
    ensures var t := Exec(cap, steps);
            (k < |t.done| ==> StampedBy(t.looks, Start(cap, k), t.done[k].firstBit)) &&
            (t.r.partial != [] ==> StampedBy(t.looks, Start(cap, |t.done|), t.r.firstBit))
  {
    hide Exec, StampedBy, Sound, LooksAscend, Start;
    RunsAreStamped(cap, steps);
    SoundLevels(cap, Exec(cap, steps));
  }

  /** Some drain stamps a capture exactly when some drain has seen a byte of it. */
  lemma {:induction false} StampedExactlyWhenSeen(looks: seq<Look>, start: nat) returns (i: nat)
    requires LooksAscend(looks)
    ensures Sampled(looks) > start ==> Stamps(looks, start, i)
    ensures Sampled(looks) <= start ==> forall j: nat :: !Stamps(looks, start, j)
  {
    i := 0;
    if Sampled(looks) > start {
      var n := |looks| - 1;
      i := n;
      if n > 0 && looks[n - 1].received >= start + 2 {
        i := StampedExactlyWhenSeen(looks[..n], start);
        assert looks[i] == looks[..n][i];
      } else {
        assert forall j :: 0 <= j < n ==> looks[j].received <= looks[n - 1].received;
      }
    }
  }

  /**
   * An early end: what it publishes is stamped like any other capture exactly when a drain had seen a byte of it. The task
   * ends a capture early only with some of it read, and then one had; called otherwise, it would publish the stamp of the
   * capture completed last.
   */
  lemma EarlyStampExact(cap: nat, steps: seq<Step>)
    requires MIN_CAPTURE <= cap <= BUFFER_SIZE
    ensures var t := Exec(cap, steps);
            var c := EarlyCapture(cap, t.r);
            var start := Start(cap, |t.done|);
            Exec(cap, steps + [EndEarly]).completed
            == t.completed + (if !t.r.overflowed && |c.data| >= MIN_CAPTURE then [c] else []) &&
            (t.r.partial != [] ==> StampedBy(t.looks, start, c.firstBit)) &&
            (StampedBy(t.looks, start, c.firstBit) <==> Sampled(t.looks) > start) &&
            (Sampled(t.looks) <= start && t.done != [] ==> c.firstBit == t.done[|t.done| - 1].firstBit)
  {
    hide Exec, Sound, Stamps, Start;
    RunsAreStamped(cap, steps);
    var t := Exec(cap, steps);
    SoundLevels(cap, t);
    ExecStep(cap, steps, EndEarly);
    var i := StampedExactlyWhenSeen(t.looks, Start(cap, |t.done|));
  }

  /**
   * The stall test is exact: it fires when, and only when, a capture is under way or waiting, some drain has already seen
   * every byte received, and the first to have done so is more than the limit ago.
   */
  lemma StallExact(cap: nat, steps: seq<Step>, now: nat)
    requires MIN_CAPTURE <= cap <= BUFFER_SIZE
    ensures var t := Exec(cap, steps);
            Stalled(t.r, now) <==>
            |t.received| > Start(cap, |t.done|) &&
            exists i: nat :: FirstToSee(t.looks, |t.received|, i) && Ago(now, t.looks[i].now) > STALL_US
  {
    hide Exec, Sound, Ago, AllStamped, Start;
    RunsAreStamped(cap, steps);
    var t := Exec(cap, steps);
    SoundLevels(cap, t);
    if t.received != [] {
      SeenAll(t, now);
    }
  }

  lemma SeenAll(t: Trace, now: nat)
    requires LooksAscend(t.looks) && Sampled(t.looks) <= |t.received| && ProgressKept(t) && t.received != []
    ensures (exists i: nat :: FirstToSee(t.looks, |t.received|, i) && Ago(now, t.looks[i].now) > STALL_US) <==>
            Sampled(t.looks) == |t.received| && Ago(now, t.r.lastProgress) > STALL_US
  {
    hide Ago;
    if Sampled(t.looks) == |t.received| {
      var i: nat :| FirstToSee(t.looks, Sampled(t.looks), i) && t.looks[i].now == t.r.lastProgress;
      assert forall j: nat :: FirstToSee(t.looks, |t.received|, j) ==> j == i;
    }
  }
}
