/** The receive path over every interleaving of bytes arriving, drains, early ends, restarts and the consumer. */
module Cc1101Proofs {
  import opened Common
  import opened Cc1101

  // ------------------------------------------------------------------ one drain

  /** The bytes the FIFO took in while a drain ran. */
  function AcceptedBy(cap: nat, r: Radio, avail: nat, now: nat, arrivals: seq<seq<byte>>): seq<byte>
    requires Sized(cap, r) && avail <= |r.fifo|
    decreases avail
  {
    if avail == 0 || ReadSize(cap, |r.partial|, avail) == 0 then []
    else
      var n, s := ReadSize(cap, |r.partial|, avail), Stamped(r, now, avail);
      Taken(s.fifo, s.overflowed, Next(arrivals))
      + AcceptedBy(cap, ReadStep(cap, s, n, Next(arrivals)), avail - n, now, Later(arrivals))
  }

  /** The captures a read completes: at most one. */
  function CompletedIn(cap: nat, r: Radio, n: nat, air: seq<byte>): seq<Capture>
    requires Sized(cap, r) && 0 < n <= |r.fifo| && |r.partial| + n <= cap
  {
    if |r.partial| + n == cap then [Capture(r.firstBit, r.partial + r.fifo[..n])] else []
  }

  function CompletedBy(cap: nat, r: Radio, avail: nat, now: nat, arrivals: seq<seq<byte>>): seq<Capture>
    requires Sized(cap, r) && avail <= |r.fifo|
    decreases avail
  {
    if avail == 0 || ReadSize(cap, |r.partial|, avail) == 0 then []
    else
      var n, s := ReadSize(cap, |r.partial|, avail), Stamped(r, now, avail);
      CompletedIn(cap, s, n, Next(arrivals))
      + CompletedBy(cap, ReadStep(cap, s, n, Next(arrivals)), avail - n, now, Later(arrivals))
  }

  /** The state after each read of a drain. */
  function AfterReads(cap: nat, r: Radio, avail: nat, now: nat, arrivals: seq<seq<byte>>): seq<Radio>
    requires Sized(cap, r) && avail <= |r.fifo|
    decreases avail
  {
    if avail == 0 || ReadSize(cap, |r.partial|, avail) == 0 then []
    else
      var n, s := ReadSize(cap, |r.partial|, avail), Stamped(r, now, avail);
      var next := ReadStep(cap, s, n, Next(arrivals));
      [next] + AfterReads(cap, next, avail - n, now, Later(arrivals))
  }

  ghost function Flat(done: seq<Capture>): seq<byte> {
    if done == [] then [] else Flat(done[..|done| - 1]) + done[|done| - 1].data
  }

  /** A capture under way always leaves a byte in the FIFO: it is never read empty mid-packet. */
  predicate NeverEmptied(r: Radio) { r.partial != [] ==> r.fifo != [] }

  /** Completed captures, the current one and the FIFO are together exactly what was received. */
  ghost predicate Assembled(cap: nat, r: Radio, received: seq<byte>, done: seq<Capture>) {
    Sized(cap, r) && Flat(done) + r.partial + r.fifo == received && forall i :: 0 <= i < |done| ==> |done[i].data| == cap
  }

  lemma ReadAssembles(cap: nat, r: Radio, n: nat, air: seq<byte>, received: seq<byte>, done: seq<Capture>)
    requires Assembled(cap, r, received, done) && 0 < n <= |r.fifo| && |r.partial| + n <= cap
    ensures Assembled(cap, ReadStep(cap, r, n, air), received + Taken(r.fifo, r.overflowed, air), done + CompletedIn(cap, r, n, air))
    ensures |ReadStep(cap, r, n, air).fifo| == |r.fifo| - n + |Taken(r.fifo, r.overflowed, air)|
    ensures ReadStep(cap, r, n, air).partial == if |r.partial| + n == cap then [] else r.partial + r.fifo[..n]
  {
    hide Taken, Flat;
    var took := Taken(r.fifo, r.overflowed, air);
    var whole := r.partial + r.fifo[..n];
    assert (r.fifo + took)[..n] == r.fifo[..n] && (r.fifo + took)[n..] == r.fifo[n..] + took;
    Moved(Flat(done), r.partial, r.fifo, n, took);
    if |whole| == cap {
      FlatAppend(done, Capture(r.firstBit, whole));
    } else {
      assert done + [] == done;
    }
  }

  lemma Moved(done: seq<byte>, partial: seq<byte>, fifo: seq<byte>, n: nat, took: seq<byte>)
    requires n <= |fifo|
    ensures done + partial + fifo + took == done + (partial + fifo[..n]) + (fifo[n..] + took)
    ensures done + partial + fifo + took == done + (partial + fifo[..n]) + [] + (fifo[n..] + took)
  {
  }

  lemma FlatAppend(done: seq<Capture>, c: Capture)
    ensures Flat(done + [c]) == Flat(done) + c.data
  {
    assert (done + [c])[..|done|] == done;
  }

  lemma UnloadUnfolds(cap: nat, r: Radio, avail: nat, now: nat, arrivals: seq<seq<byte>>)
    requires Sized(cap, r) && 0 < avail <= |r.fifo| && ReadSize(cap, |r.partial|, avail) > 0
    ensures var s, n, air := Stamped(r, now, avail), ReadSize(cap, |r.partial|, avail), Next(arrivals);
            var next, later := ReadStep(cap, s, n, air), Later(arrivals);
            Unload(cap, r, avail, now, arrivals) == Unload(cap, next, avail - n, now, later) &&
            AcceptedBy(cap, r, avail, now, arrivals)
            == Taken(s.fifo, s.overflowed, air) + AcceptedBy(cap, next, avail - n, now, later) &&
            CompletedBy(cap, r, avail, now, arrivals) == CompletedIn(cap, s, n, air) + CompletedBy(cap, next, avail - n, now, later) &&
            AfterReads(cap, r, avail, now, arrivals) == [next] + AfterReads(cap, next, avail - n, now, later)
  {
    hide ReadStep, CompletedIn, Taken;
  }

  lemma UnloadEnds(cap: nat, r: Radio, avail: nat, now: nat, arrivals: seq<seq<byte>>)
    requires Sized(cap, r) && avail <= |r.fifo| && (avail > 0 ==> ReadSize(cap, |r.partial|, avail) == 0)
    ensures Unload(cap, r, avail, now, arrivals) == Unloaded(if avail == 0 then r else Stamped(r, now, avail), avail)
    ensures AcceptedBy(cap, r, avail, now, arrivals) == [] && CompletedBy(cap, r, avail, now, arrivals) == []
    ensures AfterReads(cap, r, avail, now, arrivals) == []
  {
    hide ReadStep, CompletedIn, Taken, Stamped;
  }

  lemma StampAssembles(cap: nat, r: Radio, now: nat, avail: nat, received: seq<byte>, done: seq<Capture>)
    requires Assembled(cap, r, received, done)
    ensures var s := Stamped(r, now, avail);
            Sized(cap, r) && Assembled(cap, s, received, done) && s.fifo == r.fifo && s.partial == r.partial
  {
  }

  /** What one pass of the loop does to all three, and to the FIFO's level. */
  lemma {:induction false} UnloadAssembles(cap: nat, r: Radio, avail: nat, now: nat, arrivals: seq<seq<byte>>,
                                           received: seq<byte>, done: seq<Capture>)
    requires Assembled(cap, r, received, done) && avail <= |r.fifo| && (r.partial != [] ==> avail > 0)
    ensures var u := Unload(cap, r, avail, now, arrivals);
            var more := AcceptedBy(cap, r, avail, now, arrivals);
            Assembled(cap, u.r, received + more, done + CompletedBy(cap, r, avail, now, arrivals)) &&
            |u.r.fifo| == u.left + |r.fifo| - avail + |more| && u.left <= 1 && (u.r.partial != [] ==> u.left == 1) &&
            |u.r.partial| + u.left < cap
    ensures forall i :: 0 <= i < |AfterReads(cap, r, avail, now, arrivals)| ==> NeverEmptied(AfterReads(cap, r, avail, now, arrivals)[i])
    decreases avail
  {
    hide ReadStep, Taken, Flat, CompletedIn, Stamped, Assembled, Unload, AcceptedBy, CompletedBy, AfterReads;
    StampAssembles(cap, r, now, avail, received, done);
    if avail == 0 || ReadSize(cap, |r.partial|, avail) == 0 {
      UnloadEnds(cap, r, avail, now, arrivals);
      assert received + [] == received && done + [] == done;
    } else {
      UnloadUnfolds(cap, r, avail, now, arrivals);
      var s, n := Stamped(r, now, avail), ReadSize(cap, |r.partial|, avail);
      var air := Next(arrivals);
      ReadAssembles(cap, s, n, air, received, done);
      var next, took, made := ReadStep(cap, s, n, air), Taken(s.fifo, s.overflowed, air), CompletedIn(cap, s, n, air);
      UnloadAssembles(cap, next, avail - n, now, Later(arrivals), received + took, done + made);
      var rest := AcceptedBy(cap, next, avail - n, now, Later(arrivals));
      var later := CompletedBy(cap, next, avail - n, now, Later(arrivals));
      assert received + (took + rest) == received + took + rest;
      assert done + (made + later) == done + made + later;
    }
  }

  // ------------------------------------------------------------------ runs

  datatype Step =
    | Air(bytes: seq<byte>)
    | Drain(now: nat, arrivals: seq<seq<byte>>)
    | EndEarly
    | Restart
    | Consume

  /**
   * The radio with its history. `received` and `done` are since the last restart: the bytes the FIFO took, and the full
   * captures; so are `looks`, the drains that did not restart. The others are for good.
   */
  datatype Trace = Trace(r: Radio, received: seq<byte>, done: seq<Capture>, looks: seq<Look>, completed: seq<Capture>,
                         consumed: seq<Capture>)

  /** A drain: its time, and how many bytes had been received when it looked. */
  datatype Look = Look(now: nat, received: nat)

  /** How many bytes had been received when the last drain looked. */
  function Sampled(looks: seq<Look>): nat { if looks == [] then 0 else looks[|looks| - 1].received }

  ghost predicate LooksAscend(looks: seq<Look>) {
    forall i, j :: 0 <= i < j < |looks| ==> looks[i].received <= looks[j].received
  }

  /** What a drain restarts on: an overflow, or a stall. */
  predicate Abandons(r: Radio, now: nat) { r.overflowed || Stalled(r, now) }

  /** The capture an early end would publish, long enough or not. */
  function EarlyCapture(cap: nat, r: Radio): Capture {
    Capture(r.firstBit, r.partial + r.fifo[..Min(|r.fifo|, Max(0, cap - |r.partial|))])
  }

  ghost function Do(cap: nat, t: Trace, step: Step): Trace
    requires Sized(cap, t.r)
  {
    match step
    case Air(bytes) => t.(r := Heard(t.r, bytes), received := t.received + Taken(t.r.fifo, t.r.overflowed, bytes))
    case Drain(now, arrivals) =>
      if Abandons(t.r, now) then t.(r := DrainStep(cap, t.r, now, arrivals), received := [], done := [], looks := [])
      else
        var start, avail := Progressed(t.r, now), |t.r.fifo|;
        var made := CompletedBy(cap, start, avail, now, arrivals);
        t.(r := DrainStep(cap, t.r, now, arrivals), received := t.received + AcceptedBy(cap, start, avail, now, arrivals),
           done := t.done + made, looks := t.looks + [Look(now, |t.received|)], completed := t.completed + made)
    case EndEarly =>
      var c := EarlyCapture(cap, t.r);
      t.(r := EndEarlyStep(cap, t.r), received := [], done := [], looks := [],
         completed := t.completed + if !t.r.overflowed && |c.data| >= MIN_CAPTURE then [c] else [])
    case Restart => t.(r := Restarted(t.r), received := [], done := [], looks := [])
    case Consume => if t.r.queue == [] then t else t.(r := t.r.(queue := t.r.queue[1..]), consumed := t.consumed + [t.r.queue[0]])
  }

  ghost predicate Sound(cap: nat, t: Trace) {
    Assembled(cap, t.r, t.received, t.done) && NeverEmptied(t.r) &&
    t.r.lastSeen + |Flat(t.done)| == Sampled(t.looks) <= |t.received| && LooksAscend(t.looks) &&
    if t.r.partial == [] then t.r.lastSeen <= 1 else t.r.lastSeen == |t.r.partial| + 1
  }

  ghost function Exec(cap: nat, steps: seq<Step>): (t: Trace)
    requires MIN_CAPTURE <= cap <= BUFFER_SIZE
    ensures Sound(cap, t)
  {
    if steps == [] then Trace(IDLE, [], [], [], [], [])
    else
      var before := Exec(cap, steps[..|steps| - 1]);
      DoSound(cap, before, steps[|steps| - 1]);
      Do(cap, before, steps[|steps| - 1])
  }

  lemma ExecStep(cap: nat, steps: seq<Step>, step: Step)
    requires MIN_CAPTURE <= cap <= BUFFER_SIZE
    ensures Exec(cap, steps + [step]) == Do(cap, Exec(cap, steps), step)
  {
    hide Do, Sound;
    assert (steps + [step])[..|steps|] == steps;
  }

  lemma DoSound(cap: nat, t: Trace, step: Step)
    requires MIN_CAPTURE <= cap <= BUFFER_SIZE && Sound(cap, t)
    ensures Sound(cap, Do(cap, t, step))
  {
    match step {
      case Air(bytes) => AirSound(cap, t, bytes);
      case Drain(now, arrivals) => DrainSound(cap, t, now, arrivals);
      case EndEarly =>
      case Restart =>
      case Consume =>
    }
  }

  lemma AirSound(cap: nat, t: Trace, bytes: seq<byte>)
    requires Sound(cap, t)
    ensures Sound(cap, Do(cap, t, Air(bytes)))
  {
    hide Taken;
    var took := Taken(t.r.fifo, t.r.overflowed, bytes);
    assert Flat(t.done) + t.r.partial + (t.r.fifo + took) == Flat(t.done) + t.r.partial + t.r.fifo + took;
  }

  lemma DrainSound(cap: nat, t: Trace, now: nat, arrivals: seq<seq<byte>>)
    requires cap > 0 && Sound(cap, t)
    ensures Sound(cap, Do(cap, t, Drain(now, arrivals)))
    ensures !Abandons(t.r, now) ==>
              var after := Do(cap, t, Drain(now, arrivals));
              |after.r.fifo| <= 1 + |after.received| - |t.received| && Flat(t.done) <= Flat(after.done)
  {
    hide Unload, AcceptedBy, CompletedBy, AfterReads, Flat, Stalled;
    if Abandons(t.r, now) {
      assert Flat([]) == [] by { NothingFlat(); }
    } else {
      var start := Progressed(t.r, now);
      assert Assembled(cap, start, t.received, t.done);
      UnloadAssembles(cap, start, |t.r.fifo|, now, arrivals, t.received, t.done);
      FlatGrows(t.done, CompletedBy(cap, start, |t.r.fifo|, now, arrivals));
    }
  }

  lemma NothingFlat()
    ensures Flat([]) == []
  {
  }

  lemma {:induction false} FlatGrows(done: seq<Capture>, more: seq<Capture>)
    ensures Flat(done) <= Flat(done + more)
  {
    if more == [] {
      assert done + more == done;
    } else {
      FlatGrows(done, more[..|more| - 1]);
      assert (done + more)[..|done + more| - 1] == done + more[..|more| - 1];
    }
  }

  // ------------------------------------------------------------------ what every run keeps

  /** How many bytes precede the k-th capture. */
  function Start(cap: nat, k: nat): nat { cap * k }

  lemma StartSteps(cap: nat, a: nat, b: nat)
    ensures Start(cap, a + b) == Start(cap, a) + Start(cap, b) && Start(cap, 0) == 0 && Start(cap, 1) == cap
    ensures a > 0 ==> Start(cap, a) >= cap
  {
    if a > 0 {
      Monotone(cap, 1, a);
    }
  }

  lemma Monotone(cap: nat, a: nat, b: nat)
    requires a <= b
    ensures cap * a <= cap * b
  {
  }

  lemma {:induction false} FlatLength(cap: nat, done: seq<Capture>)
    requires forall i :: 0 <= i < |done| ==> |done[i].data| == cap
    ensures |Flat(done)| == Start(cap, |done|)
  {
    hide Start;
    StartSteps(cap, 0, 0);
    if done != [] {
      var n := |done| - 1;
      FlatLength(cap, done[..n]);
      StartSteps(cap, n, 1);
    }
  }

  /** The k-th capture is the k-th chunk of the stream, byte for byte. */
  lemma {:induction false} FlatChunk(cap: nat, done: seq<Capture>, k: nat)
    requires k < |done| && forall i :: 0 <= i < |done| ==> |done[i].data| == cap
    ensures Start(cap, k) <= Start(cap, k + 1) == Start(cap, k) + cap <= |Flat(done)|
    ensures Flat(done)[Start(cap, k)..Start(cap, k + 1)] == done[k].data
  {
    hide Start;
    var n := |done| - 1;
    StartSteps(cap, k, 1);
    FlatLength(cap, done[..n]);
    assert Flat(done) == Flat(done[..n]) + done[n].data;
    hide Flat;
    if k < n {
      FlatChunk(cap, done[..n], k);
      SliceOfPrefix(Flat(done[..n]), Flat(done), Start(cap, k), Start(cap, k + 1));
    }
  }

  lemma SliceOfPrefix(a: seq<byte>, b: seq<byte>, lo: nat, hi: nat)
    requires a <= b && lo <= hi <= |a|
    ensures a[lo..hi] == b[lo..hi]
  {
  }

  /**
   * Reassembly. However bytes, drains and the rest interleave: since the last restart the completed captures, the one
   * under way and the FIFO are exactly the bytes received, in order, and the FIFO is never found empty while a capture
   * is under way.
   */
  lemma Reassembly(cap: nat, steps: seq<Step>)
    requires MIN_CAPTURE <= cap <= BUFFER_SIZE
    ensures var t := Exec(cap, steps);
            Flat(t.done) + t.r.partial + t.r.fifo == t.received && |t.r.partial| < cap && NeverEmptied(t.r)
  {
    hide Exec, Flat;
  }

  /** The k-th completed capture is the k-th chunk of `cap` bytes of what was received. */
  lemma CapturesAreChunks(cap: nat, steps: seq<Step>, k: nat)
    requires MIN_CAPTURE <= cap <= BUFFER_SIZE && k < |Exec(cap, steps).done|
    ensures var t := Exec(cap, steps);
            Start(cap, k) <= Start(cap, k + 1) == Start(cap, k) + cap <= |t.received| &&
            t.done[k].data == t.received[Start(cap, k)..Start(cap, k + 1)]
  {
    hide Exec, Flat, Start;
    var t := Exec(cap, steps);
    FlatChunk(cap, t.done, k);
    SliceOfPrefix(Flat(t.done), t.received, Start(cap, k), Start(cap, k + 1));
  }

  /** The erratum, read by read: after every single read of a drain the FIFO holds a byte or the capture is complete. */
  lemma NeverReadEmpty(cap: nat, steps: seq<Step>, now: nat, arrivals: seq<seq<byte>>, i: nat)
    requires MIN_CAPTURE <= cap <= BUFFER_SIZE
    ensures var r := Exec(cap, steps).r;
            var states := AfterReads(cap, Progressed(r, now), |r.fifo|, now, arrivals);
            i < |states| ==> NeverEmptied(states[i])
  {
    var t := Exec(cap, steps);
    hide Exec, Unload, AcceptedBy, CompletedBy, AfterReads, Flat;
    UnloadAssembles(cap, Progressed(t.r, now), |t.r.fifo|, now, arrivals, t.received, t.done);
  }

  /** A drain that does not restart leaves at most one byte more than arrived meanwhile. */
  lemma DrainEmpties(cap: nat, steps: seq<Step>, now: nat, arrivals: seq<seq<byte>>)
    requires MIN_CAPTURE <= cap <= BUFFER_SIZE
    ensures var before, after := Exec(cap, steps), Exec(cap, steps + [Drain(now, arrivals)]);
            !Abandons(before.r, now) ==>
              |after.r.fifo| <= 1 + |after.received| - |before.received| && Flat(before.done) <= Flat(after.done)
  {
    hide Flat, Unload, AcceptedBy, CompletedBy, Stalled, Exec;
    ExecStep(cap, steps, Drain(now, arrivals));
    DrainSound(cap, Exec(cap, steps), now, arrivals);
  }

  /** After a drain that does not restart, every capture is completed whose last byte had come when it looked, and no other. */
  lemma DrainCompletes(cap: nat, steps: seq<Step>, now: nat, arrivals: seq<seq<byte>>)
    requires MIN_CAPTURE <= cap <= BUFFER_SIZE
    ensures var before, after := Exec(cap, steps), Exec(cap, steps + [Drain(now, arrivals)]);
            !Abandons(before.r, now) ==> Start(cap, |after.done|) <= |before.received| < Start(cap, |after.done| + 1)
  {
    hide Flat, Unload, AcceptedBy, CompletedBy, Stalled, Exec, AfterReads, Start;
    var t := Exec(cap, steps);
    ExecStep(cap, steps, Drain(now, arrivals));
    if !Abandons(t.r, now) {
      var start := Progressed(t.r, now);
      UnloadAssembles(cap, start, |t.r.fifo|, now, arrivals, t.received, t.done);
      var done := t.done + CompletedBy(cap, start, |t.r.fifo|, now, arrivals);
      FlatLength(cap, done);
      StartSteps(cap, |done|, 1);
    }
  }

  /**
   * What the chip makes of bytes on the air: it takes them in order while it has room, has overflowed from then on exactly when
   * it could not take one, and takes none after that.
   */
  lemma HeardExactly(r: Radio, air: seq<byte>)
    requires |r.fifo| <= FIFO_SIZE
    ensures var after := Heard(r, air);
            r.fifo <= after.fifo <= r.fifo + air && after == r.(fifo := after.fifo, overflowed := after.overflowed) &&
            (r.overflowed ==> after.fifo == r.fifo) && (after.overflowed <==> r.overflowed || after.fifo != r.fifo + air) &&
            (after.overflowed && !r.overflowed ==> |after.fifo| == 64)
  {
  }

  /** After a restart the chip is empty and receives again, and nothing of what was under way is left; the queue stays. */
  lemma RestartsClean(cap: nat, steps: seq<Step>, step: Step)
    requires MIN_CAPTURE <= cap <= BUFFER_SIZE
    requires step.EndEarly? || (step.Drain? && Abandons(Exec(cap, steps).r, step.now))
    ensures var before, after := Exec(cap, steps).r, Exec(cap, steps + [step]).r;
            after.fifo == [] && !after.overflowed && after.partial == [] && after.lastSeen == 0 &&
            (step.Drain? ==> after.queue == before.queue && after.drops == before.drops)
  {
    assert (steps + [step])[..|steps|] == steps;
  }

  /** Every restart of the receiver is counted once: a drain's as an overflow if there was one, else as a stall. */
  lemma RestartsCounted(cap: nat, steps: seq<Step>, step: Step)
    requires MIN_CAPTURE <= cap <= BUFFER_SIZE
    ensures var r, after := Exec(cap, steps).r, Exec(cap, steps + [step]).r;
            after.overflows == r.overflows + (if step.Drain? && r.overflowed then 1 else 0) &&
            after.stalls == r.stalls + (if step.Drain? && !r.overflowed && Stalled(r, step.now) then 1 else 0) &&
            after.quietEnds == r.quietEnds + if step.EndEarly? then 1 else 0
  {
    hide Unload, AcceptedBy, CompletedBy, Stalled, Exec, Taken, Sound, Flat;
    ExecStep(cap, steps, step);
    var t := Exec(cap, steps);
    SoundSized(cap, t);
    if step.Drain? && !Abandons(t.r, step.now) {
      UnloadCountsNothing(cap, Progressed(t.r, step.now), |t.r.fifo|, step.now, step.arrivals);
    }
  }

  lemma {:induction false} UnloadCountsNothing(cap: nat, r: Radio, avail: nat, now: nat, arrivals: seq<seq<byte>>)
    requires Sized(cap, r) && avail <= |r.fifo|
    ensures var u := Unload(cap, r, avail, now, arrivals).r;
            u.overflows == r.overflows && u.stalls == r.stalls && u.quietEnds == r.quietEnds
    decreases avail
  {
    hide Taken;
    if avail > 0 && ReadSize(cap, |r.partial|, avail) > 0 {
      var s, n := Stamped(r, now, avail), ReadSize(cap, |r.partial|, avail);
      UnloadCountsNothing(cap, ReadStep(cap, s, n, Next(arrivals)), avail - n, now, Later(arrivals));
    }
  }

  /** An early end publishes the bytes that follow the completed captures, in order. */
  lemma EarlyAligned(cap: nat, steps: seq<Step>)
    requires MIN_CAPTURE <= cap <= BUFFER_SIZE
    ensures var t := Exec(cap, steps);
            Flat(t.done) + EarlyCapture(cap, t.r).data <= t.received && |EarlyCapture(cap, t.r).data| <= cap
  {
    hide Exec, Flat;
  }

  // ------------------------------------------------------------------ the queue

  /** Every completed capture is consumed, queued or counted as dropped; with no drops the order is kept too. */
  ghost predicate Delivered(cap: nat, t: Trace) {
    |t.completed| == |t.consumed| + |t.r.queue| + t.r.drops && |t.r.queue| <= QUEUE_DEPTH &&
    (t.r.drops == 0 ==> t.completed == t.consumed + t.r.queue) &&
    (forall i :: 0 <= i < |t.r.queue| ==> t.r.queue[i] in t.completed) &&
    (forall i :: 0 <= i < |t.completed| ==> MIN_CAPTURE <= |t.completed[i].data| <= cap)
  }

  ghost predicate SentOn(cap: nat, queue: seq<Capture>, drops: nat, after: seq<Capture>, dropsAfter: nat, made: seq<Capture>) {
    |queue| <= |after| <= 8 && |made| == |after| - |queue| + dropsAfter - drops && drops <= dropsAfter &&
    after == queue + made[..|after| - |queue|] && (drops < dropsAfter ==> |after| == 8) &&
    forall i :: 0 <= i < |made| ==> |made[i].data| == cap
  }

  lemma {:induction false} UnloadSends(cap: nat, r: Radio, avail: nat, now: nat, arrivals: seq<seq<byte>>)
    requires Sized(cap, r) && avail <= |r.fifo| && |r.queue| <= QUEUE_DEPTH
    ensures var u := Unload(cap, r, avail, now, arrivals).r;
            SentOn(cap, r.queue, r.drops, u.queue, u.drops, CompletedBy(cap, r, avail, now, arrivals))
    decreases avail
  {
    hide ReadStep, CompletedIn;
    if avail > 0 && ReadSize(cap, |r.partial|, avail) > 0 {
      var s, n := Stamped(r, now, avail), ReadSize(cap, |r.partial|, avail);
      var next, made := ReadStep(cap, s, n, Next(arrivals)), CompletedIn(cap, s, n, Next(arrivals));
      ReadSends(cap, s, n, Next(arrivals));
      UnloadSends(cap, next, avail - n, now, Later(arrivals));
      var u := Unload(cap, next, avail - n, now, Later(arrivals)).r;
      var later := CompletedBy(cap, next, avail - n, now, Later(arrivals));
      hide Unload, CompletedBy, SentOn;
      SentTwice(cap, s, next, u, made, later);
      UnloadUnfolds(cap, r, avail, now, arrivals);
    }
  }

  lemma ReadSends(cap: nat, r: Radio, n: nat, air: seq<byte>)
    requires Sized(cap, r) && 0 < n <= |r.fifo| && |r.partial| + n <= cap && |r.queue| <= QUEUE_DEPTH
    ensures var after := ReadStep(cap, r, n, air);
            SentOn(cap, r.queue, r.drops, after.queue, after.drops, CompletedIn(cap, r, n, air))
  {
    hide Taken;
    var took := Taken(r.fifo, r.overflowed, air);
    assert (r.fifo + took)[..n] == r.fifo[..n];
  }

  lemma SentTwice(cap: nat, a: Radio, b: Radio, c: Radio, first: seq<Capture>, second: seq<Capture>)
    requires SentOn(cap, a.queue, a.drops, b.queue, b.drops, first) && SentOn(cap, b.queue, b.drops, c.queue, c.drops, second)
    ensures SentOn(cap, a.queue, a.drops, c.queue, c.drops, first + second)
  {
    var kept := |b.queue| - |a.queue|;
    if a.drops == b.drops {
      assert first[..kept] == first;
      assert (first + second)[..|c.queue| - |a.queue|] == first + second[..|c.queue| - |b.queue|];
    } else {
      assert (first + second)[..kept] == first[..kept] && second[..0] == [];
    }
  }

  lemma DrainDelivers(cap: nat, t: Trace, now: nat, arrivals: seq<seq<byte>>)
    requires MIN_CAPTURE <= cap && Sized(cap, t.r) && Delivered(cap, t)
    ensures Delivered(cap, Do(cap, t, Drain(now, arrivals)))
  {
    hide Unload, AcceptedBy, CompletedBy, Stalled;
    if !Abandons(t.r, now) {
      var start := Progressed(t.r, now);
      UnloadSends(cap, start, |t.r.fifo|, now, arrivals);
      var made, u := CompletedBy(cap, start, |t.r.fifo|, now, arrivals), Unload(cap, start, |t.r.fifo|, now, arrivals).r;
      if u.drops == 0 {
        assert t.completed + made == t.consumed + (t.r.queue + made);
      }
    }
  }

  /** Neither touches the queue or a capture. */
  lemma QuietDelivers(cap: nat, t: Trace, step: Step)
    requires Sized(cap, t.r) && Delivered(cap, t) && (step.Air? || step.Restart?)
    ensures Delivered(cap, Do(cap, t, step))
  {
    hide Taken;
  }

  lemma {:induction false} NothingLostSilently(cap: nat, steps: seq<Step>)
    requires MIN_CAPTURE <= cap <= BUFFER_SIZE
    ensures Delivered(cap, Exec(cap, steps))
  {
    if steps == [] {
      NoneDelivered(cap);
    } else {
      var t, step := Exec(cap, steps[..|steps| - 1]), steps[|steps| - 1];
      NothingLostSilently(cap, steps[..|steps| - 1]);
      SoundSized(cap, t);
      hide Do, Delivered, Sound, Sized;
      match step {
        case Air(_) => QuietDelivers(cap, t, step);
        case Drain(now, arrivals) => DrainDelivers(cap, t, now, arrivals);
        case EndEarly => EarlyDelivers(cap, t);
        case Restart => QuietDelivers(cap, t, step);
        case Consume => ConsumeDelivers(cap, t);
      }
    }
  }

  lemma NoneDelivered(cap: nat)
    ensures Delivered(cap, Trace(IDLE, [], [], [], [], []))
  {
  }

  lemma SoundSized(cap: nat, t: Trace)
    requires Sound(cap, t)
    ensures Sized(cap, t.r)
  {
  }

  lemma EarlyDelivers(cap: nat, t: Trace)
    requires Sized(cap, t.r) && Delivered(cap, t)
    ensures Delivered(cap, Do(cap, t, EndEarly))
  {
    var c := EarlyCapture(cap, t.r);
    if t.r.drops == 0 {
      assert t.completed + [c] == t.consumed + (t.r.queue + [c]);
    }
    assert t.completed + [] == t.completed;
  }

  lemma ConsumeDelivers(cap: nat, t: Trace)
    requires Sized(cap, t.r) && Delivered(cap, t)
    ensures Delivered(cap, Do(cap, t, Consume))
  {
    if t.r.queue != [] {
      assert t.consumed + t.r.queue == t.consumed + [t.r.queue[0]] + t.r.queue[1..];
    }
  }

  /**
   * What becomes of the captures a step completes: they go on the queue in their order as long as it holds fewer than eight,
   * and only the rest is dropped.
   */
  lemma QueuedExactly(cap: nat, steps: seq<Step>, step: Step)
    requires MIN_CAPTURE <= cap <= BUFFER_SIZE && !step.Consume?
    ensures var before, after := Exec(cap, steps), Exec(cap, steps + [step]);
            before.completed <= after.completed && after.consumed == before.consumed &&
            var made := after.completed[|before.completed|..];
            var kept := Min(|made|, 8 - |before.r.queue|);
            0 <= kept && after.r.queue == before.r.queue + made[..kept] && after.r.drops == before.r.drops + |made| - kept
  {
    hide Exec, Sound, Delivered, Sized;
    ExecStep(cap, steps, step);
    NothingLostSilently(cap, steps);
    QueueRoom(cap, Exec(cap, steps));
    SoundSized(cap, Exec(cap, steps));
    StepQueues(cap, Exec(cap, steps), step);
  }

  lemma QueueRoom(cap: nat, t: Trace)
    requires Delivered(cap, t)
    ensures |t.r.queue| <= 8
  {
  }

  lemma StepQueues(cap: nat, t: Trace, step: Step)
    requires Sized(cap, t.r) && |t.r.queue| <= 8 && !step.Consume?
    ensures var after := Do(cap, t, step);
            t.completed <= after.completed && after.consumed == t.consumed &&
            var made := after.completed[|t.completed|..];
            var kept := Min(|made|, 8 - |t.r.queue|);
            after.r.queue == t.r.queue + made[..kept] && after.r.drops == t.r.drops + |made| - kept
  {
    hide Unload, AcceptedBy, CompletedBy, Stalled, Taken;
    if step.Drain? && !Abandons(t.r, step.now) {
      var start := Progressed(t.r, step.now);
      UnloadSends(cap, start, |t.r.fifo|, step.now, step.arrivals);
      var made := CompletedBy(cap, start, |t.r.fifo|, step.now, step.arrivals);
      assert (t.completed + made)[|t.completed|..] == made;
    } else if step.EndEarly? {
      var c := EarlyCapture(cap, t.r);
      assert (t.completed + [c])[|t.completed|..] == [c];
    }
  }

  /** The k-th piece of what is on the air during a drain lands during its k-th read. */
  lemma ArrivalsInTurn(arrivals: seq<seq<byte>>)
    ensures if arrivals == [] then Next(arrivals) == [] && Later(arrivals) == [] else [Next(arrivals)] + Later(arrivals) == arrivals
  {
  }
}
