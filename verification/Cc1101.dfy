/** The CC1101 receive path: a capture longer than the chip's FIFO, reassembled while it arrives. */
module Cc1101 {
  import opened Common

  const FIFO_SIZE: nat := 64
  const QUEUE_DEPTH: nat := 8
  const BUFFER_SIZE: nat := 255
  const MIN_CAPTURE: nat := 32
  const STALL_US: nat := 20000
  const BITRATE: nat := 9124

  /** micros() and everything computed from it wraps at 32 bits. */
  const CLOCK: nat := 0x1_0000_0000

  datatype Capture = Capture(firstBit: nat, data: seq<byte>)

  /** The task's state and the chip's; `partial` is the filled part of the buffer. */
  datatype Radio = Radio(fifo: seq<byte>, overflowed: bool, partial: seq<byte>, firstBit: nat, queue: seq<Capture>,
                         drops: nat, overflows: nat, stalls: nat, quietEnds: nat, lastSeen: nat, lastProgress: nat)

  const IDLE: Radio := Radio([], false, [], 0, [], 0, 0, 0, 0, 0, 0)

  function Ago(now: nat, then_: nat): nat { (now - then_) % CLOCK }

  function AirUs(bytes: nat): nat { bytes * 8 * 1000000 / BITRATE }

  // ------------------------------------------------------------------ the chip

  /** How much of what is on the air the FIFO takes: nothing once it has overflowed, never more than it has room for. */
  function Taken(fifo: seq<byte>, overflowed: bool, air: seq<byte>): (r: seq<byte>)
    requires |fifo| <= FIFO_SIZE
    ensures |r| <= |air| && |fifo| + |r| <= FIFO_SIZE
  {
    if overflowed then [] else air[..Min(|air|, FIFO_SIZE - |fifo|)]
  }

  function Heard(r: Radio, air: seq<byte>): (after: Radio)
    requires |r.fifo| <= FIFO_SIZE
    ensures |after.fifo| <= FIFO_SIZE
  {
    r.(fifo := r.fifo + Taken(r.fifo, r.overflowed, air),
       overflowed := r.overflowed || |r.fifo| + |air| > FIFO_SIZE)
  }

  // ------------------------------------------------------------------ the task

  /** restart_rx_ */
  function Restarted(r: Radio): Radio {
    r.(fifo := [], overflowed := false, partial := [], lastSeen := 0)
  }

  /** xQueueSend, or a drop when the queue is full. */
  function Send(r: Radio, c: Capture): Radio {
    if |r.queue| < QUEUE_DEPTH then r.(queue := r.queue + [c]) else r.(drops := r.drops + 1)
  }

  /** `got_` in front, more in the FIFO, and the FIFO not over-full. */
  predicate Sized(cap: nat, r: Radio) { |r.partial| < cap && |r.fifo| <= FIFO_SIZE }

  /** How many bytes the next read takes: the rest of the capture if it is all in, else all but one. */
  function ReadSize(cap: nat, got: nat, avail: nat): nat
    requires got < cap && avail > 0
  {
    if avail >= cap - got then cap - got else avail - 1
  }

  /** One read of n bytes, `air` landing in the FIFO meanwhile; a full buffer is sent off. */
  function ReadStep(cap: nat, r: Radio, n: nat, air: seq<byte>): (after: Radio)
    requires Sized(cap, r) && 0 < n <= |r.fifo| && |r.partial| + n <= cap
    ensures Sized(cap, after) && |after.fifo| >= |r.fifo| - n
  {
    var h := Heard(r, air);
    var got := h.(partial := h.partial + h.fifo[..n], fifo := h.fifo[n..]);
    if |got.partial| == cap then Send(got, Capture(got.firstBit, got.partial)).(partial := []) else got
  }

  datatype Unloaded = Unloaded(r: Radio, left: nat)

  function Next(arrivals: seq<seq<byte>>): seq<byte> { if arrivals == [] then [] else arrivals[0] }

  function Later(arrivals: seq<seq<byte>>): seq<seq<byte>> { if arrivals == [] then [] else arrivals[1..] }

  /** A capture's first bit was on the air as many byte-times ago as there are bytes waiting. */
  function Stamped(r: Radio, now: nat, avail: nat): Radio {
    if r.partial == [] then r.(firstBit := Ago(now, AirUs(avail))) else r
  }

  /** The loop of drain_, over the `avail` bytes the count register showed. */
  function Unload(cap: nat, r: Radio, avail: nat, now: nat, arrivals: seq<seq<byte>>): Unloaded
    requires Sized(cap, r) && avail <= |r.fifo|
    decreases avail
  {
    if avail == 0 then Unloaded(r, 0)
    else
      var stamped := Stamped(r, now, avail);
      var n := ReadSize(cap, |r.partial|, avail);
      if n == 0 then Unloaded(stamped, avail)
      else Unload(cap, ReadStep(cap, stamped, n, Next(arrivals)), avail - n, now, Later(arrivals))
  }

  predicate Stalled(r: Radio, now: nat) {
    var seen := |r.partial| + |r.fifo|;
    seen == r.lastSeen && seen > 0 && Ago(now, r.lastProgress) > STALL_US
  }

  function Progressed(r: Radio, now: nat): Radio {
    var seen := |r.partial| + |r.fifo|;
    if seen != r.lastSeen then r.(lastSeen := seen, lastProgress := now) else r
  }

  /** drain_; the k-th of `arrivals` lands while its k-th read runs. */
  function DrainStep(cap: nat, r: Radio, now: nat, arrivals: seq<seq<byte>>): Radio
    requires Sized(cap, r)
  {
    if r.overflowed then Restarted(r.(overflows := r.overflows + 1))
    else if Stalled(r, now) then Restarted(r.(stalls := r.stalls + 1))
    else
      var u := Unload(cap, Progressed(r, now), |r.fifo|, now, arrivals);
      u.r.(lastSeen := |u.r.partial| + u.left)
  }

  /** end_capture_early_: the receiver is stopped first, so nothing lands meanwhile. */
  function EndEarlyStep(cap: nat, r: Radio): Radio
    requires Sized(cap, r)
  {
    var n := Min(|r.fifo|, cap - |r.partial|);
    var whole := r.partial + r.fifo[..n];
    var sent := if !r.overflowed && |whole| >= MIN_CAPTURE then Send(r, Capture(r.firstBit, whole)) else r;
    Restarted(sent.(quietEnds := r.quietEnds + 1))
  }

  // ------------------------------------------------------------------ in place

  class Chip {
    var fifo: seq<byte>
    var overflowed: bool
    var receiving: bool

    constructor ()
      ensures fifo == [] && !overflowed && receiving
    {
      fifo, overflowed, receiving := [], false, true;
    }

    /** Bytes off the air, one by one. */
    method Hear(air: seq<byte>)
      requires |fifo| <= FIFO_SIZE
      modifies this`fifo, this`overflowed
      ensures receiving ==> fifo == old(fifo) + Taken(old(fifo), old(overflowed), air) &&
                            overflowed == (old(overflowed) || |old(fifo)| + |air| > FIFO_SIZE)
      ensures !receiving ==> fifo == old(fifo) && overflowed == old(overflowed)
    {
      for i := 0 to |air|
        invariant |fifo| <= FIFO_SIZE
        invariant receiving ==> fifo == old(fifo) + Taken(old(fifo), old(overflowed), air[..i]) &&
                                overflowed == (old(overflowed) || |old(fifo)| + i > FIFO_SIZE)
        invariant !receiving ==> fifo == old(fifo) && overflowed == old(overflowed)
      {
        if receiving && !overflowed {
          if |fifo| == FIFO_SIZE {
            overflowed := true;
          } else {
            assert air[..i + 1] == air[..i] + [air[i]];
            fifo := fifo + [air[i]];
          }
        }
      }
      assert air[..|air|] == air;
    }

    /** SIDLE, SFRX, SRX */
    method Restart()
      modifies this
      ensures fifo == [] && !overflowed && receiving
    {
      receiving := false;
      fifo, overflowed := [], false;
      receiving := true;
    }

    method Idle()
      modifies this`receiving
      ensures !receiving
    {
      receiving := false;
    }
  }

  class InsteonRFCC1101 {
    const chip: Chip
    const captureBytes: nat
    const cur: array<byte>
    var got: nat
    var firstBit: nat
    var queue: seq<Capture>
    var queueDrops: nat
    var overflows: nat
    var stalls: nat
    var quietEnds: nat
    var lastSeen: nat
    var lastProgressUs: nat

    ghost predicate Valid()
      reads this, chip
    {
      MIN_CAPTURE <= captureBytes <= BUFFER_SIZE == cur.Length && got < captureBytes && |chip.fifo| <= FIFO_SIZE && chip.receiving
    }

    ghost function State(): Radio
      reads this, chip, cur
      requires got <= cur.Length
    {
      Radio(chip.fifo, chip.overflowed, cur[..got], firstBit, queue, queueDrops, overflows, stalls, quietEnds, lastSeen,
            lastProgressUs)
    }

    constructor (captureBytes: nat)
      requires MIN_CAPTURE <= captureBytes <= BUFFER_SIZE
      ensures Valid() && State() == IDLE && fresh(chip) && fresh(cur) && this.captureBytes == captureBytes
    {
      this.captureBytes := captureBytes;
      chip := new Chip();
      cur := new byte[BUFFER_SIZE];
      got, firstBit, queue, queueDrops, overflows, stalls := 0, 0, [], 0, 0, 0;
      quietEnds, lastSeen, lastProgressUs := 0, 0, 0;
    }

    method RestartRx()
      requires got <= cur.Length
      modifies this`got, this`lastSeen, chip
      ensures got == 0 && chip.receiving && |chip.fifo| <= FIFO_SIZE && State() == Restarted(old(State()))
    {
      chip.Restart();
      got := 0;
      lastSeen := 0;
    }

    /** A burst read of n bytes into the buffer, `air` landing meanwhile if the receiver runs. */
    method ReadFifo(n: nat, air: seq<byte>)
      requires n <= |chip.fifo| <= FIFO_SIZE && got + n <= cur.Length && (chip.receiving || air == [])
      modifies cur, chip`fifo, chip`overflowed
      ensures var h := Heard(old(State()), air);
              cur[..got + n] == h.partial + h.fifo[..n] && chip.fifo == h.fifo[n..] && chip.overflowed == h.overflowed
    {
      chip.Hear(air);
      assert chip.fifo == Heard(old(State()), air).fifo;
      var data := chip.fifo[..n];
      forall i | 0 <= i < n {
        cur[got + i] := data[i];
      }
      assert cur[..got + n] == old(cur[..got]) + data;
      chip.fifo := chip.fifo[n..];
    }

    /** Hand the buffer to the queue if it has room. */
    method Publish()
      requires got <= cur.Length
      modifies this`queue, this`queueDrops
      ensures State() == Send(old(State()), Capture(firstBit, cur[..got]))
    {
      if |queue| < QUEUE_DEPTH {
        queue := queue + [Capture(firstBit, cur[..got])];
      } else {
        queueDrops := queueDrops + 1;
      }
    }

    /** One turn of the loop once the size of the read is known. */
    method TakeBytes(n: nat, air: seq<byte>)
      requires Valid() && 0 < n <= |chip.fifo| && got + n <= captureBytes
      modifies this`got, this`queue, this`queueDrops, cur, chip`fifo, chip`overflowed
      ensures Valid() && State() == ReadStep(captureBytes, old(State()), n, air)
    {
      hide Send, Taken;
      ReadFifo(n, air);
      got := got + n;
      ghost var h := Heard(old(State()), air);
      assert State() == h.(partial := h.partial + h.fifo[..n], fifo := h.fifo[n..]);
      if got == captureBytes {
        Publish();
        got := 0;
      }
    }

    method Drain(now: nat, arrivals: seq<seq<byte>>)
      requires Valid() && now < CLOCK
      modifies this, cur, chip
      ensures Valid() && State() == DrainStep(captureBytes, old(State()), now, arrivals)
    {
      hide ReadStep, Unload, Ago, AirUs;
      if chip.overflowed {
        overflows := overflows + 1;
        RestartRx();
        return;
      }
      var avail: nat := |chip.fifo|;
      var seen := got + avail;
      if seen != lastSeen {
        lastSeen := seen;
        lastProgressUs := now;
      } else if seen > 0 && Ago(now, lastProgressUs) > STALL_US {
        stalls := stalls + 1;
        RestartRx();
        return;
      }
      avail := EmptyFifo(avail, now, arrivals);
      lastSeen := got + avail;
    }

    /** Read while the FIFO reports bytes. */
    method EmptyFifo(waiting: nat, now: nat, arrivals: seq<seq<byte>>) returns (avail: nat)
      requires Valid() && waiting <= |chip.fifo|
      modifies this`got, this`firstBit, this`queue, this`queueDrops, cur, chip`fifo, chip`overflowed
      ensures Valid() && Unloaded(State(), avail) == Unload(captureBytes, old(State()), waiting, now, arrivals)
    {
      hide ReadStep, Unload, Ago, AirUs;
      avail := waiting;
      var later := arrivals;
      while avail > 0
        invariant Valid() && avail <= |chip.fifo|
        invariant Unload(captureBytes, old(State()), waiting, now, arrivals) == Unload(captureBytes, State(), avail, now, later)
        decreases avail
      {
        UnloadTurn(captureBytes, State(), avail, now, later);
        ghost var stamped := Stamped(State(), now, avail);
        if got == 0 {
          firstBit := Ago(now, AirUs(avail));
        }
        assert State() == stamped;
        var remaining := captureBytes - got;
        var n: nat;
        if avail >= remaining {
          n := remaining;
        } else {
          n := avail - 1;
          if n == 0 {
            break;
          }
        }
        TakeBytes(n, Next(later));
        avail, later := avail - n, Later(later);
      }
      if avail == 0 {
        UnloadNothing(captureBytes, State(), now, later);
      }
    }

    method EndCaptureEarly()
      requires Valid()
      modifies this, cur, chip
      ensures Valid() && State() == EndEarlyStep(captureBytes, old(State()))
    {
      chip.Idle();
      if !chip.overflowed {
        var n := Min(|chip.fifo|, captureBytes - got);
        if n > 0 {
          ReadFifo(n, []);
        }
        got := got + n;
        assert cur[..got] == old(State()).partial + old(State()).fifo[..n];
        if got >= MIN_CAPTURE {
          Publish();
        }
      }
      quietEnds := quietEnds + 1;
      RestartRx();
    }
  }

  lemma UnloadNothing(cap: nat, r: Radio, now: nat, arrivals: seq<seq<byte>>)
    requires Sized(cap, r)
    ensures Unload(cap, r, 0, now, arrivals) == Unloaded(r, 0)
  {
  }

  lemma UnloadTurn(cap: nat, r: Radio, avail: nat, now: nat, arrivals: seq<seq<byte>>)
    requires Sized(cap, r) && 0 < avail <= |r.fifo|
    ensures var stamped := Stamped(r, now, avail);
            var n := ReadSize(cap, |r.partial|, avail);
            Unload(cap, r, avail, now, arrivals)
            == if n == 0 then Unloaded(stamped, avail)
               else Unload(cap, ReadStep(cap, stamped, n, Next(arrivals)), avail - n, now, Later(arrivals))
  {
    hide ReadStep;
  }
}
