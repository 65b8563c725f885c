/** The firmware's Manchester gate: a capture is published when few enough symbol pairs are impossible. */
module Gate {
  import opened Common
  import opened Manchester
  import opened Packets
  import opened Framing
  import opened RoundTrip
  import opened Combine
  import opened BitStrings

  /** The first pairs after the header belong to the first frame's data byte; then come whole frames of pairs. */
  const FIRST_PAIRS: nat := 8
  const FRAME_PAIRS: nat := 14
  const LEAST_BITS: nat := 17

  /** Where the FIFO content starts in an encoded packet: just after the start header. */
  const AFTER_HEADER: nat := 31

  /** Pairs tile the stream from symbol 1 on; pair m is at 1 + 2m. */
  function PairAt(m: nat): nat { 1 + 2 * m }

  /** The pair that is a frame marker, and must be two equal symbols. */
  predicate IsMarker(m: nat) { m >= FIRST_PAIRS && (m - FIRST_PAIRS) % FRAME_PAIRS == 0 }

  /** A pair no transmitter sends there: equal where Manchester differs, or differing where the marker is equal. */
  predicate Impossible(bits: Bits, m: nat)
    requires PairAt(m) + 1 < |bits|
  {
    (bits[PairAt(m)] == bits[PairAt(m) + 1]) != IsMarker(m)
  }

  /** How many of the first m pairs are impossible. */
  function Violations(bits: Bits, m: nat): nat
    requires PairAt(m) <= |bits|
  {
    if m == 0 then 0 else Violations(bits, m - 1) + if Impossible(bits, m - 1) then 1 else 0
  }

  /** Whole frames checked after the first data byte. */
  function FramesChecked(gate: nat, nbits: nat): (n: nat)
    requires gate >= 1 && nbits >= LEAST_BITS
    ensures LEAST_BITS + FRAME_BITS * n <= nbits && n <= gate - 1
    ensures n < gate - 1 ==> LEAST_BITS + FRAME_BITS * (n + 1) > nbits
  {
    Min(gate - 1, (nbits - LEAST_BITS) / FRAME_BITS)
  }

  function PairsChecked(gate: nat, nbits: nat): (m: nat)
    requires gate >= 1 && nbits >= LEAST_BITS
    ensures PairAt(m) <= nbits
  {
    FIRST_PAIRS + FRAME_PAIRS * FramesChecked(gate, nbits)
  }

  /** The gate's answer: the total over everything checked is within the budget. */
  predicate Passes(bits: Bits, gate: nat, errors: nat)
    requires gate >= 1
  {
    |bits| >= LEAST_BITS && Violations(bits, PairsChecked(gate, |bits|)) <= errors
  }

  lemma {:induction false} ViolationsGrow(bits: Bits, m: nat, n: nat)
    requires m <= n && PairAt(n) <= |bits|
    ensures Violations(bits, m) <= Violations(bits, n)
  {
    if m < n {
      ViolationsGrow(bits, m, n - 1);
    }
  }

  /** One symbol of the buffer, as the firmware picks it out. */
  function BitOf(buf: seq<byte>, i: nat): bool
    requires i < 8 * |buf|
  {
    Symbols(buf[i / 8])[i % 8]
  }

  lemma BitPicked(buf: seq<byte>, i: nat)
    requires i < 8 * |buf|
    ensures BitOf(buf, i) == BitsFromBytes(buf)[i]
  {
    SymbolAt(buf, i);
    hide Symbols;
  }

  /** The count over one run of pairs, none of them a marker, given up on once over budget. */
  method CountPairs(buf: seq<byte>, first: nat, n: nat, start: nat, errors: nat) returns (bad: nat)
    requires PairAt(first + n) <= 8 * |buf| && forall j :: first <= j < first + n ==> !IsMarker(j)
    requires start == Violations(BitsFromBytes(buf), first) <= errors
    ensures bad <= errors ==> bad == Violations(BitsFromBytes(buf), first + n)
    ensures bad > errors ==> Violations(BitsFromBytes(buf), first + n) > errors
  {
    hide BitOf, BitsFromBytes, IsMarker;
    ghost var bits := BitsFromBytes(buf);
    bad := start;
    for j := 0 to n
      invariant bad == Violations(bits, first + j) <= errors
    {
      var at := PairAt(first) + 2 * j;
      BitPicked(buf, at);
      BitPicked(buf, at + 1);
      if BitOf(buf, at) == BitOf(buf, at + 1) {
        bad := bad + 1;
        if bad > errors {
          ViolationsGrow(bits, first + j + 1, first + n);
          return;
        }
      }
    }
  }

  /** A frame: its marker, then its pairs. */
  method CountFrame(buf: seq<byte>, k: nat, start: nat, errors: nat) returns (bad: nat)
    requires 17 + k * 28 + 28 <= 8 * |buf|
    requires start == Violations(BitsFromBytes(buf), FIRST_PAIRS + FRAME_PAIRS * k) <= errors
    ensures bad <= errors ==> bad == Violations(BitsFromBytes(buf), FIRST_PAIRS + FRAME_PAIRS * (k + 1))
    ensures bad > errors ==> Violations(BitsFromBytes(buf), FIRST_PAIRS + FRAME_PAIRS * (k + 1)) > errors
  {
    hide BitOf, BitsFromBytes, IsMarker;
    ghost var bits := BitsFromBytes(buf);
    var first, base := FIRST_PAIRS + FRAME_PAIRS * k, 17 + k * 28;
    BitPicked(buf, base);
    BitPicked(buf, base + 1);
    MarkerOfFrame(k, 0);
    forall j | first + 1 <= j < first + FRAME_PAIRS ensures !IsMarker(j) {
      MarkerOfFrame(k, j - first);
    }
    bad := start;
    if BitOf(buf, base) != BitOf(buf, base + 1) {
      bad := bad + 1;
      if bad > errors {
        ViolationsGrow(bits, first + 1, first + FRAME_PAIRS);
        return;
      }
    }
    bad := CountPairs(buf, first + 1, 13, bad, errors);
  }

  /** manchester_gate_ok_: gives up as soon as the budget is exceeded, which is when the total would exceed it. */
  method ManchesterGateOk(buf: seq<byte>, gate: nat, errors: nat) returns (ok: bool)
    requires 1 <= gate <= 13 && errors <= 8
    ensures ok <==> Passes(BitsFromBytes(buf), gate, errors)
  {
    hide Violations, BitsFromBytes;
    ghost var bits := BitsFromBytes(buf);
    var nbits := 8 * |buf|;
    if nbits < LEAST_BITS {
      return false;
    }
    NoneYet(bits);
    var bad := CountPairs(buf, 0, FIRST_PAIRS, 0, errors);
    var k := 0;
    while bad <= errors && k + 1 < gate && 17 + k * 28 + 28 <= nbits
      invariant k <= FramesChecked(gate, nbits)
      invariant bad <= errors ==> bad == Violations(bits, FIRST_PAIRS + FRAME_PAIRS * k)
      invariant bad > errors ==> Violations(bits, FIRST_PAIRS + FRAME_PAIRS * k) > errors
      decreases gate - k
    {
      bad := CountFrame(buf, k, bad, errors);
      k := k + 1;
    }
    ViolationsGrow(bits, FIRST_PAIRS + FRAME_PAIRS * k, PairsChecked(gate, nbits));
    ok := bad <= errors;
  }

  lemma NoneYet(bits: Bits)
    requires |bits| >= 1
    ensures Violations(bits, 0) == 0
  {
  }

  lemma MarkerOfFrame(k: nat, j: nat)
    requires j < FRAME_PAIRS
    ensures IsMarker(FIRST_PAIRS + FRAME_PAIRS * k + j) <==> j == 0
  {
  }

  // ------------------------------------------------------------------ what the gate promises

  /** Wrong symbols cost at most one violation each. */
  lemma {:induction false} ErrorsBoundViolations(sent: Bits, got: Bits, m: nat)
    requires PairAt(m) <= |sent| && PairAt(m) <= |got|
    ensures Violations(got, m) <= Violations(sent, m) + Differences(sent, got, PairAt(m))
    ensures Violations(sent, m) <= Violations(got, m) + Differences(sent, got, PairAt(m))
  {
    if m > 0 {
      ErrorsBoundViolations(sent, got, m - 1);
      assert Differences(sent, got, PairAt(m)) == Differences(sent, got, PairAt(m - 1))
          + (if sent[PairAt(m - 1)] != got[PairAt(m - 1)] then 1 else 0)
          + (if sent[PairAt(m - 1) + 1] != got[PairAt(m - 1) + 1] then 1 else 0);
    }
  }

  /** Flipping one symbol moves the total by at most one, either way. */
  lemma OneFlip(bits: Bits, i: nat, m: nat)
    requires i < |bits| && PairAt(m) <= |bits|
    ensures -1 <= Violations(bits[i := !bits[i]], m) - Violations(bits, m) <= 1
  {
    ErrorsBoundViolations(bits, bits[i := !bits[i]], m);
    OneDifference(bits, i, PairAt(m));
  }

  lemma {:induction false} OneDifference(bits: Bits, i: nat, n: nat)
    requires i < |bits| && n <= |bits|
    ensures Differences(bits, bits[i := !bits[i]], n) == if i < n then 1 else 0
  {
    if n > 0 {
      OneDifference(bits, i, n - 1);
    }
  }

  /** What a packet leaves in the FIFO: everything after its header, in the polarity it was sent, then anything. */
  ghost function FifoOf(data: Wire, inverted: bool, tail: Bits): Bits
    requires Encodable(data)
  {
    var rest := PacketBits(data)[AFTER_HEADER..];
    (if inverted then Invert(rest) else rest) + tail
  }

  /** Pair m of the FIFO is an aligned pair of the packet, and none of its frames' pairs is impossible. */
  lemma PacketPair(data: Wire, inverted: bool, tail: Bits, m: nat)
    requires Encodable(data) && m < FIRST_PAIRS + FRAME_PAIRS * (|data| - 1)
    ensures PairAt(m) + 1 < |FifoOf(data, inverted, tail)| && !Impossible(FifoOf(data, inverted, tail), m)
  {
    hide PacketBits, FrameBits;
    var q := AFTER_HEADER + PairAt(m);
    var f := (q - PREAMBLE_SYMBOLS) / FRAME_BITS;
    var fifo := FifoOf(data, inverted, tail);
    assert fifo[PairAt(m)] == (PacketBits(data)[q] != inverted) && fifo[PairAt(m) + 1] == (PacketBits(data)[q + 1] != inverted);
    var g := EvenPair(data, q);
    if IsMarker(m) {
      MarkerInPacket(data, f);
      assert q == PREAMBLE_SYMBOLS + FRAME_BITS * f;
    }
  }

  lemma MarkerInPacket(data: Wire, f: nat)
    requires Encodable(data) && f < |data|
    ensures PacketBits(data)[PREAMBLE_SYMBOLS + FRAME_BITS * f] && PacketBits(data)[PREAMBLE_SYMBOLS + FRAME_BITS * f + 1]
  {
    hide PacketBits;
    FrameInPacket(data, f);
    var at := PREAMBLE_SYMBOLS + FRAME_BITS * f;
    assert PacketBits(data)[at..at + FRAME_BITS][0] && PacketBits(data)[at..at + FRAME_BITS][1];
  }

  lemma {:induction false} PacketClean(data: Wire, inverted: bool, tail: Bits, m: nat)
    requires Encodable(data) && m <= FIRST_PAIRS + FRAME_PAIRS * (|data| - 1)
    ensures PairAt(m) <= |FifoOf(data, inverted, tail)| && Violations(FifoOf(data, inverted, tail), m) == 0
  {
    hide PacketBits;
    if m > 0 {
      PacketClean(data, inverted, tail, m - 1);
      PacketPair(data, inverted, tail, m - 1);
    }
    hide FifoOf, Impossible;
  }

  /**
   * No real packet is turned away: whatever follows it on the air, in either polarity, a capture of a packet with at
   * least `gate` frames passes as long as the wrong symbols in what is checked stay within the budget.
   */
  lemma PacketsPass(data: Wire, inverted: bool, tail: Bits, buf: seq<byte>, gate: nat, errors: nat)
    requires Encodable(data) && 1 <= gate <= |data|
    requires LEAST_BITS <= 8 * |buf| <= |FifoOf(data, inverted, tail)|
    requires Differences(FifoOf(data, inverted, tail), BitsFromBytes(buf), PairAt(PairsChecked(gate, 8 * |buf|))) <= errors
    ensures Passes(BitsFromBytes(buf), gate, errors)
  {
    hide FifoOf, Violations, Differences, BitsFromBytes;
    var m := PairsChecked(gate, 8 * |buf|);
    PacketClean(data, inverted, tail, m);
    ErrorsBoundViolations(FifoOf(data, inverted, tail), BitsFromBytes(buf), m);
  }

  // ------------------------------------------------------------------ said of the symbols

  /** Symbols i and i + 1 begin a frame: after the first data byte's sixteen, every twenty-eight. */
  predicate AtMarker(i: nat) { i >= 17 && (i - 17) % 28 == 0 }

  /** From an odd place: a marker whose two symbols differ, or any other pair whose symbols are equal. */
  predicate WrongPair(bits: Bits, i: nat) {
    i % 2 == 1 && i + 1 < |bits| && (bits[i] != bits[i + 1] <==> AtMarker(i))
  }

  /** The wrong pairs among the first n symbols, by their place. */
  ghost function WrongPairs(bits: Bits, n: nat): set<nat> { set i: nat | i < n && WrongPair(bits, i) }

  lemma MarkerPlaces(m: nat)
    ensures AtMarker(1 + 2 * m) <==> IsMarker(m)
  {
    if m >= FIRST_PAIRS {
      var q, r := (m - FIRST_PAIRS) / FRAME_PAIRS, (m - FIRST_PAIRS) % FRAME_PAIRS;
      assert m - FIRST_PAIRS == FRAME_PAIRS * q + r;
      assert 1 + 2 * m - 17 == 28 * q + 2 * r;
    }
  }

  lemma {:induction false} ViolationsAreWrong(bits: Bits, m: nat)
    requires PairAt(m) <= |bits|
    ensures Violations(bits, m) == |WrongPairs(bits, 2 * m)|
  {
    hide WrongPair, Impossible;
    if m == 0 {
      assert WrongPairs(bits, 0) == {};
    } else {
      ViolationsAreWrong(bits, m - 1);
      LastPair(bits, m);
      var before := WrongPairs(bits, 2 * (m - 1));
      assert WrongPairs(bits, 2 * m) == if Impossible(bits, m - 1) then before + {2 * m - 1} else before;
    }
  }

  lemma LastPair(bits: Bits, m: nat)
    requires m > 0 && PairAt(m) <= |bits|
    ensures !WrongPair(bits, 2 * m - 2) && (WrongPair(bits, 2 * m - 1) <==> Impossible(bits, m - 1))
  {
    MarkerPlaces(m - 1);
    hide AtMarker, IsMarker;
  }

  /**
   * The gate turns a capture away exactly when it has fewer than seventeen symbols or more wrong pairs than the budget among
   * the first data byte's and those of the whole frames that follow, no more than the gate's number less one.
   */
  lemma TurnedAwayExactly(bits: Bits, gate: nat, errors: nat) returns (frames: nat)
    requires gate >= 1
    ensures |bits| >= 17 ==> frames <= gate - 1 && 17 + 28 * frames <= |bits| && (frames < gate - 1 ==> 17 + 28 * (frames + 1) > |bits|)
    ensures !Passes(bits, gate, errors) <==> |bits| < 17 || |WrongPairs(bits, 16 + 28 * frames)| > errors
  {
    frames := 0;
    if |bits| >= 17 {
      frames := FramesChecked(gate, |bits|);
      ViolationsAreWrong(bits, PairsChecked(gate, |bits|));
      assert 2 * PairsChecked(gate, |bits|) == 16 + 28 * frames;
    }
    hide WrongPairs, Violations;
  }
}
