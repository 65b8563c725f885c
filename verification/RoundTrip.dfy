/** Encoding then parsing any list of packets gives them back, in either polarity. */
module RoundTrip {
  import opened Common
  import opened Manchester
  import opened Packets
  import opened Framing

  ghost predicate AllEncodable(ps: seq<Wire>) { forall k :: 0 <= k < |ps| ==> Encodable(ps[k]) }

  /** The packets on the air one after the other, in normal polarity. */
  ghost function Stream(ps: seq<Wire>): Bits
    requires AllEncodable(ps)
  {
    if ps == [] then [] else PacketBits(ps[0]) + Stream(ps[1..])
  }

  /** What the parser must report for a packet: its bytes, `complete` exactly when no frame is missing. */
  ghost function Expected(data: Wire, timestamp: Option<real>): Packet
    requires Encodable(data)
  {
    Packet(data, PacketBits(data)[15..PREAMBLE_SYMBOLS + FRAME_BITS * |data|], timestamp,
           |data| == FullLength(data), 0, Some(true))
  }

  ghost function ExpectedAll(ps: seq<Wire>, timestamp: Option<real>, minBytes: nat): seq<Packet>
    requires AllEncodable(ps)
  {
    if ps == [] then []
    else (if |ps[0]| < minBytes then [] else [Expected(ps[0], timestamp)])
         + ExpectedAll(ps[1..], timestamp, minBytes)
  }

  // ------------------------------------------------------------------ frames inside a packet

  lemma {:induction false} FrameInPrefix(data: Wire, n: nat, f: nat)
    requires Encodable(data) && f < n <= |data|
    ensures FramesPrefix(data, n)[FRAME_BITS * f..FRAME_BITS * f + FRAME_BITS]
         == FrameBits(ExpectedIndex(Extended(data), f), data[f])
  {
    hide FrameBits;
    if f < n - 1 {
      FrameInPrefix(data, n - 1, f);
      assert FramesPrefix(data, n)[..FRAME_BITS * (n - 1)] == FramesPrefix(data, n - 1);
    }
  }

  /** The counters of a full packet: 31 in its first frame, then down to 0 in its last. */
  lemma CountersCountDown(extended: bool, f: nat)
    requires f < (if extended then 32 else 13)
    ensures ExpectedIndex(extended, 0) == 31 && ExpectedIndex(extended, if extended then 31 else 12) == 0
    ensures 0 < f < (if extended then 31 else 12) ==> ExpectedIndex(extended, f) == ExpectedIndex(extended, f + 1) + 1
  {
  }

  /** Counters are accepted exactly when they begin that way and there are no more of them than a packet has. */
  lemma IndexesExactly(frames: seq<Frame>)
    ensures IndexesOk(frames) <==>
            frames != [] &&
            var most := if HasExt(frames[0].data) then 32 else 13;
            |frames| <= most && frames[0].index == 31 && forall f :: 0 < f < |frames| ==> frames[f].index == most - 1 - f
  {
    hide HasExt;
    if frames != [] {
      assert FrameBytes(frames)[0] == frames[0].data;
    }
  }

  lemma FrameInPacket(data: Wire, f: nat)
    requires Encodable(data) && f < |data|
    ensures var at := PREAMBLE_SYMBOLS + FRAME_BITS * f;
            PacketBits(data)[at..at + FRAME_BITS] == FrameBits(ExpectedIndex(Extended(data), f), data[f])
  {
    hide FrameBits, Idle, FramesPrefix;
    FrameInPrefix(data, |data|, f);
    var frames := FramesPrefix(data, |data|);
    var at := PREAMBLE_SYMBOLS + FRAME_BITS * f;
    assert PacketBits(data)[PREAMBLE_SYMBOLS..PREAMBLE_SYMBOLS + |frames|] == frames;
    assert PacketBits(data)[at..at + FRAME_BITS] == frames[FRAME_BITS * f..FRAME_BITS * f + FRAME_BITS];
  }

  lemma IdleSymbol(n: nat, j: nat)
    requires j < n
    ensures Idle(n)[j] == (j % 4 == 0 || j % 4 == 3)
  {
  }

  lemma PlaceInFour(k: nat)
    ensures if k % 2 == 0 then 2 * k % 4 == 0 && (2 * k + 1) % 4 == 1 else 2 * k % 4 == 2 && (2 * k + 1) % 4 == 3
  {
    var half := k / 2;
    assert k == 2 * half || k == 2 * half + 1;
    assert 2 * k == 4 * half || 2 * k == 4 * half + 2;
  }

  lemma IdlePairs(n: nat, k: nat)
    requires n % 2 == 0
    ensures 2 * k < n ==> Idle(n)[2 * k] == (k % 2 == 0) && Idle(n)[2 * k + 1] == (k % 2 == 1)
  {
    hide Idle;
    if 2 * k < n {
      IdleSymbol(n, 2 * k);
      IdleSymbol(n, 2 * k + 1);
      PlaceInFour(k);
    }
  }

  lemma AirParts(data: Wire)
    requires Encodable(data)
    ensures PacketBits(data) == Idle(20) + FramesPrefix(data, |data|) + Idle(96 + if |data| % 2 == 0 then 4 else 0)
  {
    hide FramesPrefix, Idle;
  }

  lemma AirSize(data: Wire)
    requires Encodable(data)
    ensures |PacketBits(data)| == 20 + 28 * |data| + 96 + (if |data| % 2 == 0 then 4 else 0) && |PacketBits(data)| % 8 == 0
  {
    AirParts(data);
    hide FramesPrefix, Idle, PacketBits;
  }

  lemma PartsAt(a: Bits, m: Bits, b: Bits, size: nat, i: nat)
    requires size == |a| + |m|
    ensures i < |a| ==> (a + m + b)[i] == a[i]
    ensures i < |b| ==> (a + m + b)[size + i] == b[i]
  {
  }

  lemma AirBefore(data: Wire, k: nat)
    requires Encodable(data) && k < 10
    ensures |PacketBits(data)| >= 20 && PacketBits(data)[2 * k] == (k % 2 == 0) && PacketBits(data)[2 * k + 1] == (k % 2 == 1)
  {
    AirParts(data);
    hide FramesPrefix, Idle, PacketBits;
    var frames, after := FramesPrefix(data, |data|), Idle(96 + if |data| % 2 == 0 then 4 else 0);
    PartsAt(Idle(20), frames, after, 20 + |frames|, 2 * k);
    PartsAt(Idle(20), frames, after, 20 + |frames|, 2 * k + 1);
    IdlePairs(20, k);
  }

  lemma AirAfter(data: Wire, n: nat, size: nat, k: nat)
    requires Encodable(data) && n == (96 + if |data| % 2 == 0 then 4 else 0) && size == 20 + 28 * |data| && 2 * k + 1 < n
    ensures size + 2 * k + 1 < |PacketBits(data)| && PacketBits(data)[size + 2 * k] == (k % 2 == 0) &&
            PacketBits(data)[size + 2 * k + 1] == (k % 2 == 1)
  {
    AirParts(data);
    hide FramesPrefix, Idle, PacketBits;
    PartsAt(Idle(20), FramesPrefix(data, |data|), Idle(n), size, 2 * k);
    PartsAt(Idle(20), FramesPrefix(data, |data|), Idle(n), size, 2 * k + 1);
    IdlePairs(n, k);
  }

  /** What goes out around the frames: ten alternating bits before, forty-eight after, and a pad to a whole byte. */
  lemma PacketOnAir(data: Wire, k: nat)
    requires Encodable(data)
    ensures var sent, after := PacketBits(data), 20 + 28 * |data|;
            |sent| == after + 96 + (if |data| % 2 == 0 then 4 else 0) && |sent| % 8 == 0 &&
            (k < 10 ==> sent[2 * k] == (k % 2 == 0) && sent[2 * k + 1] == (k % 2 == 1)) &&
            (k < |data| ==> sent[20 + 28 * k..48 + 28 * k] == FrameBits(ExpectedIndex(Extended(data), k), data[k])) &&
            (after + 2 * k < |sent| ==> sent[after + 2 * k] == (k % 2 == 0) && sent[after + 2 * k + 1] == (k % 2 == 1))
  {
    AirSize(data);
    hide PacketBits, FrameBits;
    if k < 10 {
      AirBefore(data, k);
    }
    if 20 + 28 * |data| + 2 * k < |PacketBits(data)| {
      AirAfter(data, 96 + if |data| % 2 == 0 then 4 else 0, 20 + 28 * |data|, k);
    }
    if k < |data| {
      FrameInPacket(data, k);
    }
  }

  lemma FrameReads(bits: Bits, i: nat, index: nat, b: byte)
    requires index < 32 && i + FRAME_BITS <= |bits|
    requires bits[i..i + FRAME_BITS] == FrameBits(index, b)
    ensures FrameAt(bits, i) && ReadFrame(bits, i) == Frame(index, b)
  {
    hide IndexBits, ByteBits, IndexValue, ByteValue, Encode, Decode, Legal;
    var logical := IndexBits(index) + ByteBits(b);
    assert bits[i..i + FRAME_BITS][0] && bits[i..i + FRAME_BITS][1];
    assert bits[i + 2..i + FRAME_BITS] == bits[i..i + FRAME_BITS][2..] == Encode(logical);
    DecodeInvertsEncode(logical);
    assert logical[..5] == IndexBits(index) && logical[5..13] == ByteBits(b);
    IndexRoundTrip(index);
    ByteRoundTrip(b);
  }

  /** A pair of equal ones at an even place is the marker of some frame; a pair of zeros never occurs there. */
  lemma EvenPair(data: Wire, q: nat) returns (f: nat)
    requires Encodable(data) && q % 2 == 0 && q < |PacketBits(data)|
    ensures PacketBits(data)[q] || PacketBits(data)[q + 1]
    ensures PacketBits(data)[q] && PacketBits(data)[q + 1] ==> f < |data| && q == PREAMBLE_SYMBOLS + FRAME_BITS * f
  {
    hide FramesPrefix, FrameBits, PacketBits;
    f := 0;
    var frames := FRAME_BITS * |data|;
    if PREAMBLE_SYMBOLS <= q < PREAMBLE_SYMBOLS + frames {
      f := (q - PREAMBLE_SYMBOLS) / FRAME_BITS;
      var j := (q - PREAMBLE_SYMBOLS) % FRAME_BITS;
      FrameInPacket(data, f);
      var at := PREAMBLE_SYMBOLS + FRAME_BITS * f;
      var here := PacketBits(data)[at..at + FRAME_BITS];
      assert here[j] == PacketBits(data)[q] && here[j + 1] == PacketBits(data)[q + 1];
      PairInFrame(ExpectedIndex(Extended(data), f), data[f], j);
    } else {
      PairOutside(data, q);
    }
  }

  lemma PairInFrame(index: nat, b: byte, j: nat)
    requires index < 32 && j % 2 == 0 && j < FRAME_BITS
    ensures FrameBits(index, b)[j] || FrameBits(index, b)[j + 1]
    ensures FrameBits(index, b)[j] && FrameBits(index, b)[j + 1] ==> j == 0
  {
    hide IndexBits, ByteBits, Encode;
    if j > 0 {
      var logical := IndexBits(index) + ByteBits(b);
      EncodePair(logical, j / 2 - 1);
      assert FrameBits(index, b)[j] == Encode(logical)[j - 2] && FrameBits(index, b)[j + 1] == Encode(logical)[j - 1];
    }
  }

  lemma PairOutside(data: Wire, q: nat)
    requires Encodable(data) && q % 2 == 0 && q < |PacketBits(data)|
    requires q < PREAMBLE_SYMBOLS || q >= PREAMBLE_SYMBOLS + FRAME_BITS * |data|
    ensures PacketBits(data)[q] != PacketBits(data)[q + 1]
  {
    hide FramesPrefix;
  }

  // ------------------------------------------------------------------ where a header can be

  /** The stream is a run of symbol pairs, none of which is 00. */
  lemma {:induction false} NoZeroPair(ps: seq<Wire>, q: nat)
    requires AllEncodable(ps) && q % 2 == 0
    ensures |Stream(ps)| % 2 == 0
    ensures q < |Stream(ps)| ==> Stream(ps)[q] || Stream(ps)[q + 1]
  {
    hide PacketBits;
    if ps != [] {
      var n := |PacketBits(ps[0])|;
      if q < n {
        var _ := EvenPair(ps[0], q);
      } else {
        NoZeroPair(ps[1..], q - n);
      }
      NoZeroPair(ps[1..], 0);
    }
  }

  lemma InvHeaderNever(ps: seq<Wire>, p: nat)
    requires AllEncodable(ps)
    ensures !InvHeaderAt(Stream(ps), p)
  {
    hide Stream;
    var s := Stream(ps);
    if p + HEADER_LEN <= |s| && s[p..p + HEADER_LEN] == Invert(START_HEADER) {
      assert !s[p..p + HEADER_LEN][4] && !s[p..p + HEADER_LEN][5] && !s[p..p + HEADER_LEN][6];
      NoZeroPair(ps, if p % 2 == 0 then p + 4 else p + 5);
      assert false;
    }
  }

  /** The header's three ones are a marker and a neighbour; five 01 pairs follow it, which only index 31 has. */
  lemma HeaderNeedsIndex31(data: Wire, rest: Bits, p: nat)
    requires Encodable(data)
    requires HeaderAt(PacketBits(data) + rest, p) && p % 2 == 1 && p + MARKER_OFFSET < |PacketBits(data)|
    ensures p == 15
  {
    hide PacketBits, FramesPrefix, IndexBits, ByteBits, Encode;
    var s := PacketBits(data) + rest;
    var q := p + MARKER_OFFSET;
    HeaderSymbols(s, p);
    var f := EvenPair(data, q);
    FrameInPacket(data, f);
    var index := ExpectedIndex(Extended(data), f);
    var logical := IndexBits(index) + ByteBits(data[f]);
    assert PacketBits(data)[q..q + FRAME_BITS] == FrameBits(index, data[f]);
    forall k | 0 <= k < 5 ensures IndexBits(index)[k] {
      EncodePair(logical, k);
      assert FrameBits(index, data[f])[2 + 2 * k] == !logical[k];
      assert s[q + 2 + 2 * k] == PacketBits(data)[q..q + FRAME_BITS][2 + 2 * k];
    }
    IndexRoundTrip(index);
  }

  lemma HeaderSymbols(s: Bits, p: nat)
    requires HeaderAt(s, p)
    ensures p + HEADER_LEN <= |s|
    ensures !s[p + 2] && !s[p + 3] && s[p + 5] && s[p + 6]
    ensures forall k :: 0 <= k < 5 ==> !s[p + 7 + 2 * k]
  {
    forall i | 0 <= i < HEADER_LEN ensures s[p + i] == START_HEADER[i] {
      assert s[p..p + HEADER_LEN][i] == s[p + i];
    }
    assert s[p + 7] == START_HEADER[7];
  }

  /** From an even place on a header would have an illegal pair in it. */
  lemma HeaderIsOdd(ps: seq<Wire>, p: nat)
    requires AllEncodable(ps) && HeaderAt(Stream(ps), p)
    ensures p % 2 == 1
  {
    hide PacketBits, HeaderAt, START_HEADER, Stream;
    HeaderSymbols(Stream(ps), p);
    if p % 2 == 0 {
      NoZeroPair(ps, p + 2);
      assert false;
    }
  }

  /** The start header occurs once per packet, 15 symbols in, and nowhere else. */
  lemma HeaderPlace(ps: seq<Wire>, p: nat)
    requires AllEncodable(ps) && HeaderAt(Stream(ps), p)
    ensures ps != []
    ensures p == 15 || (p >= |PacketBits(ps[0])| && HeaderAt(Stream(ps[1..]), p - |PacketBits(ps[0])|))
  {
    hide PacketBits, HeaderAt, START_HEADER;
    HeaderIsOdd(ps, p);
    HeaderSymbols(Stream(ps), p);
    assert ps != [] && Stream(ps) == PacketBits(ps[0]) + Stream(ps[1..]);
    hide Stream;
    HeaderInFront(ps[0], ps[1..], p);
  }

  lemma HeaderInFront(data: Wire, ps: seq<Wire>, p: nat)
    requires Encodable(data) && AllEncodable(ps) && HeaderAt(PacketBits(data) + Stream(ps), p) && p % 2 == 1
    ensures p == 15 || (p >= |PacketBits(data)| && HeaderAt(Stream(ps), p - |PacketBits(data)|))
  {
    hide PacketBits, HeaderAt, START_HEADER, Stream;
    HeaderSymbols(PacketBits(data) + Stream(ps), p);
    var n := |PacketBits(data)|;
    if p + MARKER_OFFSET < n {
      HeaderNeedsIndex31(data, Stream(ps), p);
    } else {
      EvenPairInStream(ps, p + MARKER_OFFSET - n);
      HeaderShift(PacketBits(data), Stream(ps), p - n);
    }
  }

  lemma HeaderShift(e: Bits, rest: Bits, p: nat)
    requires HeaderAt(e + rest, |e| + p)
    ensures HeaderAt(rest, p)
  {
    assert rest[p..p + HEADER_LEN] == (e + rest)[|e| + p..|e| + p + HEADER_LEN];
  }

  lemma EvenPairInStream(ps: seq<Wire>, q: nat)
    requires AllEncodable(ps) && q % 2 == 0 && q < |Stream(ps)| && q + 1 < |Stream(ps)|
    requires Stream(ps)[q] && Stream(ps)[q + 1]
    ensures q >= PREAMBLE_SYMBOLS
  {
    hide PacketBits;
    if q < |PacketBits(ps[0])| {
      var _ := EvenPair(ps[0], q);
    }
  }

  lemma HeaderOfPacket(data: Wire, rest: Bits)
    requires Encodable(data)
    ensures HeaderAt(PacketBits(data) + rest, 15)
  {
    hide FramesPrefix, IndexBits, ByteBits, Encode;
    FrameInPacket(data, 0);
    var s := PacketBits(data) + rest;
    var logical := IndexBits(31) + ByteBits(data[0]);
    var frame := FrameBits(31, data[0]);
    assert s[20..48] == frame;
    forall k | 0 <= k < 5 ensures !frame[2 + 2 * k] && frame[3 + 2 * k] {
      EncodePair(logical, k);
      IndexAllOnes();
    }
    forall i | 0 <= i < HEADER_LEN ensures s[15 + i] == START_HEADER[i] {
      if i >= 5 {
        assert s[15 + i] == s[20..48][i - 5];
        if i >= 7 {
          var k := (i - 7) / 2;
          assert frame[2 + 2 * k] == false;
        }
      } else {
        assert s[15 + i] == Idle(PREAMBLE_SYMBOLS)[15 + i];
      }
    }
    assert s[15..31] == START_HEADER;
  }

  lemma IndexAllOnes()
    ensures IndexBits(31) == [true, true, true, true, true]
  {
  }

  // ------------------------------------------------------------------ the header search

  ghost function Shift(offsets: seq<nat>, n: nat): (r: seq<nat>)
    ensures |r| == |offsets|
  {
    seq(|offsets|, k requires 0 <= k < |offsets| => offsets[k] + n)
  }

  lemma PatternShift(e: Bits, rest: Bits, pattern: Bits, p: nat)
    ensures PatternAt(e + rest, pattern, |e| + p) == PatternAt(rest, pattern, p)
  {
    if p + |pattern| <= |rest| {
      assert (e + rest)[|e| + p..|e| + p + |pattern|] == rest[p..p + |pattern|];
    }
  }

  lemma FindShift(e: Bits, rest: Bits, pattern: Bits, from: nat)
    ensures Find(e + rest, pattern, |e| + from)
         == if Find(rest, pattern, from).None? then None else Some(|e| + Find(rest, pattern, from).value)
  {
    hide PatternAt;
    var a, b := Find(e + rest, pattern, |e| + from), Find(rest, pattern, from);
    if a.Some? {
      PatternShift(e, rest, pattern, a.value - |e|);
    }
    if b.Some? {
      PatternShift(e, rest, pattern, b.value);
    }
  }

  lemma {:induction false} OffsetsShift(e: Bits, rest: Bits, from: nat)
    ensures Offsets(e + rest, |e| + from) == Shift(Offsets(rest, from), |e|)
    decreases |rest| - from
  {
    hide Find, PatternAt, START_HEADER;
    FindShift(e, rest, START_HEADER, from);
    var b := Find(rest, START_HEADER, from);
    if b.Some? {
      OffsetsShift(e, rest, b.value + HEADER_LEN);
      assert Shift(Offsets(rest, from), |e|) == [|e| + b.value] + Shift(Offsets(rest, b.value + HEADER_LEN), |e|);
    }
  }

  /** Nothing between two search starts: same result. */
  lemma OffsetsSkip(bits: Bits, from: nat, to: nat)
    requires from <= to
    requires forall p :: from <= p < to ==> !HeaderAt(bits, p)
    ensures Offsets(bits, from) == Offsets(bits, to)
  {
    hide PatternAt;
    var a, b := Find(bits, START_HEADER, from), Find(bits, START_HEADER, to);
    if a.Some? {
      assert HeaderAt(bits, a.value);
    }
    if b.Some? {
      assert HeaderAt(bits, b.value);
    }
    assert a == b;
  }

  lemma OffsetsOfStream(ps: seq<Wire>)
    requires AllEncodable(ps)
    ensures Offsets(Stream(ps), 0)
         == if ps == [] then [] else [15] + Shift(Offsets(Stream(ps[1..]), 0), |PacketBits(ps[0])|)
  {
    hide PacketBits, HeaderAt;
    var s := Stream(ps);
    if ps == [] {
      NoOffsets(s);
    } else {
      var e, rest := PacketBits(ps[0]), Stream(ps[1..]);
      forall p: nat | p < |e| && HeaderAt(s, p) ensures p == 15 {
        HeaderPlace(ps, p);
      }
      HeaderOfPacket(ps[0], rest);
      FirstOffset(e, rest);
    }
  }

  lemma FirstOffset(e: Bits, rest: Bits)
    requires |e| >= 31
    requires forall p: nat | p < |e| && HeaderAt(e + rest, p) :: p == 15
    requires HeaderAt(e + rest, 15)
    ensures Offsets(e + rest, 0) == [15] + Shift(Offsets(rest, 0), |e|)
  {
    hide HeaderAt, PatternAt, Find;
    OffsetsSkip(e + rest, 0, 15);
    OffsetsSkip(e + rest, 31, |e|);
    OffsetsShift(e, rest, 0);
    FindHere(e + rest, 15);
  }

  lemma FindHere(bits: Bits, p: nat)
    requires HeaderAt(bits, p)
    ensures Find(bits, START_HEADER, p) == Some(p)
  {
    hide START_HEADER;
  }

  lemma NoOffsets(s: Bits)
    requires s == []
    ensures Offsets(s, 0) == [] && Normalised(s) == s
  {
  }

  // ------------------------------------------------------------------ decoding at a header

  ghost function ExpectedFrames(data: Wire, f: nat): (r: seq<Frame>)
    requires Encodable(data) && f <= |data|
    ensures |r| == |data| - f
    ensures forall k :: 0 <= k < |r| ==> r[k] == Frame(ExpectedIndex(Extended(data), f + k), data[f + k])
    decreases |data| - f
  {
    if f == |data| then []
    else [Frame(ExpectedIndex(Extended(data), f), data[f])] + ExpectedFrames(data, f + 1)
  }

  lemma {:induction false} FramesOfPacket(data: Wire, rest: Bits, f: nat)
    requires Encodable(data) && f <= |data|
    requires f < FullLength(data)
    ensures Frames(PacketBits(data) + rest, PREAMBLE_SYMBOLS + FRAME_BITS * f) == ExpectedFrames(data, f)
    decreases |data| - f
  {
    hide PacketBits, FrameBits, ReadFrame, Legal;
    var s := PacketBits(data) + rest;
    var at := PREAMBLE_SYMBOLS + FRAME_BITS * f;
    if f == |data| {
      AfterLastFrame(data);
      assert !s[at + 1];
    } else {
      FrameInPacket(data, f);
      assert s[at..at + FRAME_BITS] == PacketBits(data)[at..at + FRAME_BITS];
      FrameReads(s, at, ExpectedIndex(Extended(data), f), data[f]);
      if f + 1 < FullLength(data) {
        FramesOfPacket(data, rest, f + 1);
      }
    }
  }

  lemma AfterLastFrame(data: Wire)
    requires Encodable(data)
    ensures !PacketBits(data)[PREAMBLE_SYMBOLS + FRAME_BITS * |data| + 1]
  {
  }

  lemma {:induction false} FramesShift(e: Bits, rest: Bits, i: nat)
    ensures Frames(e + rest, |e| + i) == Frames(rest, i)
    decreases |rest| - i
  {
    hide FrameAt, ReadFrame;
    if i + FRAME_BITS <= |rest| {
      FrameShifts(e, rest, i);
      if FrameAt(rest, i) && ReadFrame(rest, i).index != 0 {
        FramesShift(e, rest, i + FRAME_BITS);
      }
    } else {
      NoFrame(rest, i);
      NoFrame(e + rest, |e| + i);
    }
  }

  lemma FrameShifts(e: Bits, rest: Bits, i: nat)
    requires i + FRAME_BITS <= |rest|
    ensures FrameAt(e + rest, |e| + i) == FrameAt(rest, i)
    ensures FrameAt(rest, i) ==> ReadFrame(e + rest, |e| + i) == ReadFrame(rest, i)
  {
    hide Legal, IndexValue, ByteValue, Decode;
    assert (e + rest)[|e| + i + 2..|e| + i + FRAME_BITS] == rest[i + 2..i + FRAME_BITS];
  }

  lemma NoFrame(s: Bits, i: nat)
    requires i + FRAME_BITS > |s|
    ensures !FrameAt(s, i)
  {
  }

  lemma {:induction false} PacketsShift(e: Bits, rest: Bits, offsets: seq<nat>, timestamp: Option<real>, minBytes: nat)
    requires minBytes >= 1
    ensures PacketsAt(e + rest, Shift(offsets, |e|), timestamp, minBytes) == PacketsAt(rest, offsets, timestamp, minBytes)
  {
    hide Frames, IndexesOk;
    if offsets != [] {
      var pos := offsets[0];
      FramesShift(e, rest, pos + MARKER_OFFSET);
      var n := |Frames(rest, pos + MARKER_OFFSET)|;
      if n >= minBytes {
        FramesEnd(rest, pos + MARKER_OFFSET);
        var end := pos + MARKER_OFFSET + FRAME_BITS * n;
        assert (e + rest)[|e| + pos..|e| + end] == rest[pos..end];
      }
      assert Shift(offsets, |e|)[1..] == Shift(offsets[1..], |e|);
      PacketsShift(e, rest, offsets[1..], timestamp, minBytes);
    }
  }

  lemma ExpectedIndexesOk(data: Wire)
    requires Encodable(data)
    ensures IndexesOk(ExpectedFrames(data, 0))
  {
    hide ExpectedFrames;
    assert FrameBytes(ExpectedFrames(data, 0)) == data;
  }

  lemma FirstPacket(data: Wire, rest: Bits, timestamp: Option<real>)
    requires Encodable(data)
    ensures Frames(PacketBits(data) + rest, 20) == ExpectedFrames(data, 0)
    ensures PacketAt(PacketBits(data) + rest, 15, timestamp) == Expected(data, timestamp)
  {
    hide PacketBits, Frames, IndexesOk, ExpectedFrames;
    FramesOfPacket(data, rest, 0);
    var frames := ExpectedFrames(data, 0);
    assert FrameBytes(frames) == data;
    assert IndexesOk(frames) by { ExpectedIndexesOk(data); }
    var end := PREAMBLE_SYMBOLS + FRAME_BITS * |data|;
    assert (PacketBits(data) + rest)[15..end] == PacketBits(data)[15..end];
  }

  // ------------------------------------------------------------------ the round trip

  lemma {:induction false} ParseStream(ps: seq<Wire>, timestamp: Option<real>, minBytes: nat)
    requires AllEncodable(ps) && minBytes >= 1
    ensures PacketsAt(Stream(ps), Offsets(Stream(ps), 0), timestamp, minBytes) == ExpectedAll(ps, timestamp, minBytes)
  {
    hide PacketBits, Frames, Offsets, PacketAt;
    OffsetsOfStream(ps);
    if ps != [] {
      var e, rest := PacketBits(ps[0]), Stream(ps[1..]);
      var tail := Shift(Offsets(rest, 0), |e|);
      ParseStream(ps[1..], timestamp, minBytes);
      PacketsShift(e, rest, Offsets(rest, 0), timestamp, minBytes);
      FirstPacket(ps[0], rest, timestamp);
      assert ([15] + tail)[1..] == tail;
    }
  }

  lemma PatternInverted(s: Bits, pattern: Bits, p: nat)
    ensures PatternAt(Invert(s), pattern, p) <==> PatternAt(s, Invert(pattern), p)
  {
    if p + |pattern| <= |s| {
      var there := s[p..p + |pattern|];
      assert Invert(s)[p..p + |pattern|] == Invert(there);
      InvertTwice(there);
      InvertTwice(pattern);
    }
  }

  lemma NormalisedStream(ps: seq<Wire>, inverted: bool)
    requires AllEncodable(ps)
    ensures Normalised(if inverted then Invert(Stream(ps)) else Stream(ps)) == Stream(ps)
  {
    hide PacketBits, Find, PatternAt, START_HEADER, Invert;
    var s := Stream(ps);
    if inverted {
      var t := Invert(s);
      InvertTwice(s);
      InvertTwice(START_HEADER);
      forall p: nat ensures !PatternAt(t, START_HEADER, p) {
        InvHeaderNever(ps, p);
        PatternInverted(s, START_HEADER, p);
      }
      if ps == [] {
        assert t == s;
        NoOffsets(s);
      } else {
        HeaderOfPacket(ps[0], Stream(ps[1..]));
        PatternInverted(s, Invert(START_HEADER), 15);
        assert PatternAt(t, Invert(START_HEADER), 15);
      }
    } else {
      forall p: nat ensures !PatternAt(s, Invert(START_HEADER), p) {
        InvHeaderNever(ps, p);
      }
    }
  }

  /**
   * parse_bits inverts to_bits: the concatenation of any encoded packets, all in one polarity, parses to exactly
   * those packets in order, with right counters, and `complete` exactly when every frame is there.
   */
  lemma ParseInvertsEncode(ps: seq<Wire>, inverted: bool, timestamp: Option<real>, minBytes: nat)
    requires AllEncodable(ps) && minBytes >= 1
    ensures Parse(if inverted then Invert(Stream(ps)) else Stream(ps), timestamp, minBytes)
         == ExpectedAll(ps, timestamp, minBytes)
  {
    NormalisedStream(ps, inverted);
    ParseStream(ps, timestamp, minBytes);
  }

  // ------------------------------------------------------------------ headers of a stream

  /** In an encoded stream a header is never followed at once by another, in either polarity. */
  lemma NoHeaderAfter(ps: seq<Wire>, p: nat)
    requires AllEncodable(ps) && HeaderAt(Stream(ps), p)
    ensures p + 2 * HEADER_LEN <= |Stream(ps)| && !HeaderAt(Stream(ps), p + HEADER_LEN)
  {
    hide PacketBits, HeaderAt, Stream;
    HeaderInside(ps, p);
    if HeaderAt(Stream(ps), p + HEADER_LEN) {
      HeaderSymbols(Stream(ps), p);
      HeaderSymbols(Stream(ps), p + HEADER_LEN);
      HeadersApart(ps, p, p + HEADER_LEN);
    }
  }

  lemma PacketLength(data: Wire)
    requires Encodable(data)
    ensures |PacketBits(data)| >= 100 && |PacketBits(data)| % 8 == 0
  {
    hide Idle, FramesPrefix;
  }

  lemma StreamLength(ps: seq<Wire>)
    requires AllEncodable(ps) && ps != []
    ensures |Stream(ps)| == |PacketBits(ps[0])| + |Stream(ps[1..])| && |PacketBits(ps[0])| >= 100
  {
    PacketLength(ps[0]);
    hide PacketBits;
  }

  lemma {:induction false} StreamWhole(ps: seq<Wire>)
    requires AllEncodable(ps)
    ensures |Stream(ps)| % 8 == 0
  {
    hide PacketBits;
    if ps != [] {
      PacketLength(ps[0]);
      StreamWhole(ps[1..]);
      EightsAdd(|PacketBits(ps[0])|, |Stream(ps[1..])|);
    }
  }

  lemma EightsAdd(a: nat, b: nat)
    requires a % 8 == 0 && b % 8 == 0
    ensures (a + b) % 8 == 0
  {
  }

  lemma {:induction false} HeaderInside(ps: seq<Wire>, p: nat)
    requires AllEncodable(ps) && HeaderAt(Stream(ps), p)
    ensures ps != [] && p >= 15 && p + 85 <= |Stream(ps)|
  {
    HeaderPlace(ps, p);
    StreamLength(ps);
    if p != 15 {
      HeaderInside(ps[1..], p - |PacketBits(ps[0])|);
    }
    hide PacketBits, HeaderAt, Stream;
  }

  /** Two headers are at least a packet apart. */
  lemma {:induction false} HeadersApart(ps: seq<Wire>, p: nat, q: nat)
    requires AllEncodable(ps) && p < q && HeaderAt(Stream(ps), p) && HeaderAt(Stream(ps), q)
    ensures q >= p + 100
  {
    hide PacketBits, HeaderAt, Stream;
    HeaderPlace(ps, p);
    HeaderPlace(ps, q);
    StreamLength(ps);
    var n := |PacketBits(ps[0])|;
    if p == 15 {
      HeaderInside(ps[1..], q - n);
    } else {
      HeadersApart(ps[1..], p - n, q - n);
    }
  }

  // ------------------------------------------------------------------ from a header on, and up to a tail

  /** No header reaches into fewer than eight equal symbols after an encoded stream. */
  lemma NoHeaderInTail(ps: seq<Wire>, tail: Bits, p: nat)
    requires AllEncodable(ps) && |tail| < 8 && (forall i :: 0 <= i < |tail| ==> tail[i] == tail[0])
    requires HeaderAt(Stream(ps) + tail, p)
    ensures HeaderAt(Stream(ps), p)
  {
    hide Stream, PacketBits;
    var s, n := Stream(ps), |Stream(ps)|;
    LastSymbols(s + tail, p);
    if p + HEADER_LEN > n {
      assert !(s + tail)[p + 15] && (s + tail)[p + 14];
      assert p + 15 == n;
      HeaderSymbols(s + tail, p);
      assert (s + tail)[p + 5] == s[p + 5] && (s + tail)[p + 6] == s[p + 6];
      StreamWhole(ps);
      OddPlace(n, p);
      MarkerLeavesRoom(ps, p + 5);
      assert false;
    }
    assert (s + tail)[p..p + HEADER_LEN] == s[p..p + HEADER_LEN];
  }

  lemma OddPlace(n: nat, p: nat)
    requires n % 8 == 0 && p + 15 == n
    ensures (p + 5) % 2 == 0
  {
    var k := n / 8;
    assert n == 8 * k;
  }

  lemma LastSymbols(s: Bits, p: nat)
    requires HeaderAt(s, p)
    ensures p + HEADER_LEN <= |s| && s[p + 14] && !s[p + 15]
  {
    assert s[p..p + HEADER_LEN][14] == s[p + 14] && s[p..p + HEADER_LEN][15] == s[p + 15];
  }

  /** A pair of ones in step with the pairs is a marker, and a whole frame and the trailer follow it. */
  lemma {:induction false} MarkerLeavesRoom(ps: seq<Wire>, q: nat)
    requires AllEncodable(ps) && q % 2 == 0 && q + 1 < |Stream(ps)| && Stream(ps)[q] && Stream(ps)[q + 1]
    ensures q + 100 <= |Stream(ps)|
  {
    hide PacketBits;
    var e, rest := PacketBits(ps[0]), Stream(ps[1..]);
    PacketLength(ps[0]);
    EvenLength(|e|, q);
    if q < |e| {
      assert (e + rest)[q] == e[q] && (e + rest)[q + 1] == e[q + 1];
      var f := EvenPair(ps[0], q);
      FrameRoom(ps[0], f);
    } else {
      assert (e + rest)[q] == rest[q - |e|] && (e + rest)[q + 1] == rest[q + 1 - |e|];
      MarkerLeavesRoom(ps[1..], q - |e|);
    }
  }

  lemma EvenLength(n: nat, q: nat)
    requires n % 8 == 0 && q % 2 == 0
    ensures q < n ==> q + 1 < n
    ensures q >= n ==> (q - n) % 2 == 0
  {
    var k := n / 8;
    assert n == 8 * k;
  }

  lemma FrameRoom(data: Wire, f: nat)
    requires Encodable(data) && f < |data|
    ensures PREAMBLE_SYMBOLS + FRAME_BITS * f + 100 <= |PacketBits(data)|
  {
    hide Idle, FramesPrefix;
  }

  lemma HeaderBeforeTail(s: Bits, tail: Bits, p: nat)
    ensures HeaderAt(s, p) ==> HeaderAt(s + tail, p)
  {
    if p + HEADER_LEN <= |s| {
      assert (s + tail)[p..p + HEADER_LEN] == s[p..p + HEADER_LEN];
    }
  }

  lemma {:induction false} OffsetsTail(s: Bits, tail: Bits, from: nat)
    requires forall p: nat :: HeaderAt(s + tail, p) ==> HeaderAt(s, p)
    requires from <= |s|
    ensures Offsets(s + tail, from) == Offsets(s, from)
    decreases |s| - from
  {
    HeaderLength();
    hide START_HEADER, PatternAt;
    forall p: nat ensures HeaderAt(s + tail, p) == HeaderAt(s, p) {
      HeaderBeforeTail(s, tail, p);
    }
    var a, b := Find(s + tail, START_HEADER, from), Find(s, START_HEADER, from);
    assert a.Some? ==> HeaderAt(s, a.value);
    assert b.Some? ==> HeaderAt(s + tail, b.value);
    assert a == b;
    if b.Some? {
      OffsetsTail(s, tail, b.value + HEADER_LEN);
    }
  }

  /** A tail after the last packet changes nothing the packets before it say. */
  lemma {:induction false} PacketsBeforeTail(ps: seq<Wire>, tail: Bits, timestamp: Option<real>, minBytes: nat)
    requires AllEncodable(ps) && minBytes >= 1
    ensures PacketsAt(Stream(ps) + tail, Offsets(Stream(ps), 0), timestamp, minBytes) == ExpectedAll(ps, timestamp, minBytes)
  {
    hide PacketBits, Offsets, PacketsAt, Expected, Frames, PacketAt, Stream, ExpectedAll;
    OffsetsOfStream(ps);
    StreamUnfolds(ps, timestamp, minBytes);
    if ps == [] {
      NoPackets(Stream(ps) + tail, timestamp, minBytes);
    } else {
      var e, rest := PacketBits(ps[0]), Stream(ps[1..]);
      var later := Shift(Offsets(rest, 0), |e|);
      var offsets := [15] + later;
      PacketsBeforeTail(ps[1..], tail, timestamp, minBytes);
      assert e + rest + tail == e + (rest + tail);
      PacketsShift(e, rest + tail, Offsets(rest, 0), timestamp, minBytes);
      FirstPacket(ps[0], rest + tail, timestamp);
      assert offsets[0..] == offsets && offsets[1..] == later;
      PacketsStep(e + (rest + tail), offsets, 0, timestamp, minBytes);
    }
  }

  lemma StreamUnfolds(ps: seq<Wire>, timestamp: Option<real>, minBytes: nat)
    requires AllEncodable(ps)
    ensures ps == [] ==> ExpectedAll(ps, timestamp, minBytes) == []
    ensures ps != [] ==>
              Stream(ps) == PacketBits(ps[0]) + Stream(ps[1..]) &&
              ExpectedAll(ps, timestamp, minBytes)
              == (if |ps[0]| < minBytes then [] else [Expected(ps[0], timestamp)]) + ExpectedAll(ps[1..], timestamp, minBytes)
  {
    hide PacketBits, Expected;
  }

  lemma NoPackets(bits: Bits, timestamp: Option<real>, minBytes: nat)
    requires minBytes >= 1
    ensures PacketsAt(bits, [], timestamp, minBytes) == []
  {
  }

  /** Parsing from the first header on, with such a tail, finds every packet. */
  lemma ParseFromHeader(ps: seq<Wire>, tail: Bits, timestamp: Option<real>, minBytes: nat)
    requires AllEncodable(ps) && ps != [] && minBytes >= 1
    requires |tail| < 8 && forall i :: 0 <= i < |tail| ==> tail[i] == tail[0]
    ensures |Stream(ps)| >= 31
    ensures var heard := Stream(ps)[15..] + tail;
            HeaderAt(heard, 0) && PacketsAt(heard, Offsets(heard, 0), timestamp, minBytes) == ExpectedAll(ps, timestamp, minBytes)
  {
    hide PacketBits, Offsets, PacketsAt, Stream, Find;
    var s := Stream(ps);
    StreamLength(ps);
    StreamStarts(ps);
    var front, heard := s[..15], s[15..] + tail;
    assert s + tail == front + heard;
    forall p: nat | HeaderAt(s + tail, p) ensures HeaderAt(s, p) && p >= 15 {
      NoHeaderInTail(ps, tail, p);
      HeaderInside(ps, p);
    }
    OffsetsTail(s, tail, 0);
    OffsetsSkip(s + tail, 0, 15);
    OffsetsShift(front, heard, 0);
    PacketsShift(front, heard, Offsets(heard, 0), timestamp, minBytes);
    PacketsBeforeTail(ps, tail, timestamp, minBytes);
    assert (s + tail)[15..31] == s[15..31];
    PatternShift(front, heard, START_HEADER, 0);
  }

  lemma StreamStarts(ps: seq<Wire>)
    requires AllEncodable(ps) && ps != []
    ensures HeaderAt(Stream(ps), 15)
  {
    HeaderOfPacket(ps[0], Stream(ps[1..]));
    hide PacketBits, HeaderAt;
  }

  /** A stream that begins with a header is in the polarity of that header. */
  lemma NormalisedFromHeader(heard: Bits)
    requires HeaderAt(heard, 0)
    ensures Normalised(heard) == heard && Normalised(Invert(heard)) == heard
  {
    PatternInverted(heard, Invert(START_HEADER), 0);
    InvertTwice(START_HEADER);
    InvertTwice(heard);
    OnePolarity(heard);
    hide START_HEADER, Invert, PatternAt;
  }

  lemma OnePolarity(heard: Bits)
    requires HeaderAt(heard, 0)
    ensures !InvHeaderAt(heard, 0) && !HeaderAt(Invert(heard), 0)
  {
    FirstSymbol(heard);
    FirstSymbol(Invert(heard));
    hide START_HEADER, PatternAt;
  }

  lemma FirstSymbol(bits: Bits)
    ensures HeaderAt(bits, 0) ==> bits != [] && bits[0]
    ensures InvHeaderAt(bits, 0) ==> bits != [] && !bits[0]
  {
    if |bits| >= HEADER_LEN {
      assert bits[0..HEADER_LEN][0] == bits[0];
    }
  }

  lemma {:induction false} StreamSplits(ps: seq<Wire>, k: nat)
    requires AllEncodable(ps) && k <= |ps|
    ensures Stream(ps) == Stream(ps[..k]) + Stream(ps[k..])
  {
    hide PacketBits;
    if k == 0 {
      assert ps[0..] == ps;
    } else {
      StreamSplits(ps[1..], k - 1);
      assert ps[1..][..k - 1] == ps[..k][1..] && ps[1..][k - 1..] == ps[k..];
      assert PacketBits(ps[0]) + (Stream(ps[1..k]) + Stream(ps[k..])) == PacketBits(ps[0]) + Stream(ps[1..k]) + Stream(ps[k..]);
    }
  }

  /** Where the k-th packet's header is: 15 symbols into the packet. */
  lemma {:induction false} KthHeader(ps: seq<Wire>, k: nat)
    requires AllEncodable(ps) && k < |ps|
    ensures k < |Offsets(Stream(ps), 0)| && Offsets(Stream(ps), 0)[k] == |Stream(ps[..k])| + 15
    ensures HeaderAt(Stream(ps), |Stream(ps[..k])| + 15)
  {
    hide PacketBits, Offsets, PatternAt, START_HEADER;
    OffsetsOfStream(ps);
    if k == 0 {
      StreamStarts(ps);
    } else {
      KthHeader(ps[1..], k - 1);
      assert ps[1..][..k - 1] == ps[..k][1..];
      PatternShift(PacketBits(ps[0]), Stream(ps[1..]), START_HEADER, |Stream(ps[1..][..k - 1])| + 15);
    }
  }

  lemma NothingBefore(ps: seq<Wire>)
    requires AllEncodable(ps)
    ensures |Stream(ps[..0])| == 0
  {
  }
}
