/** Packet encoding, header search and the burst parser (the second half of the packet codec). */
module Framing {
  import opened Common
  import opened Manchester
  import opened Packets

  // ------------------------------------------------------------------ encoding

  /** Logical 0101..., as the preamble and the trailer send it. */
  function Alternating(n: nat): (r: Bits)
    ensures |r| == n
  {
    seq(n, i => i % 2 == 1)
  }

  /** Its Manchester form: 1001 1001 ... */
  function Idle(n: nat): (r: Bits)
    ensures |r| == n
  {
    seq(n, j => j % 4 == 0 || j % 4 == 3)
  }

  lemma IdleExtends(n: nat, more: nat)
    requires n % 4 == 0 && more <= n
    ensures Idle(n) + Idle(n)[..more] == Idle(n + more)
  {
  }

  const PREAMBLE_SYMBOLS: nat := 20
  const TRAILER_SYMBOLS: nat := 96

  lemma AlternatingIsIdle(n: nat)
    ensures Encode(Alternating(n)) == Idle(2 * n)
  {
  }

  /** The frame counter never goes negative: the only packets `to_bits` can render. */
  predicate Encodable(data: Wire) { |data| <= FullLength(data) }

  /** The first n frames of a packet. */
  function FramesPrefix(data: Wire, n: nat): (r: Bits)
    requires Encodable(data) && n <= |data|
    ensures |r| == FRAME_BITS * n
  {
    if n == 0 then [] else FramesPrefix(data, n - 1) + FrameBits(ExpectedIndex(Extended(data), n - 1), data[n - 1])
  }

  /** Symbols appended after the trailer to reach a whole number of bytes. */
  function PadSymbols(frames: nat): nat { if frames % 2 == 0 then 4 else 0 }

  lemma WholeBytes(n: nat)
    ensures (PREAMBLE_SYMBOLS + FRAME_BITS * n + TRAILER_SYMBOLS + PadSymbols(n)) % 8 == 0
  {
    var half := n / 2;
    if n == 2 * half {
      EightTimes(15 + 7 * half);
    } else {
      assert n == 2 * half + 1;
      EightTimes(18 + 7 * half);
    }
  }

  lemma EightTimes(k: nat)
    ensures (8 * k) % 8 == 0
  {
  }

  /** to_bits in normal polarity. */
  function PacketBits(data: Wire): (r: Bits)
    requires Encodable(data)
    ensures |r| == PREAMBLE_SYMBOLS + FRAME_BITS * |data| + TRAILER_SYMBOLS + PadSymbols(|data|)
    ensures |r| % 8 == 0
  {
    WholeBytes(|data|);
    Idle(PREAMBLE_SYMBOLS) + FramesPrefix(data, |data|) + Idle(TRAILER_SYMBOLS + PadSymbols(|data|))
  }

  lemma PacketBitsAssembled(data: Wire)
    requires Encodable(data)
    ensures var body := Encode(Alternating(10)) + FramesPrefix(data, |data|) + Encode(Alternating(48));
            PacketBits(data) == if |body| % 8 != 0 then body + Encode(Alternating(48))[..8 - |body| % 8] else body
  {
    AlternatingIsIdle(10);
    AlternatingIsIdle(48);
    IdleExtends(TRAILER_SYMBOLS, 4);
    hide Encode, Alternating, Idle, FramesPrefix;
    var n := |data|;
    var front := Idle(PREAMBLE_SYMBOLS) + FramesPrefix(data, n);
    PadNeeded(n);
    assert PacketBits(data) == front + Idle(TRAILER_SYMBOLS + PadSymbols(n));
    if n % 2 == 0 {
      assert front + Idle(TRAILER_SYMBOLS) + Idle(TRAILER_SYMBOLS)[..4] == front + (Idle(TRAILER_SYMBOLS) + Idle(TRAILER_SYMBOLS)[..4]);
    }
  }

  lemma PadNeeded(frames: nat)
    ensures var length := PREAMBLE_SYMBOLS + FRAME_BITS * frames + TRAILER_SYMBOLS;
            (length % 8 != 0 <==> frames % 2 == 0) && (frames % 2 == 0 ==> length % 8 == 4)
  {
  }

  method ToBits(data: Wire, invert: bool) returns (r: Option<Bits>)
    ensures r.Some? <==> Encodable(data)
    ensures r.Some? ==> r.value == if invert then Invert(PacketBits(data)) else PacketBits(data)
  {
    hide Encode, Alternating, IndexBits, ByteBits, Invert, PacketBits;
    var out := Encode(Alternating(10));
    var idx := 31;
    for i := 0 to |data|
      invariant i <= FullLength(data)
      invariant i != 1 ==> idx == ExpectedIndex(Extended(data), i)
      invariant Encodable(data) ==> out == Encode(Alternating(10)) + FramesPrefix(data, i)
    {
      if i == 1 {
        idx := if Extended(data) then 30 else 11;
      }
      if idx < 0 {
        return None;  // the sign of a negative counter is not a bit: ValueError
      }
      out := out + [true, true];
      out := out + Encode(IndexBits(idx) + ByteBits(data[i]));
      idx := idx - 1;
    }
    PacketBitsAssembled(data);
    out := out + Encode(Alternating(48));
    if |out| % 8 != 0 {
      out := out + Encode(Alternating(48))[..8 - |out| % 8];
    }
    r := Some(if invert then Invert(out) else out);
  }

  // ------------------------------------------------------------------ decoding

  datatype Frame = Frame(index: nat, data: byte)

  predicate FrameAt(bits: Bits, i: nat) {
    i + FRAME_BITS <= |bits| && bits[i] && bits[i + 1] && Legal(bits[i + 2..i + FRAME_BITS])
  }

  function ReadFrame(bits: Bits, i: nat): Frame
    requires FrameAt(bits, i)
  {
    var dm := Decode(bits[i + 2..i + FRAME_BITS]);
    Frame(IndexValue(dm[..5]), ByteValue(dm[5..13]))
  }

  /** The frames a decode starting at `i` yields: up to index 0 or the first broken frame. */
  function Frames(bits: Bits, i: nat): seq<Frame>
    decreases |bits| - i
  {
    if !FrameAt(bits, i) then []
    else if ReadFrame(bits, i).index == 0 then [ReadFrame(bits, i)]
    else [ReadFrame(bits, i)] + Frames(bits, i + FRAME_BITS)
  }

  function FrameBytes(frames: seq<Frame>): (r: seq<byte>)
    ensures |r| == |frames|
  {
    seq(|frames|, f requires 0 <= f < |frames| => frames[f].data)
  }

  predicate MarkerAt(bits: Bits, i: nat) { i + 2 <= |bits| && bits[i] && bits[i + 1] }

  /** Up to 26 symbols after the marker at `i`. */
  function SymbolsAt(bits: Bits, i: nat): Bits
    requires MarkerAt(bits, i)
  {
    bits[i + 2..Min(i + FRAME_BITS, |bits|)]
  }

  lemma FramesUnfold(bits: Bits, i: nat)
    ensures !MarkerAt(bits, i) ==> Frames(bits, i) == []
    ensures MarkerAt(bits, i) ==>
              var symbols := SymbolsAt(bits, i);
              if !Legal(symbols) || |Decode(symbols)| < 13 then Frames(bits, i) == []
              else
                var frame := Frame(IndexValue(Decode(symbols)[..5]), ByteValue(Decode(symbols)[5..13]));
                Frames(bits, i) == if frame.index == 0 then [frame] else [frame] + Frames(bits, i + FRAME_BITS)
  {
    hide IndexValue, ByteValue, Decode, Legal;
  }

  method DecodeFrames(bits: Bits, start: nat) returns (frames: seq<Frame>)
    ensures frames == Frames(bits, start)
  {
    hide IndexValue, ByteValue, Decode, Legal, Frames;
    frames := [];
    var i := start;
    while i + 2 <= |bits| && bits[i] && bits[i + 1]
      invariant Frames(bits, start) == frames + Frames(bits, i)
      decreases |bits| - i
    {
      FramesUnfold(bits, i);
      var dm := DecodePairs(bits[i + 2..Min(i + FRAME_BITS, |bits|)]);
      if dm.None? || |dm.value| < 13 {
        return;
      }
      var frame := Frame(IndexValue(dm.value[..5]), ByteValue(dm.value[5..13]));
      frames := frames + [frame];
      if frame.index == 0 {
        return;
      }
      i := i + FRAME_BITS;
    }
    FramesUnfold(bits, i);
  }

  /** indexes_ok: the counters are the ones the protocol mandates for this flags byte. */
  predicate IndexesOk(frames: seq<Frame>) {
    frames != [] && |frames| <= FullLength(FrameBytes(frames)) &&
    forall f | 0 <= f < |frames| :: frames[f].index == ExpectedIndex(HasExt(frames[0].data), f)
  }

  // ------------------------------------------------------------------ header search

  predicate PatternAt(bits: Bits, pattern: Bits, p: nat) {
    p + |pattern| <= |bits| && bits[p..p + |pattern|] == pattern
  }

  lemma HeaderLength()
    ensures |START_HEADER| == HEADER_LEN
  {
  }

  predicate HeaderAt(bits: Bits, p: nat) { PatternAt(bits, START_HEADER, p) }

  predicate InvHeaderAt(bits: Bits, p: nat) { PatternAt(bits, Invert(START_HEADER), p) }

  /** str.find: the first occurrence at or after `from`. */
  function Find(bits: Bits, pattern: Bits, from: nat): (r: Option<nat>)
    ensures r.Some? ==> from <= r.value && r.value + |pattern| <= |bits| && PatternAt(bits, pattern, r.value)
    ensures r.Some? ==> forall p :: from <= p < r.value ==> !PatternAt(bits, pattern, p)
    ensures r.None? ==> forall p :: from <= p ==> !PatternAt(bits, pattern, p)
    decreases |bits| - from
  {
    if from + |pattern| > |bits| then None
    else if PatternAt(bits, pattern, from) then Some(from)
    else if from == |bits| then None
    else Find(bits, pattern, from + 1)
  }

  /** Every start header from `from` on, without overlaps. */
  function Offsets(bits: Bits, from: nat): seq<nat>
    decreases |bits| - from
  {
    var p := Find(bits, START_HEADER, from);
    if p.None? then [] else [p.value] + Offsets(bits, p.value + HEADER_LEN)
  }

  /** The stream in the polarity whose start header occurs first. */
  function Normalised(bits: Bits): (r: Bits)
    ensures |r| == |bits|
  {
    var a := Find(bits, START_HEADER, 0);
    var b := Find(bits, Invert(START_HEADER), 0);
    if b.Some? && (a.None? || b.value < a.value) then Invert(bits) else bits
  }

  /** Every header of a stream already in the right polarity. */
  method CollectOffsets(bits: Bits) returns (offsets: seq<nat>)
    ensures offsets == Offsets(bits, 0)
  {
    hide START_HEADER, PatternAt, Find, Offsets, From;
    offsets := [];
    var pos := Find(bits, START_HEADER, 0);
    OffsetsFromFind(bits, 0);
    assert [] + From(bits, pos) == From(bits, pos);
    while pos.Some?
      invariant pos.Some? ==> pos.value <= |bits|
      invariant Offsets(bits, 0) == offsets + From(bits, pos)
      decreases if pos.Some? then |bits| + 1 - pos.value else 0
    {
      OneMoreOffset(bits, offsets, pos.value);
      offsets := offsets + [pos.value];
      pos := Find(bits, START_HEADER, pos.value + HEADER_LEN);
    }
    NoMoreOffsets(bits, offsets);
  }

  lemma OneMoreOffset(bits: Bits, offsets: seq<nat>, p: nat)
    requires p <= |bits|
    ensures offsets + From(bits, Some(p)) == (offsets + [p]) + From(bits, Find(bits, START_HEADER, p + HEADER_LEN))
  {
    hide START_HEADER, PatternAt, Find, Offsets;
    OffsetsFromFind(bits, p + HEADER_LEN);
    OneInFront(offsets, p, Offsets(bits, p + HEADER_LEN));
  }

  lemma OneInFront(front: seq<nat>, p: nat, rest: seq<nat>)
    ensures front + ([p] + rest) == (front + [p]) + rest
  {
  }

  lemma NoMoreOffsets(bits: Bits, offsets: seq<nat>)
    ensures offsets + From(bits, None) == offsets
  {
  }

  method FindHeaders(line: Bits) returns (bits: Bits, offsets: seq<nat>)
    ensures bits == Normalised(line)
    ensures offsets == Offsets(bits, 0)
  {
    hide START_HEADER, Invert, Find;
    bits := line;
    var a := Find(line, START_HEADER, 0);
    var b := Find(line, Invert(START_HEADER), 0);
    if a.None? && b.None? {
      hide PatternAt;
      OffsetsFromFind(line, 0);
      return line, [];
    }
    if a.None? || (b.Some? && b.value < a.value) {
      bits := Invert(line);
    }
    hide PatternAt, Offsets;
    offsets := CollectOffsets(bits);
  }

  /** The offsets still to come once a search has answered. */
  function From(bits: Bits, pos: Option<nat>): seq<nat> {
    if pos.Some? then [pos.value] + Offsets(bits, pos.value + HEADER_LEN) else []
  }

  lemma OffsetsFromFind(bits: Bits, from: nat)
    ensures Offsets(bits, from) == From(bits, Find(bits, START_HEADER, from))
  {
    hide Find, START_HEADER;
  }

  // ------------------------------------------------------------------ parsing

  /** The packet whose header is at `pos`, however short. */
  function PacketAt(bits: Bits, pos: nat, timestamp: Option<real>): Packet
    requires Frames(bits, pos + MARKER_OFFSET) != []
  {
    var frames := Frames(bits, pos + MARKER_OFFSET);
    FramesEnd(bits, pos + MARKER_OFFSET);
    Packet(FrameBytes(frames), bits[pos..pos + MARKER_OFFSET + FRAME_BITS * |frames|], timestamp,
           frames[|frames| - 1].index == 0, 0, Some(IndexesOk(frames)))
  }

  lemma {:induction false} FramesEnd(bits: Bits, i: nat)
    ensures Frames(bits, i) != [] ==> i + FRAME_BITS * |Frames(bits, i)| <= |bits|
    decreases |bits| - i
  {
    if FrameAt(bits, i) && ReadFrame(bits, i).index != 0 {
      FramesEnd(bits, i + FRAME_BITS);
    }
  }

  function PacketsAt(bits: Bits, offsets: seq<nat>, timestamp: Option<real>, minBytes: nat): seq<Packet>
    requires minBytes >= 1
  {
    if offsets == [] then []
    else
      (if |Frames(bits, offsets[0] + MARKER_OFFSET)| < minBytes then [] else [PacketAt(bits, offsets[0], timestamp)])
      + PacketsAt(bits, offsets[1..], timestamp, minBytes)
  }

  /** parse_bits */
  function Parse(line: Bits, timestamp: Option<real>, minBytes: nat): seq<Packet>
    requires minBytes >= 1
  {
    var bits := Normalised(line);
    PacketsAt(bits, Offsets(bits, 0), timestamp, minBytes)
  }

  method ParseBits(line: Bits, timestamp: Option<real>, minBytes: nat) returns (packets: seq<Packet>)
    requires minBytes >= 1
    ensures packets == Parse(line, timestamp, minBytes)
  {
    hide IndexesOk, Frames, Normalised, Offsets, PacketsAt;
    var bits, offsets := FindHeaders(line);
    packets := [];
    assert offsets[0..] == offsets;
    for k := 0 to |offsets|
      invariant PacketsAt(bits, offsets, timestamp, minBytes)
             == packets + PacketsAt(bits, offsets[k..], timestamp, minBytes)
    {
      PacketsStep(bits, offsets, k, timestamp, minBytes);
      var pos := offsets[k];
      var frames := DecodeFrames(bits, pos + MARKER_OFFSET);
      if |frames| >= minBytes {
        FramesEnd(bits, pos + MARKER_OFFSET);
        var end := pos + MARKER_OFFSET + FRAME_BITS * |frames|;
        packets := packets + [Packet(FrameBytes(frames), bits[pos..end], timestamp,
                                     frames[|frames| - 1].index == 0, 0, Some(IndexesOk(frames)))];
      }
    }
    NoMorePackets(bits, offsets, timestamp, minBytes);
  }

  lemma PacketsStep(bits: Bits, offsets: seq<nat>, k: nat, timestamp: Option<real>, minBytes: nat)
    requires minBytes >= 1 && k < |offsets|
    ensures var short := |Frames(bits, offsets[k] + MARKER_OFFSET)| < minBytes;
            PacketsAt(bits, offsets[k..], timestamp, minBytes)
            == (if short then [] else [PacketAt(bits, offsets[k], timestamp)])
               + PacketsAt(bits, offsets[k + 1..], timestamp, minBytes)
  {
    hide Frames, PacketAt;
    assert offsets[k..][1..] == offsets[k + 1..];
  }

  lemma NoMorePackets(bits: Bits, offsets: seq<nat>, timestamp: Option<real>, minBytes: nat)
    requires minBytes >= 1
    ensures PacketsAt(bits, offsets[|offsets|..], timestamp, minBytes) == []
  {
  }
}
