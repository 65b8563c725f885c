/** What comes out of the wire is what went in: bits, polarity and confidence, and so the packets themselves. */
module TransportProofs {
  import opened Common
  import opened Manchester
  import opened Packets
  import opened Framing
  import opened RoundTrip
  import opened BitStrings
  import opened Transport
  import opened Gate
  import B64 = Base64

  /** What the consumer's radio would have held: the bits after the cut, padded to a byte. */
  function Fifo(rest: Bits): Bits { rest + Padding(rest) }

  predicate Fits(rest: Bits) { rest != [] && |rest| <= 8 * MAX_CAPTURE_BYTES }

  lemma FifoArrives(rest: Bits, header: Bits, soft: Option<Soft>)
    requires Fits(rest) && |header| == HEADER_LEN
    ensures var got := FromPayload(PayloadFor(header, rest, soft));
            got.Some? && got.value.bits == (if StartsWithHeader(Fifo(rest)) then Fifo(rest) else header + Fifo(rest)) &&
            got.value.soft == SoftFor(got.value.bits, Fifo(rest), PayloadFor(header, rest, soft).s)
  {
    hide IsHeader, B64.Encode, B64.Decode, NumberOf, BitsOfNumber, Pack, BitsFromBytes;
    BytesRoundTrip(rest, []);
    B64.DecodeInvertsEncode(BytesFromBits(rest));
    NumberRoundTrip(header);
  }

  /**
   * The burst comes back from its header on, in its own polarity and padded to a byte, exactly when what follows the cut
   * does not itself look like a header: with_sync_header would otherwise take it for one and restore nothing.
   */
  lemma BurstRoundTrip(bits: Bits, soft: Option<Soft>, index: Option<int>)
    requires var c := CutFor(bits, index); c.pos.Some? && Fits(bits[c.pos.value + HEADER_LEN..])
    ensures var c := CutFor(bits, index);
            var rest := bits[c.pos.value + HEADER_LEN..];
            var got := FromPayload(Published(bits, soft, index));
            got.Some? && (got.value.bits == c.header + Fifo(rest) <==> !StartsWithHeader(Fifo(rest)))
  {
    hide CutFor, PayloadFor, FromPayload, IsHeader;
    var c := CutFor(bits, index);
    var at := c.pos.value + HEADER_LEN;
    FifoArrives(bits[at..], c.header, After(soft, at));
    assert |c.header + Fifo(bits[at..])| != |Fifo(bits[at..])|;
  }

  /** With an exact header at the cut, that is the burst itself. */
  lemma ExactBurst(bits: Bits, index: Option<int>)
    requires var c := CutFor(bits, index); c.pos.Some? && bits[c.pos.value..c.pos.value + HEADER_LEN] == c.header
    ensures var c := CutFor(bits, index);
            var rest := bits[c.pos.value + HEADER_LEN..];
            c.header + Fifo(rest) == bits[c.pos.value..] + Padding(rest)
  {
    hide CutFor;
  }

  /** A header found, by search or near the correlator's answer, is exact; only the fallback is not. */
  lemma CutIsExact(bits: Bits, index: Option<int>)
    requires var c := CutFor(bits, index); c.pos.Some?
    requires Usable(bits, index) ==>
               exists p: nat :: SnapLow(index.value) <= p < SnapHigh(bits, index.value) && IsHeader(bits, p)
    ensures var c := CutFor(bits, index);
            bits[c.pos.value..c.pos.value + HEADER_LEN] == c.header && IsHeader(bits, c.pos.value)
  {
    HeaderLengths();
    hide START_HEADER, HeaderNear, Find, WrongSymbols, Invert;
  }

  lemma ConfidenceOfPayload(rest: Bits, header: Bits, soft: Option<Soft>, i: nat)
    requires Fits(rest) && |header| == HEADER_LEN && !StartsWithHeader(Fifo(rest)) && i < HEADER_LEN + |Fifo(rest)|
    ensures var arrived := FromPayload(PayloadFor(header, rest, soft));
            arrived.Some? &&
            var got := arrived.value.soft;
            (got.Some? <==> soft.Some? && |soft.value| >= |rest|) &&
            (got.Some? ==>
               |got.value| == HEADER_LEN + |Fifo(rest)| &&
               got.value[i] == (if i < HEADER_LEN then HardSoft(header)[i]
                                else if i < HEADER_LEN + |rest| then
                                  Quantised(soft.value[i - HEADER_LEN]) as real / SOFT_SCALE as real
                                else 0.0))
  {
    hide FromPayload, PayloadFor, Quantised, IsHeader, SoftFor;
    FifoArrives(rest, header, soft);
    SoftArrives(rest, header, soft);
    if soft.Some? && |soft.value| >= |rest| {
      SoftAt(rest, soft.value, i);
    }
  }

  /**
   * Confidence arrives index for index with the burst it left with: entry i is the burst's own symbol pos + i, to within
   * the quantiser; the restored header is certain and the padding has none. It survives exactly when it covered the burst.
   */
  lemma ConfidenceAligned(bits: Bits, soft: Option<Soft>, index: Option<int>, i: nat)
    requires var c := CutFor(bits, index);
             c.pos.Some? && Fits(bits[c.pos.value + HEADER_LEN..]) && !StartsWithHeader(Fifo(bits[c.pos.value + HEADER_LEN..]))
    ensures var c := CutFor(bits, index);
            var pos := c.pos.value;
            var arrived := FromPayload(Published(bits, soft, index));
            arrived.Some? &&
            var got := arrived.value.soft;
            (got.Some? <==> soft.Some? && |soft.value| >= |bits|) &&
            (got.Some? ==>
               |got.value| == |arrived.value.bits| == HEADER_LEN + |Fifo(bits[pos + HEADER_LEN..])| &&
               (i < |got.value| ==>
                  got.value[i] == (if i < HEADER_LEN then if c.header[i] then 1.0 else -1.0
                                   else if pos + i < |bits| then Quantised(soft.value[pos + i]) as real / SOFT_SCALE as real
                                   else 0.0)))
  {
    hide CutFor, PayloadFor, FromPayload, IsHeader, Quantised, Padding;
    var c := CutFor(bits, index);
    var at := c.pos.value + HEADER_LEN;
    var rest := bits[at..];
    FifoArrives(rest, c.header, After(soft, at));
    ConfidenceOfPayload(rest, c.header, After(soft, at), if i < HEADER_LEN + |Fifo(rest)| then i else 0);
  }

  /** The confidence as it is sent: one byte a symbol, zero for the padding. */
  function SoftSent(rest: Bits, soft: Soft): (r: seq<byte>)
    requires |soft| >= |rest|
    ensures |r| == |Fifo(rest)|
  {
    SoftToBytes(soft[..|rest|]) + seq(|Padding(rest)|, _ => 0)
  }

  lemma SoftArrives(rest: Bits, header: Bits, soft: Option<Soft>)
    requires |header| == HEADER_LEN
    ensures SoftFor(header + Fifo(rest), Fifo(rest), PayloadFor(header, rest, soft).s)
         == if soft.Some? && |soft.value| >= |rest| then Some(HardSoft(header) + SoftFromBytes(SoftSent(rest, soft.value))) else None
  {
    hide B64.Encode, B64.Decode, NumberOf, HardSoft, SoftFromBytes, SoftToBytes, Padding, BytesFromBits;
    if soft.Some? && |soft.value| >= |rest| {
      B64.DecodeInvertsEncode(SoftSent(rest, soft.value));
      assert (header + Fifo(rest))[..HEADER_LEN] == header;
    }
  }

  lemma SoftAt(rest: Bits, soft: Soft, i: nat)
    requires |soft| >= |rest| && i < HEADER_LEN + |Fifo(rest)|
    ensures i >= HEADER_LEN ==>
              SoftFromBytes(SoftSent(rest, soft))[i - HEADER_LEN]
              == if i < HEADER_LEN + |rest| then Quantised(soft[i - HEADER_LEN]) as real / SOFT_SCALE as real else 0.0
  {
    hide Quantised, Padding, SignedByte, SignedValue;
    var k := i - HEADER_LEN;
    if 0 <= k < |rest| {
      QuantisedFits(soft[k]);
      SignedRoundTrip(Quantised(soft[k]));
    } else if k >= 0 {
      SignedRoundTrip(0);
      ZeroByte();
    }
  }

  lemma ZeroByte()
    ensures SignedByte(0) == 0
  {
  }

  lemma QuantisedFits(x: real)
    ensures -128 <= Quantised(x) <= 127
  {
  }

  // ------------------------------------------------------------------ encoded packets

  ghost function OnAir(ps: seq<Wire>, inverted: bool): Bits
    requires AllEncodable(ps)
  {
    if inverted then Invert(Stream(ps)) else Stream(ps)
  }

  /** In a burst of encoded packets a header is a header of the stream, whatever the polarity. */
  lemma OnAirHeader(ps: seq<Wire>, inverted: bool, p: nat)
    requires AllEncodable(ps)
    ensures IsHeader(OnAir(ps, inverted), p) <==> HeaderAt(Stream(ps), p)
    ensures HeaderAt(OnAir(ps, inverted), p) ==> !inverted
    ensures InvHeaderAt(OnAir(ps, inverted), p) ==> inverted
  {
    InvHeaderNever(ps, p);
    PatternInverted(Stream(ps), START_HEADER, p);
    PatternInverted(Stream(ps), START_HEADER_INV, p);
    InvertTwice(START_HEADER);
    hide Stream, PatternAt, Invert, START_HEADER;
  }

  /** The side condition of the round trip always holds for encoded packets, wherever they were cut. */
  lemma EncodedCutIsClean(ps: seq<Wire>, inverted: bool, p: nat)
    requires AllEncodable(ps) && HeaderAt(Stream(ps), p)
    ensures p + 2 * HEADER_LEN <= |Stream(ps)| && !StartsWithHeader(Fifo(OnAir(ps, inverted)[p + HEADER_LEN..]))
  {
    hide Stream, PatternAt, START_HEADER, Invert;
    NoHeaderAfter(ps, p);
    OnAirHeader(ps, inverted, p + HEADER_LEN);
    var burst := OnAir(ps, inverted);
    HeadersShift(burst, p + HEADER_LEN, Padding(burst[p + HEADER_LEN..]));
  }

  lemma HeadersShift(burst: Bits, at: nat, pad: Bits)
    requires at + HEADER_LEN <= |burst|
    ensures StartsWithHeader(burst[at..] + pad) <==> IsHeader(burst, at)
  {
    HeaderLengths();
    hide START_HEADER, Invert;
    assert (burst[at..] + pad)[0..HEADER_LEN] == burst[at..at + HEADER_LEN];
  }

  // ------------------------------------------------------------------ packets that arrive

  /** Whether the correlator's answer, or the search when there is none, leads to the k-th packet's header. */
  ghost predicate LeadsTo(ps: seq<Wire>, k: nat, inverted: bool, index: Option<int>)
    requires AllEncodable(ps) && k < |ps|
  {
    var at := |Stream(ps[..k])| + 15;
    if Usable(OnAir(ps, inverted), index) then at - HEADER_SNAP <= index.value <= at + HEADER_SNAP else k == 0
  }

  /** Headers on the air are packets apart. */
  lemma OthersFar(ps: seq<Wire>, inverted: bool, at: nat, p: nat)
    requires AllEncodable(ps) && HeaderAt(Stream(ps), at) && IsHeader(OnAir(ps, inverted), p)
    ensures p == at || p >= at + 100 || p + 100 <= at
  {
    hide Stream, PatternAt, OnAir;
    OnAirHeader(ps, inverted, p);
    if p < at {
      HeadersApart(ps, p, at);
    } else if p > at {
      HeadersApart(ps, at, p);
    }
  }

  /** A header in the window with no other near it is the one taken. */
  lemma SnapsTo(burst: Bits, at: nat, index: Option<int>)
    requires Usable(burst, index) && at - HEADER_SNAP <= index.value <= at + HEADER_SNAP
    requires at + HEADER_LEN <= |burst| && IsHeader(burst, at)
    requires forall p: nat :: IsHeader(burst, p) ==> p == at || p >= at + 100 || p + 100 <= at
    ensures CutFor(burst, index) == Cut(burst[at..at + HEADER_LEN], Some(at))
  {
    hide IsHeader, WrongSymbols, Find;
    var near := HeaderNear(burst, index.value, SnapLow(index.value), SnapHigh(burst, index.value));
    assert SnapLow(index.value) <= at < SnapHigh(burst, index.value);
    assert near == Some(at);
  }

  /** Without the correlator the first header is taken. */
  lemma SearchesTo(burst: Bits, index: Option<int>)
    requires !Usable(burst, index) && 31 <= |burst| && IsHeader(burst, 15)
    requires forall p: nat :: IsHeader(burst, p) ==> p == 15 || p >= 115
    requires HeaderAt(burst, 15) ==> forall p: nat :: !InvHeaderAt(burst, p)
    requires InvHeaderAt(burst, 15) ==> forall p: nat :: !HeaderAt(burst, p)
    ensures CutFor(burst, index) == Cut(burst[15..31], Some(15))
  {
    FoundFirst(burst);
    PatternsAre(burst, 15);
    hide START_HEADER, Invert, PatternAt, WrongSymbols;
    var a, b := Find(burst, START_HEADER, 0), Find(burst, START_HEADER_INV, 0);
    assert a.Some? ==> HeaderAt(burst, a.value);
    assert b.Some? ==> InvHeaderAt(burst, b.value);
  }

  /** The publisher cuts a burst of encoded packets at that header. */
  lemma CutAtHeader(ps: seq<Wire>, k: nat, inverted: bool, index: Option<int>)
    requires AllEncodable(ps) && k < |ps| && LeadsTo(ps, k, inverted, index)
    ensures var at := |Stream(ps[..k])| + 15;
            at + HEADER_LEN <= |Stream(ps)| && HeaderAt(Stream(ps), at) &&
            CutFor(OnAir(ps, inverted), index) == Cut(OnAir(ps, inverted)[at..at + HEADER_LEN], Some(at))
  {
    hide Stream, PatternAt, CutFor, Usable, Offsets, IsHeader;
    var burst, at := OnAir(ps, inverted), |Stream(ps[..k])| + 15;
    hide OnAir;
    KthHeader(ps, k);
    HeaderInside(ps, at);
    AirLength(ps, inverted);
    forall p: nat | IsHeader(burst, p) ensures p == at || p >= at + 100 || p + 100 <= at {
      OthersFar(ps, inverted, at, p);
    }
    OnAirHeader(ps, inverted, at);
    if Usable(burst, index) {
      SnapsTo(burst, at, index);
    } else {
      NothingBefore(ps);
      forall p: nat ensures !(HeaderAt(burst, p) && inverted) && !(InvHeaderAt(burst, p) && !inverted) {
        OnAirHeader(ps, inverted, p);
      }
      EitherHeader(burst, at);
      SearchesTo(burst, index);
    }
  }

  lemma EitherHeader(burst: Bits, p: nat)
    ensures IsHeader(burst, p) <==> HeaderAt(burst, p) || InvHeaderAt(burst, p)
  {
  }

  lemma AirLength(ps: seq<Wire>, inverted: bool)
    requires AllEncodable(ps)
    ensures |OnAir(ps, inverted)| == |Stream(ps)|
  {
    hide Stream;
  }

  lemma PatternsAre(bits: Bits, p: nat)
    requires p + HEADER_LEN <= |bits|
    ensures HeaderAt(bits, p) ==> bits[p..p + HEADER_LEN] == START_HEADER
    ensures InvHeaderAt(bits, p) ==> bits[p..p + HEADER_LEN] == START_HEADER_INV
  {
    HeaderLengths();
    hide START_HEADER, Invert;
  }

  lemma FoundFirst(burst: Bits)
    requires IsHeader(burst, 15) && forall p: nat :: IsHeader(burst, p) ==> p == 15 || p >= 115
    ensures var a, b := Find(burst, START_HEADER, 0), Find(burst, START_HEADER_INV, 0);
            (HeaderAt(burst, 15) ==> a == Some(15)) && (a.Some? ==> HeaderAt(burst, a.value) && (a.value == 15 || a.value >= 115)) &&
            (InvHeaderAt(burst, 15) ==> b == Some(15)) && (b.Some? ==> InvHeaderAt(burst, b.value) && (b.value == 15 || b.value >= 115))
  {
    hide START_HEADER, Invert, PatternAt;
    var a, b := Find(burst, START_HEADER, 0), Find(burst, START_HEADER_INV, 0);
    assert a.Some? ==> IsHeader(burst, a.value);
    assert b.Some? ==> IsHeader(burst, b.value);
    assert HeaderAt(burst, 15) ==> a.Some? && a.value <= 15;
    assert InvHeaderAt(burst, 15) ==> b.Some? && b.value <= 15;
  }

  /**
   * End to end: packets encoded one after the other in either polarity, published as a burst with or without the
   * correlator's help, arrive at the consumer and parse to exactly those packets, in order; all of them when the
   * publisher searches, those from the k-th on when the correlator pointed it near the k-th header.
   */
  lemma PacketsSurviveTransport(ps: seq<Wire>, k: nat, inverted: bool, soft: Option<Soft>, index: Option<int>,
                                timestamp: Option<real>, minBytes: nat)
    requires AllEncodable(ps) && k < |ps| && minBytes >= 1 && LeadsTo(ps, k, inverted, index)
    requires |Stream(ps)| <= 8 * MAX_CAPTURE_BYTES
    ensures var got := FromPayload(Published(OnAir(ps, inverted), soft, index));
            got.Some? && Parse(got.value.bits, timestamp, minBytes) == ExpectedAll(ps[k..], timestamp, minBytes)
  {
    hide Stream, CutFor, Published, FromPayload, IsHeader, Offsets, PacketsAt, Normalised, LeadsTo, Padding;
    var burst, before := OnAir(ps, inverted), |Stream(ps[..k])|;
    var at := before + 15;
    CutAtHeader(ps, k, inverted, index);
    StreamSplits(ps, k);
    var rest := burst[at + HEADER_LEN..];
    EncodedCutIsClean(ps, inverted, at);
    BurstRoundTrip(burst, soft, index);
    ExactBurst(burst, index);
    var pad := Padding(rest);
    PaddingZeros(rest);
    var tail := if inverted then Invert(pad) else pad;
    ParseFromHeader(ps[k..], tail, timestamp, minBytes);
    assert Stream(ps)[at..] == Stream(ps[k..])[15..];
    var heard := Stream(ps[k..])[15..] + tail;
    NormalisedFromHeader(heard);
    assert burst[at..] + pad == if inverted then Invert(heard) else heard;
  }

  lemma PaddingZeros(rest: Bits)
    ensures |Padding(rest)| < 8 && forall i :: 0 <= i < |Padding(rest)| ==> Padding(rest)[i] == Padding(rest)[0]
  {
  }

  // ------------------------------------------------------------------ a damaged header at the correlator's place

  /** Places in which two strings of one length differ. */
  function Mismatches(a: Bits, b: Bits): nat
    requires |a| == |b|
  {
    if a == [] then 0 else Mismatches(a[..|a| - 1], b[..|b| - 1]) + if a[|a| - 1] != b[|b| - 1] then 1 else 0
  }

  lemma {:induction false} MismatchesOfInverse(a: Bits, b: Bits)
    requires |a| == |b|
    ensures Mismatches(a, b) + Mismatches(a, Invert(b)) == |a|
  {
    if a != [] {
      var n := |a| - 1;
      assert Invert(b)[..n] == Invert(b[..n]);
      MismatchesOfInverse(a[..n], b[..n]);
    }
  }

  lemma {:induction false} WrongAreMismatches(bits: Bits, p: nat, n: nat)
    requires n <= HEADER_LEN && p + HEADER_LEN <= |bits| && |START_HEADER_INV| == HEADER_LEN
    ensures WrongSymbols(bits, p, n) == Mismatches(bits[p..p + n], START_HEADER_INV[..n])
  {
    hide START_HEADER_INV;
    if n > 0 {
      WrongAreMismatches(bits, p, n - 1);
      assert bits[p..p + n][..n - 1] == bits[p..p + n - 1];
      assert START_HEADER_INV[..n][..n - 1] == START_HEADER_INV[..n - 1];
    }
  }

  /** An exact header no more than eight symbols from the correlator's index. */
  ghost predicate Around(bits: Bits, index: int, p: nat) { IsHeader(bits, p) && index - 8 <= p <= index + 8 }

  lemma HeaderWhole(bits: Bits, p: nat)
    requires IsHeader(bits, p)
    ensures p + 16 <= |bits|
  {
    HeaderLengths();
    hide START_HEADER;
  }

  lemma NearExactly(bits: Bits, index: int)
    requires 0 <= index <= |bits| - 16
    ensures HeaderNear(bits, index, SnapLow(index), SnapHigh(bits, index)).Some? <==> exists p: nat :: Around(bits, index, p)
  {
    hide IsHeader;
    var near := HeaderNear(bits, index, SnapLow(index), SnapHigh(bits, index));
    if near.Some? {
      assert Around(bits, index, near.value);
    } else {
      forall p: nat | IsHeader(bits, p) ensures p + 16 <= |bits| {
        HeaderWhole(bits, p);
      }
    }
  }

  /** With one there, the burst is cut at the nearest, the earlier of two equally near, and keeps its polarity. */
  lemma NearestHeaderCut(bits: Bits, index: int, p: nat)
    requires 0 <= index <= |bits| - 16 && Around(bits, index, p)
    ensures var c := CutFor(bits, Some(index));
            c.pos.Some? && Around(bits, index, c.pos.value) && c.header == bits[c.pos.value..c.pos.value + 16] &&
            var near, other := index - c.pos.value, index - p;
            (-other < near < other || -other > near > other || near == other || near == -other) &&
            (near == -other ==> c.pos.value <= p)
  {
    HeaderWhole(bits, p);
    hide IsHeader, HeaderNear, WrongSymbols;
  }

  /** Without an index inside the burst it is cut at its first exact header, in that polarity; if there is none, not at all. */
  lemma FirstHeaderCut(bits: Bits, index: Option<int>)
    requires index.None? || index.value < 0 || index.value > |bits| - 16
    ensures var c := CutFor(bits, index);
            if c.pos.Some? then
              IsHeader(bits, c.pos.value) && c.header == bits[c.pos.value..c.pos.value + 16] &&
              forall p: nat :: IsHeader(bits, p) ==> c.pos.value <= p
            else (forall p: nat :: !IsHeader(bits, p)) && c.header == START_HEADER_INV
  {
    HeaderLengths();
    assert START_HEADER_INV == Invert(START_HEADER);
    hide START_HEADER, START_HEADER_INV, Find, HeaderNear, WrongSymbols, Invert;
  }

  /**
   * With no exact header around the correlator's index, the burst is cut there as if a header were: one in normal polarity
   * exactly when fewer than half its symbols are wrong for that, so a header with at most seven wrong symbols keeps its own.
   */
  lemma DamagedHeaderKept(bits: Bits, index: int)
    requires 0 <= index <= |bits| - 16 && forall p: nat :: !Around(bits, index, p)
    ensures |START_HEADER| == |START_HEADER_INV| == HEADER_LEN
    ensures var c, there := CutFor(bits, Some(index)), bits[index..index + HEADER_LEN];
            c.pos == Some(index) && c.header == (if Mismatches(there, START_HEADER) < 8 then START_HEADER else START_HEADER_INV) &&
            (Mismatches(there, START_HEADER) <= 7 ==> c.header == START_HEADER) &&
            (Mismatches(there, START_HEADER_INV) <= 7 ==> c.header == START_HEADER_INV)
  {
    HeaderLength();
    assert START_HEADER_INV == Invert(START_HEADER);
    hide HeaderNear, START_HEADER, START_HEADER_INV, Mismatches, WrongSymbols, Invert, IsHeader;
    NearExactly(bits, index);
    WrongAreMismatches(bits, index, HEADER_LEN);
    assert START_HEADER_INV[..HEADER_LEN] == START_HEADER_INV;
    MismatchesOfInverse(bits[index..index + HEADER_LEN], START_HEADER);
  }

  // ------------------------------------------------------------------ from a board

  /** A board's message: its FIFO as base64, and the sync word, whose low 16 bits are the header it matched. */
  function BoardPayload(buf: seq<byte>, syncWord: nat): Payload { Payload(syncWord, B64.Encode(buf), None) }

  /** What a board's FIFO holds, put the way the packet was encoded, is the encoded packet from behind its header on. */
  lemma FifoUpright(data: Wire, inverted: bool, tail: Bits)
    requires Encodable(data)
    ensures var s := PacketBits(data) + if inverted then Invert(tail) else tail;
            |s| >= AFTER_HEADER && FifoOf(data, inverted, tail) == if inverted then Invert(s[AFTER_HEADER..]) else s[AFTER_HEADER..]
  {
    PacketLength(data);
    hide PacketBits;
    var e := PacketBits(data);
    assert (e + tail)[AFTER_HEADER..] == e[AFTER_HEADER..] + tail;
    assert (e + Invert(tail))[AFTER_HEADER..] == e[AFTER_HEADER..] + Invert(tail);
    assert Invert(e[AFTER_HEADER..] + Invert(tail)) == Invert(e[AFTER_HEADER..]) + tail;
  }

  lemma NoHeaderBehind(s: Bits)
    requires |s| >= AFTER_HEADER && !HeaderAt(s, AFTER_HEADER) && !InvHeaderAt(s, AFTER_HEADER)
    ensures !StartsWithHeader(s[AFTER_HEADER..]) && !StartsWithHeader(Invert(s[AFTER_HEADER..]))
  {
    hide PatternAt, START_HEADER, Invert;
    var here := s[AFTER_HEADER..];
    assert s == s[..AFTER_HEADER] + here;
    PatternShift(s[..AFTER_HEADER], here, START_HEADER, 0);
    PatternShift(s[..AFTER_HEADER], here, START_HEADER_INV, 0);
    PatternInverted(here, START_HEADER, 0);
    PatternInverted(here, START_HEADER_INV, 0);
    InvertTwice(START_HEADER);
  }

  /** What follows a packet's header is never taken for a header, in either polarity. */
  lemma FifoIsNoHeader(data: Wire, inverted: bool, tail: Bits)
    requires Encodable(data)
    ensures !StartsWithHeader(FifoOf(data, inverted, tail))
  {
    hide PacketBits, FifoOf, PatternAt, Invert, StartsWithHeader;
    FifoUpright(data, inverted, tail);
    NotHeaderAt31(data, if inverted then Invert(tail) else tail);
    NoHeaderBehind(PacketBits(data) + if inverted then Invert(tail) else tail);
  }

  lemma NotHeaderAt31(data: Wire, rest: Bits)
    requires Encodable(data)
    ensures !HeaderAt(PacketBits(data) + rest, AFTER_HEADER) && !InvHeaderAt(PacketBits(data) + rest, AFTER_HEADER)
  {
    PacketLength(data);
    hide PacketBits;
    var s := PacketBits(data) + rest;
    var f := EvenPair(data, 36);
    assert s[36] || s[37];
    ZerosOfInverse(s, AFTER_HEADER);
    if HeaderAt(s, AFTER_HEADER) {
      HeaderNeedsIndex31(data, rest, AFTER_HEADER);
    }
  }

  lemma ZerosOfInverse(s: Bits, p: nat)
    ensures InvHeaderAt(s, p) ==> p + HEADER_LEN <= |s| && !s[p + 5] && !s[p + 6]
  {
    if InvHeaderAt(s, p) {
      assert !s[p..p + HEADER_LEN][5] && !s[p..p + HEADER_LEN][6];
    }
  }

  /**
   * Board to packet: a capture that starts right after a packet's header, whatever follows the packet on the air and in
   * whichever polarity the board matched, reaches the parser with its header restored, and the first packet parsed from
   * it is the one that was sent.
   */
  lemma BoardPacketParses(data: Wire, inverted: bool, tail: Bits, buf: seq<byte>, syncWord: nat, timestamp: Option<real>,
                          minBytes: nat)
    requires Encodable(data) && 1 <= minBytes <= |data| && 1 <= |buf| <= MAX_CAPTURE_BYTES
    requires BitsFromBytes(buf) == FifoOf(data, inverted, tail)
    requires BitsOfNumber(syncWord, HEADER_LEN) == if inverted then START_HEADER_INV else START_HEADER
    ensures var got := FromPayload(BoardPayload(buf, syncWord));
            got.Some? &&
            var packets := Parse(got.value.bits, timestamp, minBytes);
            packets != [] && packets[0] == Expected(data, timestamp)
  {
    hide FifoOf, FromPayload, PacketBits, START_HEADER, START_HEADER_INV, Parse, Expected, Invert;
    BoardArrives(data, inverted, tail, buf, syncWord);
    BoardHeard(data, inverted, tail);
    HeardParses(data, inverted, if inverted then Invert(tail) else tail, timestamp, minBytes);
  }

  /** From its header on, in either polarity, a packet is the first one parsed. */
  lemma HeardParses(data: Wire, inverted: bool, after: Bits, timestamp: Option<real>, minBytes: nat)
    requires Encodable(data) && 1 <= minBytes <= |data|
    ensures |PacketBits(data)| >= 100
    ensures var heard := (PacketBits(data) + after)[15..];
            var packets := Parse(if inverted then Invert(heard) else heard, timestamp, minBytes);
            packets != [] && packets[0] == Expected(data, timestamp)
  {
    PacketLength(data);
    hide PacketBits, PatternAt, START_HEADER, Offsets, PacketsAt, Normalised, Expected, Find, Invert;
    var s := PacketBits(data) + after;
    var heard := s[15..];
    HeaderOfPacket(data, after);
    PatternShift(s[..15], heard, START_HEADER, 0);
    assert s == s[..15] + heard;
    NormalisedFromHeader(heard);
    FirstParsed(s[..15], heard, data, after, timestamp, minBytes);
  }

  lemma BoardArrives(data: Wire, inverted: bool, tail: Bits, buf: seq<byte>, syncWord: nat)
    requires Encodable(data) && 1 <= |buf| <= MAX_CAPTURE_BYTES && BitsFromBytes(buf) == FifoOf(data, inverted, tail)
    ensures FromPayload(BoardPayload(buf, syncWord))
         == Some(Capture(BitsOfNumber(syncWord, HEADER_LEN) + FifoOf(data, inverted, tail), None))
  {
    hide FifoOf, IsHeader, B64.Encode, B64.Decode;
    FifoIsNoHeader(data, inverted, tail);
    B64.DecodeInvertsEncode(buf);
  }

  /** The restored stream is the packet from its header on, in the polarity of the header. */
  lemma BoardHeard(data: Wire, inverted: bool, tail: Bits)
    requires Encodable(data)
    ensures |PacketBits(data)| >= 100
    ensures var heard := (PacketBits(data) + if inverted then Invert(tail) else tail)[15..];
            (if inverted then START_HEADER_INV else START_HEADER) + FifoOf(data, inverted, tail)
            == if inverted then Invert(heard) else heard
  {
    PacketLength(data);
    HeaderLengths();
    hide PacketBits, START_HEADER, Invert, FifoOf;
    HeaderOfPacket(data, []);
    var e, after := PacketBits(data), if inverted then Invert(tail) else tail;
    assert e + [] == e;
    FromHeaderOn(e, START_HEADER, after);
    FifoIs(data, inverted, tail);
    if inverted {
      InvertTwice(tail);
      InvertConcat(START_HEADER + e[AFTER_HEADER..], after);
      InvertConcat(START_HEADER, e[AFTER_HEADER..]);
    }
  }

  lemma FifoIs(data: Wire, inverted: bool, tail: Bits)
    requires Encodable(data)
    ensures |PacketBits(data)| >= AFTER_HEADER
    ensures var rest := PacketBits(data)[AFTER_HEADER..];
            forall h: Bits :: h + FifoOf(data, inverted, tail) == h + (if inverted then Invert(rest) else rest) + tail
  {
    hide PacketBits;
    var rest := PacketBits(data)[AFTER_HEADER..];
    forall h: Bits ensures h + FifoOf(data, inverted, tail) == h + (if inverted then Invert(rest) else rest) + tail {
      assert h + ((if inverted then Invert(rest) else rest) + tail) == h + (if inverted then Invert(rest) else rest) + tail;
    }
  }

  lemma FromHeaderOn(e: Bits, header: Bits, after: Bits)
    requires |e| >= 31 && |header| == 16 && e[15..31] == header
    ensures (e + after)[15..] == header + e[31..] + after
  {
    assert e[15..] == e[15..31] + e[31..];
  }

  lemma InvertConcat(a: Bits, b: Bits)
    ensures Invert(a + b) == Invert(a) + Invert(b)
  {
  }

  lemma FirstParsed(front: Bits, heard: Bits, data: Wire, after: Bits, timestamp: Option<real>, minBytes: nat)
    requires Encodable(data) && 1 <= minBytes <= |data| && |front| == 15 && front + heard == PacketBits(data) + after
    requires HeaderAt(heard, 0)
    ensures var packets := PacketsAt(heard, Offsets(heard, 0), timestamp, minBytes);
            packets != [] && packets[0] == Expected(data, timestamp)
  {
    hide PacketBits, PatternAt, START_HEADER, Offsets, PacketsAt, Find, Frames, PacketAt, Expected;
    FindHere(heard, 0);
    OffsetsFromFind(heard, 0);
    var offsets := Offsets(heard, 0);
    PacketsShift(front, heard, offsets, timestamp, minBytes);
    FirstPacket(data, after, timestamp);
    var shifted := Shift(offsets, 15);
    assert shifted[0] == 15 && shifted[0..] == shifted;
    PacketsStep(front + heard, shifted, 0, timestamp, minBytes);
  }
}
