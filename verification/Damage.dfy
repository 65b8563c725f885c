/** What damage to a packet on the air comes to: a wrong symbol, a capture cut short, a wrong symbol loudly heard. */
module Damage {
  import opened Common
  import opened Manchester
  import opened Packets
  import opened Framing
  import opened Sorting
  import opened FlipSearch
  import opened Recover
  import opened RecoverProofs
  import RoundTrip
  import CrcAlgebra

  /** The logical bits of frame g as they were sent. */
  function Sent(data: Wire, g: nat): (r: Bits)
    requires Encodable(data) && g < |data|
    ensures |r| == FRAME_LOGICAL_BITS
  {
    IndexBits(ExpectedIndex(Extended(data), g)) + ByteBits(data[g])
  }

  /** The symbols of a packet from its header to its last frame. */
  function OnAir(data: Wire): (r: Bits)
    requires Encodable(data)
    ensures |r| == MARKER_OFFSET + FRAME_BITS * |data|
  {
    PacketBits(data)[PREAMBLE_SYMBOLS - MARKER_OFFSET..PREAMBLE_SYMBOLS + FRAME_BITS * |data|]
  }

  /** Where among them bit b of byte f has its pair. */
  function PairOf(f: nat, b: nat): nat { MARKER_OFFSET + FRAME_BITS * f + 12 + 2 * b }

  /** A complete packet at `pos` in which one symbol is wrong, of the pair that carries bit b of byte f. */
  ghost predicate OneWrong(bits: Bits, pos: nat, data: Wire, f: nat, b: nat, second: bool) {
    Encodable(data) && |data| == FullLength(data) && f < |data| && b < 8 &&
    pos + |OnAir(data)| <= |bits| &&
    var at := PairOf(f, b) + if second then 1 else 0;
    bits[pos..pos + |OnAir(data)|] == OnAir(data)[at := !OnAir(data)[at]]
  }

  /** The logical position of bit b of byte f. */
  function Position(f: nat, b: nat): nat { FRAME_LOGICAL_BITS * f + FRAME_INDEX_BITS + b }

  /** A byte with one bit given. */
  function WithBit(x: byte, b: nat, v: bool): byte
    requires b < 8
  {
    ByteValue(ByteBits(x)[b := v])
  }

  lemma WithOwnBit(x: byte, b: nat)
    requires b < 8
    ensures WithBit(x, b, ByteBits(x)[b]) == x
    ensures WithBit(x, b, !ByteBits(x)[b]) != x
  {
    hide ByteValue, ByteBits;
    ByteRoundTrip(x);
    assert ByteBits(x)[b := ByteBits(x)[b]] == ByteBits(x);
    ByteBitsOfValue(ByteBits(x)[b := !ByteBits(x)[b]]);
  }

  // ------------------------------------------------------------------ what is read

  lemma PairReads(bits: Bits, a: nat)
    requires a + 1 < |bits|
    ensures (Likelihood(Hard(bits), a) > 0.0) == (!bits[a] && bits[a + 1])
    ensures Abs(Likelihood(Hard(bits), a)) == if bits[a] == bits[a + 1] then 0.0 else 2.0
  {
  }

  /** The symbol pair of logical bit j in frame g of a packet on the air. */
  lemma PairSent(data: Wire, g: nat, j: nat)
    requires Encodable(data) && g < |data| && j < FRAME_LOGICAL_BITS
    ensures var at := PREAMBLE_SYMBOLS + FRAME_BITS * g + 2 + 2 * j;
            PacketBits(data)[at] == !Sent(data, g)[j] && PacketBits(data)[at + 1] == Sent(data, g)[j]
  {
    hide PacketBits, IndexBits, ByteBits, Encode;
    RoundTrip.FrameInPacket(data, g);
    EncodePair(Sent(data, g), j);
    var at := PREAMBLE_SYMBOLS + FRAME_BITS * g;
    var frame := PacketBits(data)[at..at + FRAME_BITS];
    assert frame == [true, true] + Encode(Sent(data, g));
    assert frame[2 + 2 * j] == PacketBits(data)[at + 2 + 2 * j] && frame[3 + 2 * j] == PacketBits(data)[at + 3 + 2 * j];
  }

  /** The symbols of a damaged packet, one by one. */
  lemma DamagedSymbol(bits: Bits, pos: nat, data: Wire, f: nat, b: nat, second: bool, i: nat)
    requires OneWrong(bits, pos, data, f, b, second) && i < FRAME_BITS * |data|
    ensures pos + MARKER_OFFSET + i < |bits|
    ensures bits[pos + MARKER_OFFSET + i]
         == (PacketBits(data)[PREAMBLE_SYMBOLS + i] != (MARKER_OFFSET + i == PairOf(f, b) + if second then 1 else 0))
  {
    hide PacketBits;
    var k := MARKER_OFFSET + i;
    assert bits[pos..pos + |OnAir(data)|][k] == bits[pos + k];
    assert OnAir(data)[k] == PacketBits(data)[PREAMBLE_SYMBOLS + i];
  }

  /** The wrong pair reads as 0 with no confidence at all; every other pair reads as it was sent, with confidence 2. */
  lemma WrongPairReads(bits: Bits, pos: nat, data: Wire, f: nat, b: nat, second: bool, n: nat, g: nat, j: nat)
    requires OneWrong(bits, pos, data, f, b, second) && g < n <= |data| && j < FRAME_LOGICAL_BITS
    ensures n <= WholeFrames(|bits|, pos + MARKER_OFFSET)
    ensures var at := FRAME_LOGICAL_BITS * g + j;
            AllValues(Hard(bits), pos + MARKER_OFFSET, n)[at] == (Sent(data, g)[j] && at != Position(f, b)) &&
            AllConf(Hard(bits), pos + MARKER_OFFSET, n)[at] == if at == Position(f, b) then 0.0 else 2.0
  {
    hide PacketBits, Hard, Likelihood, Abs, AllValues, AllConf, Sent, OneWrong;
    FramesInside(bits, pos, data, f, b, second);
    var first := pos + MARKER_OFFSET;
    ValuesAt(Hard(bits), first, n, g, j);
    var a := FrameBase(first, g) + 2 * j;
    PairReads(bits, a);
    PairSent(data, g, j);
    var i := FRAME_BITS * g + 2 + 2 * j;
    DamagedSymbol(bits, pos, data, f, b, second, i);
    DamagedSymbol(bits, pos, data, f, b, second, i + 1);
    assert a == first + i;
  }

  lemma FramesInside(bits: Bits, pos: nat, data: Wire, f: nat, b: nat, second: bool)
    requires OneWrong(bits, pos, data, f, b, second)
    ensures Encodable(data) && |data| == FullLength(data) && f < |data| && b < 8
    ensures |data| <= WholeFrames(|bits|, pos + MARKER_OFFSET)
  {
  }

  /** The logical bits of frame g as sent, but for bit b of byte f, which is v. */
  function SentWith(data: Wire, f: nat, b: nat, v: bool, g: nat): (r: Bits)
    requires Encodable(data) && g < |data| && b < 8
    ensures |r| == FRAME_LOGICAL_BITS
  {
    if g == f then Sent(data, g)[FRAME_INDEX_BITS + b := v] else Sent(data, g)
  }

  ghost predicate ReadWith(values: Bits, data: Wire, f: nat, b: nat, v: bool, n: nat) {
    Encodable(data) && b < 8 && n <= |data| && |values| == FRAME_LOGICAL_BITS * n &&
    forall g | 0 <= g < n ::
      values[FRAME_LOGICAL_BITS * g..FRAME_LOGICAL_BITS * (g + 1)] == SentWith(data, f, b, v, g)
  }

  lemma FrameReadWith(values: Bits, data: Wire, f: nat, b: nat, v: bool, n: nat, g: nat)
    requires ReadWith(values, data, f, b, v, n) && g < n
    ensures FrameCounter(values, g) == ExpectedIndex(Extended(data), g)
    ensures FrameByte(values, g) == if g == f then WithBit(data[g], b, v) else data[g]
  {
    hide ByteValue, ByteBits, IndexBits, IndexValue;
    var lo := FRAME_LOGICAL_BITS * g;
    var frame := values[lo..lo + FRAME_LOGICAL_BITS];
    assert frame == SentWith(data, f, b, v, g);
    var index, bits := IndexBits(ExpectedIndex(Extended(data), g)), ByteBits(data[g]);
    assert values[lo..lo + FRAME_INDEX_BITS] == frame[..FRAME_INDEX_BITS] == index;
    IndexRoundTrip(ExpectedIndex(Extended(data), g));
    assert values[lo + FRAME_INDEX_BITS..lo + FRAME_LOGICAL_BITS] == frame[FRAME_INDEX_BITS..];
    assert frame[FRAME_INDEX_BITS..] == if g == f then bits[b := v] else bits;
    ByteRoundTrip(data[g]);
  }

  /** The counters are as sent, and so are the bytes but for that bit. */
  lemma BytesReadWith(values: Bits, data: Wire, f: nat, b: nat, v: bool, n: nat)
    requires ReadWith(values, data, f, b, v, n) && f < n
    ensures forall g :: 0 <= g < n ==> FrameCounter(values, g) == ExpectedIndex(Extended(data), g)
    ensures BytesFrom(values, n) == data[..n][f := WithBit(data[f], b, v)]
  {
    hide FrameCounter, FrameByte, ReadWith, WithBit;
    LengthReadWith(values, data, f, b, v, n);
    forall g | 0 <= g < n
      ensures FrameCounter(values, g) == ExpectedIndex(Extended(data), g)
      ensures FrameByte(values, g) == if g == f then WithBit(data[g], b, v) else data[g]
    {
      FrameReadWith(values, data, f, b, v, n, g);
    }
  }

  lemma LengthReadWith(values: Bits, data: Wire, f: nat, b: nat, v: bool, n: nat)
    requires ReadWith(values, data, f, b, v, n)
    ensures |values| == FRAME_LOGICAL_BITS * n && n <= |data| && Encodable(data) && b < 8
  {
  }

  /** With the wrong pair the bit is read as 0; flipping its position makes it 1. */
  lemma CaptureReadsWith(bits: Bits, pos: nat, data: Wire, f: nat, b: nat, second: bool, n: nat)
    requires OneWrong(bits, pos, data, f, b, second) && n <= |data|
    ensures n <= WholeFrames(|bits|, pos + MARKER_OFFSET)
    ensures var values := AllValues(Hard(bits), pos + MARKER_OFFSET, n);
            ReadWith(values, data, f, b, false, n) && ReadWith(FlipSet(values, {Position(f, b)}), data, f, b, true, n)
  {
    hide AllValues, AllConf, Hard, PacketBits, Sent, OneWrong;
    FramesInside(bits, pos, data, f, b, second);
    var values := AllValues(Hard(bits), pos + MARKER_OFFSET, n);
    var flipped := FlipSet(values, {Position(f, b)});
    forall g | 0 <= g < n
      ensures values[FRAME_LOGICAL_BITS * g..FRAME_LOGICAL_BITS * (g + 1)] == SentWith(data, f, b, false, g)
      ensures flipped[FRAME_LOGICAL_BITS * g..FRAME_LOGICAL_BITS * (g + 1)] == SentWith(data, f, b, true, g)
    {
      forall j | 0 <= j < FRAME_LOGICAL_BITS
        ensures values[FRAME_LOGICAL_BITS * g + j] == SentWith(data, f, b, false, g)[j]
        ensures flipped[FRAME_LOGICAL_BITS * g + j] == SentWith(data, f, b, true, g)[j]
      {
        WrongPairReads(bits, pos, data, f, b, second, n, g, j);
      }
    }
  }

  // ------------------------------------------------------------------ the one suspect

  /** Confidence 2 everywhere but at one data position, where there is none. */
  ghost predicate OneDoubt(conf: seq<real>, n: nat, p: nat) {
    |conf| == FRAME_LOGICAL_BITS * n && p < |conf| && p in DataPositions(n) &&
    forall i :: 0 <= i < |conf| ==> conf[i] == if i == p then 0.0 else 2.0
  }

  lemma {:induction false} OneZeroSorts(xs: seq<real>, k: nat)
    requires k < |xs| && forall i :: 0 <= i < |xs| ==> xs[i] == if i == k then 0.0 else 2.0
    ensures SortBy(xs, (x: real) => x) == [0.0] + seq(|xs| - 1, i => 2.0)
  {
    var key := (x: real) => x;
    var rest := xs[1..];
    if k == 0 {
      assert SortedBy(rest, key);
      SortOfSorted(rest, key);
      assert SortBy(xs, key) == Insert(xs[0], rest, key);
    } else {
      OneZeroSorts(rest, k - 1);
      var tail := seq(|rest| - 1, i => 2.0);
      assert SortBy(xs, key) == Insert(2.0, [0.0] + tail, key);
      assert ([0.0] + tail)[1..] == tail;
      assert Insert(2.0, [0.0] + tail, key) == [0.0] + Insert(2.0, tail, key);
      assert Insert(2.0, tail, key) == [2.0] + tail;
      assert [2.0] + tail == seq(|xs| - 1, i => 2.0);
    }
  }

  lemma HalfMedian(conf: seq<real>, n: nat, p: nat)
    requires n > 0 && OneDoubt(conf, n, p)
    ensures Threshold(conf, n) == 1.0
  {
    hide SortBy;
    var at := DataPositions(n);
    var k :| 0 <= k < |at| && at[k] == p;
    var xs := seq(|at|, i requires 0 <= i < |at| => conf[at[i]]);
    forall i | 0 <= i < |xs| ensures xs[i] == if i == k then 0.0 else 2.0 {
      assert i != k ==> at[i] != at[k];
    }
    OneZeroSorts(xs, k);
    SortSorted(xs, (x: real) => x);
    var s := SortBy(xs, (x: real) => x);
    assert |s| == 8 * n && |s| / 2 == 4 * n && s[4 * n] == 2.0 && s[4 * n - 1] == 2.0;
    assert Median(xs) == 2.0;
  }

  /** Then that position is the only suspect. */
  lemma OnlySuspect(conf: seq<real>, n: nat, p: nat, candidates: nat)
    requires n > 0 && OneDoubt(conf, n, p)
    ensures Suspects(conf, n, candidates) == if candidates == 0 then [] else [p]
  {
    hide Threshold, DataPositions, SortBy;
    var s := Suspects(conf, n, candidates);
    HalfMedian(conf, n, p);
    LeastSureOfThem(conf, n, candidates);
    forall q | q in s ensures q == p {
      assert conf[q] <= 1.0;
    }
    if candidates > 0 {
      assert p in DataPositions(n) && conf[p] <= Threshold(conf, n);
      assert s != [];
      assert s[0] in s;
      assert Elements(s) == {p};
      DistinctCard(s);
    }
  }

  /** So repair can only flip it. */
  lemma RepairsTheDoubt(values: Bits, conf: seq<real>, n: nat, p: nat, extended: bool, maxFlips: nat, candidates: nat)
    requires n > 0 && OneDoubt(conf, n, p) && |values| == |conf| && maxFlips > 0 && candidates > 0
    ensures Repair(values, conf, n, extended, maxFlips, candidates)
         == if Repaired(FlipSet(values, {p}), n, extended) then Some(Hit(FlipSet(values, {p}), 1)) else None
  {
    hide Repaired, Suspects, FlipSet, Repair, DataPositions;
    OnlySuspect(conf, n, p, candidates);
    assert Elements([p]) == {p};
    var found := RepairExact(values, conf, n, extended, maxFlips, candidates);
    if Repaired(FlipSet(values, {p}), n, extended) {
      assert MendedBy(values, conf, n, extended, maxFlips, candidates, {p});
    }
    forall at | MendedBy(values, conf, n, extended, maxFlips, candidates, at) ensures at == {p} {
      var q :| q in at;
      assert q == p;
    }
  }

  // ------------------------------------------------------------------ what comes back

  lemma WrongPairConf(bits: Bits, pos: nat, data: Wire, f: nat, b: nat, second: bool, n: nat)
    requires OneWrong(bits, pos, data, f, b, second) && f < n <= |data|
    ensures n <= WholeFrames(|bits|, pos + MARKER_OFFSET)
    ensures OneDoubt(AllConf(Hard(bits), pos + MARKER_OFFSET, n), n, Position(f, b))
  {
    hide AllValues, AllConf, PacketBits, Sent, OneWrong, Hard;
    FramesInside(bits, pos, data, f, b, second);
    var conf := AllConf(Hard(bits), pos + MARKER_OFFSET, n);
    assert DataPositions(n)[8 * f + b] == Position(f, b);
    forall i | 0 <= i < |conf| ensures conf[i] == if i == Position(f, b) then 0.0 else 2.0 {
      var g, j := i / FRAME_LOGICAL_BITS, i % FRAME_LOGICAL_BITS;
      WrongPairReads(bits, pos, data, f, b, second, n, g, j);
    }
  }

  /** The kind the copy is framed as: the packet's own, unless the damage hides its EXT flag. */
  lemma KindRead(bits: Bits, pos: nat, data: Wire, f: nat, b: nat, second: bool)
    requires OneWrong(bits, pos, data, f, b, second)
    ensures WholeFrames(|bits|, pos + MARKER_OFFSET) > 0
    ensures ReadsExtended(Hard(bits), pos + MARKER_OFFSET) == (Extended(data) && !(f == 0 && b == 4))
  {
    hide AllValues, AllConf, LogicalAt, OneWrong, Hard, FrameByte;
    var first := pos + MARKER_OFFSET;
    FramesInside(bits, pos, data, f, b, second);
    WrongPairReads(bits, pos, data, f, b, second, 1, 0, 9);
    FirstFrame(Hard(bits), first);
    ExtFlagBit(AllValues(Hard(bits), first, 1), 1);
    SentFlag(data);
  }

  lemma FirstFrame(sym: Soft, first: nat)
    requires WholeFrames(|sym|, first) > 0
    ensures ReadsExtended(sym, first) == Extended(BytesFrom(AllValues(sym, first, 1), 1))
  {
    hide HasExt, ByteValue, Likelihood, Abs, IllegalPairs;
    assert AllValues(sym, first, 1) == LogicalAt(sym, FrameBase(first, 0), FRAME_LOGICAL_BITS).values;
  }

  lemma SentFlag(data: Wire)
    requires Encodable(data)
    ensures Sent(data, 0)[9] == Extended(data)
  {
    assert Sent(data, 0)[9] == ByteBits(data[0])[4];
  }

  /** A packet that passes its own checks and has possible hop fields. */
  predicate Passes(data: Wire) { CrcsPass(data, Extended(data)) && HopsLegal(data[0]) }

  /** The packet with bit b of byte f given. */
  function With(data: Wire, f: nat, b: nat, v: bool): (r: Wire)
    requires f < |data| && b < 8
    ensures |r| == |data|
  {
    data[f := WithBit(data[f], b, v)]
  }

  /** The EXT flag of an extended packet: the one bit whose loss changes how many frames are read. */
  predicate LosesKind(data: Wire, f: nat, b: nat) { Extended(data) && f == 0 && b == 4 }

  lemma DamagedPacketReads(bits: Bits, pos: nat, data: Wire, f: nat, b: nat, second: bool)
    requires OneWrong(bits, pos, data, f, b, second)
    ensures |data| <= WholeFrames(|bits|, pos + MARKER_OFFSET) && f < |data| && b < 8
    ensures var values := AllValues(Hard(bits), pos + MARKER_OFFSET, |data|);
            WrongCounters(values, |data|, Extended(data)) == 0 && BytesFrom(values, |data|) == With(data, f, b, false) &&
            WrongCounters(FlipSet(values, {Position(f, b)}), |data|, Extended(data)) == 0 &&
            BytesFrom(FlipSet(values, {Position(f, b)}), |data|) == With(data, f, b, true)
  {
    hide AllValues, Hard, OneWrong, FrameCounter, ReadWith, FrameByte, WithBit, FlipSet, WrongCounters;
    FramesInside(bits, pos, data, f, b, second);
    var n := |data|;
    CaptureReadsWith(bits, pos, data, f, b, second, n);
    var values := AllValues(Hard(bits), pos + MARKER_OFFSET, n);
    var flipped := FlipSet(values, {Position(f, b)});
    BytesReadWith(values, data, f, b, false, n);
    BytesReadWith(flipped, data, f, b, true, n);
    CountersRight(values, n, Extended(data));
    CountersRight(flipped, n, Extended(data));
    assert data[..n] == data;
  }

  /**
   * What a copy with one wrong symbol gives: the bit reads as 0, and if the checks then fail, 1 is tried. This holds
   * whatever the packet's own checks say.
   */
  lemma DamagedRecovery(bits: Bits, pos: nat, data: Wire, f: nat, b: nat, second: bool, timestamp: Option<real>,
                        limits: Limits)
    requires OneWrong(bits, pos, data, f, b, second) && f < |data| && b < 8 && !LosesKind(data, f, b)
    requires limits.repair && limits.maxFlips > 0 && limits.candidates > 0
    ensures var got := if CrcsPass(With(data, f, b, false), Extended(data)) then With(data, f, b, false) else With(data, f, b, true);
            var r := Recovery(bits, Hard(bits), pos, timestamp, limits);
            (r.Some? <==> CrcsPass(got, Extended(data)) && HopsLegal(got[0])) &&
            (r.Some? ==> r.value.packet.data == got && r.value.indexErrors == 0 &&
                         r.value.corrected == if CrcsPass(With(data, f, b, false), Extended(data)) then 0 else 1)
  {
    hide AllValues, AllConf, AllIllegal, Hard, OneWrong, ReadsExtended, With, CrcsPass, HopsLegal, FlipSet, OneDoubt,
         Repair, WrongCounters;
    var first, n := pos + MARKER_OFFSET, |data|;
    FramesInside(bits, pos, data, f, b, second);
    var values, conf := AllValues(Hard(bits), first, n), AllConf(Hard(bits), first, n);
    KindRead(bits, pos, data, f, b, second);
    DamagedPacketReads(bits, pos, data, f, b, second);
    WrongPairConf(bits, pos, data, f, b, second, n);
    RepairsTheDoubt(values, conf, n, Position(f, b), Extended(data), limits.maxFlips, limits.candidates);
  }

  lemma ChangedIsXor(data: Wire, f: nat, b: nat, v: bool) returns (error: Wire)
    requires f < |data| && b < 8 && ByteBits(data[f])[b] != v && !(f == 0 && b == 4)
    ensures |error| == |data| && CrcAlgebra.XorBytes(data, error) == With(data, f, b, v)
    ensures CrcAlgebra.KeepsKind(data, error) && error[f] != 0 && forall k :: 0 <= k < |error| && k != f ==> error[k] == 0
  {
    hide CrcAlgebra.Xor, WithBit, HasExt, ByteBits;
    var flip := CrcAlgebra.Xor(data[f], WithBit(data[f], b, v));
    error := seq(|data|, k => if k == f then flip else 0);
    ChangedByte(data[f], b, v);
    forall k | 0 <= k < |data| ensures CrcAlgebra.XorBytes(data, error)[k] == With(data, f, b, v)[k] {
      CrcAlgebra.XorZero(data[k]);
    }
    assert CrcAlgebra.XorBytes(data, error) == With(data, f, b, v);
    if f == 0 {
      FlagNotLost(data[0], b, v);
    }
  }

  lemma ChangedByte(x: byte, b: nat, v: bool)
    requires b < 8 && ByteBits(x)[b] != v
    ensures var flip := CrcAlgebra.Xor(x, WithBit(x, b, v)); CrcAlgebra.Xor(x, flip) == WithBit(x, b, v) && flip != 0
  {
    WithOwnBit(x, b);
    hide WithBit, ByteBits;
    var y := WithBit(x, b, v);
    assert x ^ (x ^ y) == y;
    assert x != y ==> x ^ y != 0;
  }

  lemma FlagNotLost(x: byte, b: nat, v: bool)
    requires b < 8 && b != 4
    ensures CrcAlgebra.Xor(x, WithBit(x, b, v)) & 0x10 == 0
  {
  }

  /** Damage past the CRC byte reaches nothing the checks look at. */
  lemma PastTheCrc(data: Wire, f: nat, b: nat, v: bool)
    requires f < |data| && b < 8 && f > CrcIndex(data)
    ensures Extended(With(data, f, b, v)) == Extended(data)
    ensures CrcsPass(With(data, f, b, v), Extended(data)) == CrcsPass(data, Extended(data)) && With(data, f, b, v)[0] == data[0]
  {
    hide HasExt, CrcFrom, ByteSum, WithBit;
    var other := With(data, f, b, v);
    assert other[0] == data[0];
    var n := Min(CrcIndex(data), |data|);
    assert other[..n] == data[..n];
    assert Extended(data) ==> other[Min(7, |other|)..Min(EXT_DATA_CRC_INDEX, |other|)] == data[Min(7, |data|)..Min(EXT_DATA_CRC_INDEX, |data|)];
  }

  lemma DamageCaught(data: Wire, f: nat, b: nat, v: bool)
    requires Passes(data) && f < |data| && b < 8 && f <= CrcIndex(data) && ByteBits(data[f])[b] != v && !(f == 0 && b == 4)
    ensures !CrcsPass(With(data, f, b, v), Extended(data))
  {
    hide CrcFrom, HasExt, ExtCrc, ByteBits, With, HopsLegal, CrcAlgebra.XorBytes;
    var error := ChangedIsXor(data, f, b, v);
    CrcAlgebra.KindKept(data, error);
    CrcAlgebra.SingleByteErrorCaught(data, error, f);
  }

  lemma FlagBit(data: Wire)
    ensures ByteBits(data[0])[4] == Extended(data)
  {
  }

  /**
   * A complete sound packet heard with one wrong data symbol, from hard bits alone, for every packet and every place. Up
   * to the CRC byte what comes back is the packet byte for byte, with one correction if the bit was a 1; past it the
   * checks see nothing and the bit reads as 0. The exception is a wrong symbol that hides the EXT flag of an extended
   * packet: it is framed as a standard one with twelve wrong counters, so nothing can be repaired, and its first thirteen
   * bytes come back exactly when that many wrong counters are allowed and byte 9 happens to be their CRC.
   */
  lemma OneWrongSymbol(bits: Bits, pos: nat, data: Wire, f: nat, b: nat, second: bool, timestamp: Option<real>,
                       limits: Limits)
    requires OneWrong(bits, pos, data, f, b, second) && f < |data| && b < 8 && Passes(data)
    requires limits.repair && limits.maxFlips > 0 && limits.candidates > 0
    ensures var r := Recovery(bits, Hard(bits), pos, timestamp, limits);
            (LosesKind(data, f, b) ==>
               (r.Some? <==> limits.maxIndexErrors >= STD_LEN - 1 && CrcsPass(AsStandard(data), false)) &&
               (r.Some? ==> r.value.packet.data == AsStandard(data) && r.value.corrected == 0)) &&
            (!LosesKind(data, f, b) && f <= CrcIndex(data) ==>
               r.Some? && r.value.packet.data == data && r.value.corrected == if ByteBits(data[f])[b] then 1 else 0) &&
            (!LosesKind(data, f, b) && f > CrcIndex(data) ==>
               r.Some? && r.value.packet.data == With(data, f, b, false) && r.value.corrected == 0)
  {
    hide CrcsPass, HopsLegal, ByteBits, OneWrong, WithBit, HasExt, Recovery, AsStandard;
    if LosesKind(data, f, b) {
      LostKind(bits, pos, data, second, timestamp, limits);
    } else {
      DamagedRecovery(bits, pos, data, f, b, second, timestamp, limits);
      WithOwnBit(data[f], b);
      assert With(data, f, b, ByteBits(data[f])[b]) == data;
      if f > CrcIndex(data) {
        PastTheCrc(data, f, b, false);
      } else if ByteBits(data[f])[b] {
        FlagBit(data);
        DamageCaught(data, f, b, false);
      }
    }
  }

  /** What standard framing reads of a packet whose EXT flag has been heard as 0. */
  function AsStandard(data: Wire): Wire
    requires |data| >= STD_LEN
  {
    data[..STD_LEN][0 := WithBit(data[0], 4, false)]
  }

  lemma {:induction false} AllCountersWrong(values: Bits, n: nat)
    requires FRAME_LOGICAL_BITS * n <= |values| && n <= STD_LEN
    requires forall g :: 0 <= g < n ==> FrameCounter(values, g) == ExpectedIndex(true, g)
    ensures WrongCounters(values, n, false) == if n == 0 then 0 else n - 1
  {
    hide FrameCounter;
    if n > 0 {
      AllCountersWrong(values, n - 1);
    }
  }

  lemma HopsKept(x: byte)
    ensures HopsLegal(WithBit(x, 4, false)) == HopsLegal(x)
  {
  }

  /** Framed as standard, an extended packet has 12 wrong counters, which no repair can mend. */
  lemma LostKind(bits: Bits, pos: nat, data: Wire, second: bool, timestamp: Option<real>, limits: Limits)
    requires OneWrong(bits, pos, data, 0, 4, second) && Extended(data) && HopsLegal(data[0])
    ensures |data| >= STD_LEN
    ensures var r := Recovery(bits, Hard(bits), pos, timestamp, limits);
            (r.Some? <==> limits.maxIndexErrors >= STD_LEN - 1 && CrcsPass(AsStandard(data), false)) &&
            (r.Some? ==> r.value.packet.data == AsStandard(data) && r.value.corrected == 0)
  {
    hide AllValues, AllConf, AllIllegal, Hard, OneWrong, ReadsExtended, CrcsPass, HopsLegal, ReadWith, WithBit, Repair,
         HasExt, FrameCounter, FlipSet, WrongCounters;
    FramesInside(bits, pos, data, 0, 4, second);
    KindRead(bits, pos, data, 0, 4, second);
    CaptureReadsWith(bits, pos, data, 0, 4, second, STD_LEN);
    var values := AllValues(Hard(bits), pos + MARKER_OFFSET, STD_LEN);
    var conf := AllConf(Hard(bits), pos + MARKER_OFFSET, STD_LEN);
    BytesReadWith(values, data, 0, 4, false, STD_LEN);
    AllCountersWrong(values, STD_LEN);
    HopsKept(data[0]);
    if Repair(values, conf, STD_LEN, false, limits.maxFlips, limits.candidates).Some? {
      RepairNeedsCleanCounters(values, conf, STD_LEN, false, limits.maxFlips, limits.candidates);
    }
  }

  // ------------------------------------------------------------------ a packet recovered as the wrong kind

  /** A standard packet whose CRC byte is wrong, and the extended-looking one a single flip makes of it. */
  const NOT_A_PACKET: Wire := [0, 0, 0, 0, 0, 0, 0, 0, 0, 1, 0, 0, 0x10]
  const WRONG_KIND: Wire := [0x10, 0, 0, 0, 0, 0, 0, 0, 0, 1, 0, 0, 0x10]

  lemma WrongKindCrcs()
    ensures !CrcsPass(NOT_A_PACKET, false) && CrcsPass(WRONG_KIND, false)
    ensures With(NOT_A_PACKET, 0, 4, false) == NOT_A_PACKET && With(NOT_A_PACKET, 0, 4, true) == WRONG_KIND
  {
    CrcOfWrongKind();
    CrcAlgebra.CrcOfZeros(NOT_A_PACKET[..9]);
    hide CrcFrom, CrcReduce;
    assert WithBit(0, 4, false) == 0 && WithBit(0, 4, true) == 0x10;
    assert CrcBody(WRONG_KIND) == WRONG_KIND;
  }

  /** The CRC register after k bytes of the second. */
  function RegisterAfter(k: nat): byte {
    if k == 0 then 0 else if k <= 9 then 0x10 else if k == 10 || k == 12 then 0x21 else if k == 11 then 0x11 else 1
  }

  lemma RegisterStep(k: nat)
    requires k < STD_LEN
    ensures CrcStep(RegisterAfter(k), WRONG_KIND[k]) == RegisterAfter(k + 1)
  {
    assert WRONG_KIND[k] == if k == 0 || k == 12 then 0x10 else if k == 9 then 1 else 0;
    assert CrcReduce(0x10) == 0x10 && CrcReduce(0x11) == 0x21 && CrcReduce(0x21) == 0x11 && CrcReduce(0x31) == 1;
    assert 0 as byte ^ 0x10 == 0x10 && 0x10 as byte ^ 0 == 0x10 && 0x10 as byte ^ 1 == 0x11;
    assert 0x21 as byte ^ 0 == 0x21 && 0x11 as byte ^ 0 == 0x11 && 0x21 as byte ^ 0x10 == 0x31;
  }

  lemma CrcOfWrongKind()
    ensures CrcFrom(0, WRONG_KIND) == 1
  {
    hide CrcStep;
    var d: seq<byte> := WRONG_KIND;
    for k := 0 to STD_LEN
      invariant CrcFrom(0, d[..k]) == RegisterAfter(k)
    {
      RegisterStep(k);
      assert d[..k + 1] == d[..k] + [d[k]];
      CrcAppend(0, d[..k], d[k]);
    }
    assert d[..STD_LEN] == d;
  }

  /**
   * Repair can turn a copy into a packet of the other kind. However long the capture and wherever the copy stands in it:
   * framed as standard, with the one doubtful bit the EXT flag, it passes as standard once that flag is set, and the
   * packet then reads as extended, so that its own CRC property does not hold.
   */
  lemma RecoveredAsTheWrongKind(bits: Bits, pos: nat, second: bool, timestamp: Option<real>, limits: Limits)
    requires OneWrong(bits, pos, NOT_A_PACKET, 0, 4, second)
    requires limits.repair && limits.maxFlips > 0 && limits.candidates > 0
    ensures var r := Recovery(bits, Hard(bits), pos, timestamp, limits);
            r.Some? && r.value.corrected == 1 && r.value.packet.data == WRONG_KIND && !r.value.packet.Verified()
  {
    hide CrcsPass, OneWrong, Recovery, NOT_A_PACKET, WRONG_KIND, With;
    WrongKindFacts();
    WrongKindCrcs();
    DamagedRecovery(bits, pos, NOT_A_PACKET, 0, 4, second, timestamp, limits);
  }

  lemma WrongKindFacts()
    ensures !Extended(NOT_A_PACKET) && HopsLegal(WRONG_KIND[0]) && Extended(WRONG_KIND) && |WRONG_KIND| == STD_LEN == |NOT_A_PACKET|
  {
  }

  /** Such a capture exists: a header, the packet's own symbols, and one of them wrong. */
  lemma WrongKindIsHeard() returns (bits: Bits)
    ensures HeaderAt(bits, 15) && OneWrong(bits, 15, NOT_A_PACKET, 0, 4, false)
  {
    hide NOT_A_PACKET, PacketBits;
    WrongKindFacts();
    var sent := PacketBits(NOT_A_PACKET);
    RoundTrip.HeaderOfPacket(NOT_A_PACKET, []);
    assert sent + [] == sent;
    var at := 15 + PairOf(0, 4);
    bits := sent[at := !sent[at]];
    assert bits[15..31] == sent[15..31];
    assert bits[15..15 + |OnAir(NOT_A_PACKET)|] == OnAir(NOT_A_PACKET)[PairOf(0, 4) := !OnAir(NOT_A_PACKET)[PairOf(0, 4)]];
  }

  // ------------------------------------------------------------------ frames up to a break

  /** Frames g, g+1, .. of a packet stand from `first` on, up to the m-th, where no frame can be read. */
  ghost predicate FramesStand(bits: Bits, first: nat, data: Wire, m: nat) {
    Encodable(data) && m < FullLength(data) && m <= |data| && first + FRAME_BITS * m <= |bits| &&
    bits[first..first + FRAME_BITS * m] == FramesPrefix(data, m) && !FrameAt(bits, first + FRAME_BITS * m)
  }

  lemma SliceOfSlice(s: Bits, first: nat, n: nat, lo: nat, k: nat)
    requires first + n <= |s| && lo + k <= n
    ensures s[first..first + n][lo..lo + k] == s[first + lo..first + lo + k]
  {
    var inner, direct := s[first..first + n][lo..lo + k], s[first + lo..first + lo + k];
    forall i | 0 <= i < k ensures inner[i] == direct[i] {
    }
  }

  lemma StandingFrame(bits: Bits, first: nat, data: Wire, m: nat, g: nat)
    requires FramesStand(bits, first, data, m) && g < m
    ensures FrameAt(bits, first + FRAME_BITS * g)
    ensures ReadFrame(bits, first + FRAME_BITS * g) == Frame(ExpectedIndex(Extended(data), g), data[g])
  {
    hide FramesPrefix, FrameBits, FrameAt, ReadFrame;
    RoundTrip.FrameInPrefix(data, m, g);
    var at := first + FRAME_BITS * g;
    SliceOfSlice(bits, first, FRAME_BITS * m, FRAME_BITS * g, FRAME_BITS);
    RoundTrip.FrameReads(bits, at, ExpectedIndex(Extended(data), g), data[g]);
  }

  /** These frames are the n packet frames from g on. */
  ghost predicate AsSent(frames: seq<Frame>, data: Wire, g: nat, n: nat) {
    |frames| == n && g + n <= |data| &&
    forall k: nat :: k < n ==> frames[k].index == ExpectedIndex(Extended(data), g + k) && frames[k].data == data[g + k]
  }

  lemma OneMoreFrame(bits: Bits, i: nat, data: Wire, g: nat, n: nat)
    requires FrameAt(bits, i) && g + 1 < FullLength(data) && g < |data|
    requires ReadFrame(bits, i) == Frame(ExpectedIndex(Extended(data), g), data[g])
    requires AsSent(Frames(bits, i + FRAME_BITS), data, g + 1, n)
    ensures AsSent(Frames(bits, i), data, g, n + 1)
  {
    hide FrameAt, ReadFrame, HasExt;
    assert Frames(bits, i) == [ReadFrame(bits, i)] + Frames(bits, i + FRAME_BITS);
    SentBefore(ReadFrame(bits, i), Frames(bits, i + FRAME_BITS), data, g, n);
  }

  lemma SentBefore(frame: Frame, rest: seq<Frame>, data: Wire, g: nat, n: nat)
    requires g < |data| && frame.index == ExpectedIndex(Extended(data), g) && frame.data == data[g]
    requires AsSent(rest, data, g + 1, n)
    ensures AsSent([frame] + rest, data, g, n + 1)
  {
    hide ExpectedIndex, HasExt;
    var all := [frame] + rest;
    forall k: nat | k < n + 1 ensures all[k].index == ExpectedIndex(Extended(data), g + k) && all[k].data == data[g + k] {
      if k > 0 {
        assert rest[k - 1].index == ExpectedIndex(Extended(data), g + 1 + (k - 1));
      }
    }
  }

  /** The decoder reads just those. */
  lemma {:induction false} ReadsToTheBreak(bits: Bits, first: nat, data: Wire, m: nat, g: nat)
    requires FramesStand(bits, first, data, m) && g <= m
    ensures AsSent(Frames(bits, first + FRAME_BITS * g), data, g, m - g)
    decreases m - g
  {
    hide FramesPrefix, FrameAt, ReadFrame, FramesStand, FullLength;
    BreakAt(bits, first, data, m);
    if g < m {
      hide Frames, ExpectedIndex, AsSent;
      StandingFrame(bits, first, data, m, g);
      ReadsToTheBreak(bits, first, data, m, g + 1);
      OneMoreFrame(bits, first + FRAME_BITS * g, data, g, m - g - 1);
    }
  }

  lemma BreakAt(bits: Bits, first: nat, data: Wire, m: nat)
    requires FramesStand(bits, first, data, m)
    ensures !FrameAt(bits, first + FRAME_BITS * m) && m < FullLength(data) && m <= |data| && Encodable(data)
  {
  }

  /** What the hard decoder makes of it: the bytes before the break. Short of its CRC byte, such a packet never verifies. */
  lemma PacketToTheBreak(bits: Bits, pos: nat, data: Wire, m: nat, timestamp: Option<real>)
    requires FramesStand(bits, pos + MARKER_OFFSET, data, m) && 0 < m
    ensures |Frames(bits, pos + MARKER_OFFSET)| == m <= |data|
    ensures PacketAt(bits, pos, timestamp).data == data[..m]
    ensures m <= CrcIndex(data) ==> PacketAt(bits, pos, timestamp).CrcOk().None?
  {
    hide FramesStand, HasExt, IndexesOk, PacketCrc;
    BreakAt(bits, pos + MARKER_OFFSET, data, m);
    ReadsToTheBreak(bits, pos + MARKER_OFFSET, data, m, 0);
    assert PacketAt(bits, pos, timestamp).data == data[..m];
  }

  lemma OnAirFrames(data: Wire, m: nat)
    requires Encodable(data) && m <= |data|
    ensures OnAir(data)[MARKER_OFFSET..MARKER_OFFSET + FRAME_BITS * m] == FramesPrefix(data, m)
  {
    hide Idle;
    PrefixOfPrefix(data, m, |data|);
    hide FramesPrefix;
    var all := FramesPrefix(data, |data|);
    MiddlePart(Idle(PREAMBLE_SYMBOLS), all, Idle(TRAILER_SYMBOLS + PadSymbols(|data|)), MARKER_OFFSET, FRAME_BITS * m);
  }

  lemma MiddlePart(front: Bits, middle: Bits, back: Bits, lead: nat, n: nat)
    requires lead <= |front| && n <= |middle|
    ensures (front + middle + back)[|front| - lead..|front| + |middle|][lead..lead + n] == middle[..n]
  {
  }

  lemma {:induction false} PrefixOfPrefix(data: Wire, m: nat, n: nat)
    requires Encodable(data) && m <= n <= |data|
    ensures FramesPrefix(data, n)[..FRAME_BITS * m] == FramesPrefix(data, m)
  {
    hide FrameBits;
    if m < n {
      PrefixOfPrefix(data, m, n - 1);
    }
  }

  /** With one symbol wrong the decoder stops at its frame. */
  lemma WrongSymbolBreaks(bits: Bits, pos: nat, data: Wire, f: nat, b: nat, second: bool)
    requires OneWrong(bits, pos, data, f, b, second)
    ensures FramesStand(bits, pos + MARKER_OFFSET, data, f)
  {
    hide PacketBits, FramesPrefix, FrameAt, OnAir, FullLength;
    WrongFrame(bits, pos, data, f, b, second);
    OnAirFrames(data, f);
    SameBefore(bits, pos, OnAir(data), PairOf(f, b) + if second then 1 else 0, MARKER_OFFSET + FRAME_BITS * f);
    SameInside(bits, pos, OnAir(data), MARKER_OFFSET, MARKER_OFFSET + FRAME_BITS * f);
  }

  lemma SameBefore(bits: Bits, pos: nat, air: Bits, at: nat, n: nat)
    requires n <= at < |air| && pos + |air| <= |bits| && bits[pos..pos + |air|] == air[at := !air[at]]
    ensures bits[pos..pos + n] == air[..n]
  {
    assert bits[pos..pos + n] == bits[pos..pos + |air|][..n];
  }

  lemma SameInside(bits: Bits, pos: nat, air: Bits, lead: nat, n: nat)
    requires lead <= n <= |air| && pos + n <= |bits| && bits[pos..pos + n] == air[..n]
    ensures bits[pos + lead..pos + n] == air[lead..n]
  {
    assert bits[pos + lead..pos + n] == bits[pos..pos + n][lead..];
    assert air[lead..n] == air[..n][lead..];
  }

  lemma WrongFrame(bits: Bits, pos: nat, data: Wire, f: nat, b: nat, second: bool)
    requires OneWrong(bits, pos, data, f, b, second)
    ensures !FrameAt(bits, pos + MARKER_OFFSET + FRAME_BITS * f)
  {
    hide PacketBits, OnAir, OneWrong;
    FramesInside(bits, pos, data, f, b, second);
    var i := pos + MARKER_OFFSET + FRAME_BITS * f;
    PairSent(data, f, FRAME_INDEX_BITS + b);
    DamagedSymbol(bits, pos, data, f, b, second, FRAME_BITS * f + 12 + 2 * b);
    DamagedSymbol(bits, pos, data, f, b, second, FRAME_BITS * f + 13 + 2 * b);
    var frame := bits[i + 2..i + FRAME_BITS];
    assert frame[2 * (FRAME_INDEX_BITS + b)] == bits[i + 12 + 2 * b] && frame[2 * (FRAME_INDEX_BITS + b) + 1] == bits[i + 13 + 2 * b];
    assert !LegalPair(frame, FRAME_INDEX_BITS + b);
  }

  // ------------------------------------------------------------------ a capture cut short

  /** A capture that ends after m frames of the packet at `pos`. */
  ghost predicate CutShort(bits: Bits, pos: nat, data: Wire, m: nat) {
    Encodable(data) && 0 < m < FullLength(data) && m <= |data| && |bits| == pos + MARKER_OFFSET + FRAME_BITS * m &&
    bits[pos..] == OnAir(data)[..MARKER_OFFSET + FRAME_BITS * m]
  }

  lemma CutShortBreaks(bits: Bits, pos: nat, data: Wire, m: nat)
    requires CutShort(bits, pos, data, m)
    ensures FramesStand(bits, pos + MARKER_OFFSET, data, m)
  {
    hide OnAir, FramesPrefix;
    OnAirFrames(data, m);
    assert bits[pos + MARKER_OFFSET..pos + MARKER_OFFSET + FRAME_BITS * m] == bits[pos..][MARKER_OFFSET..MARKER_OFFSET + FRAME_BITS * m];
  }

  /** Cut before its CRC byte, it cannot be recovered, whatever is flipped. */
  lemma CutShortIsLost(bits: Bits, pos: nat, data: Wire, m: nat, timestamp: Option<real>, limits: Limits)
    requires CutShort(bits, pos, data, m) && m <= CrcIndex(data)
    ensures Recovery(bits, Hard(bits), pos, timestamp, limits).None?
  {
    hide OnAir, FramesPrefix, AllValues, AllConf, AllIllegal, HasExt, Frames, ReadsExtended, WrongCounters, Suspects,
         PacketCrc, ExtCrc, Repair, FrameAt;
    var first := pos + MARKER_OFFSET;
    CutShortBreaks(bits, pos, data, m);
    ReadsToTheBreak(bits, first, data, m, 0);
    SoftReadsFrames(bits, first, 1);
    FirstFrame(Hard(bits), first);
    var n := Min(KindLength(Extended(data)), m);
    assert WholeFrames(|bits|, first) == m;
    if Repair(AllValues(Hard(bits), first, n), AllConf(Hard(bits), first, n), n, Extended(data), limits.maxFlips, limits.candidates).Some? {
      var found := RepairExact(AllValues(Hard(bits), first, n), AllConf(Hard(bits), first, n), n, Extended(data), limits.maxFlips, limits.candidates);
      RepairedPasses(FlipSet(AllValues(Hard(bits), first, n), found), n, Extended(data));
      assert false;
    }
  }

  // ------------------------------------------------------------------ a wrong symbol loudly heard

  function Signed(one: bool, x: real): real { if one then x else -x }

  /** Faint everywhere but at one pair, whose second symbol is wrong and louder still than its first. */
  function LoudSoft(sent: Bits, at: nat): (r: Soft)
    requires at + 1 < |sent|
    ensures |r| == |sent|
  {
    seq(|sent|, i requires 0 <= i < |sent| =>
      if i == at then Signed(sent[at], 0.98) else if i == at + 1 then Signed(sent[at], 1.0) else Signed(sent[i], 0.01))
  }

  /** A packet from its header to the end of its trailer. */
  function Heard(data: Wire): (r: Bits)
    requires Encodable(data)
    ensures |r| == |PacketBits(data)| - 15 && |r| >= |OnAir(data)| + 96
  {
    PacketBits(data)[15..]
  }

  /** What the hard decisions of such a capture are. */
  function LoudBits(data: Wire, f: nat, b: nat): (r: Bits)
    requires Encodable(data) && f < |data| && b < 8
    ensures |r| == |Heard(data)|
  {
    Heard(data)[PairOf(f, b) + 1 := !Heard(data)[PairOf(f, b) + 1]]
  }

  lemma LoudIsWrong(data: Wire, f: nat, b: nat)
    requires Encodable(data) && |data| == FullLength(data) && f < |data| && b < 8
    ensures OneWrong(LoudBits(data, f, b), 0, data, f, b, true)
  {
    OnAirIsHeard(data);
    hide OnAir, Heard, FullLength;
    UpdateBefore(Heard(data), |OnAir(data)|, PairOf(f, b) + 1, !Heard(data)[PairOf(f, b) + 1]);
  }

  /** What is on the air is what is heard, up to the trailer. */
  lemma OnAirIsHeard(data: Wire)
    requires Encodable(data)
    ensures OnAir(data) == Heard(data)[..|OnAir(data)|]
  {
    hide PacketBits;
    assert OnAir(data) == PacketBits(data)[15..15 + |OnAir(data)|];
    assert Heard(data) == PacketBits(data)[15..];
    hide OnAir, Heard;
    SliceTwice(PacketBits(data), 15, |OnAir(data)|);
  }

  lemma SliceTwice(s: Bits, from: nat, n: nat)
    requires from + n <= |s|
    ensures s[from..][..n] == s[from..from + n]
  {
  }

  lemma UpdateBefore(s: Bits, n: nat, at: nat, v: bool)
    requires at < n <= |s|
    ensures s[at := v][0..0 + n] == s[..n][at := v] && s[..n][at] == s[at]
  {
  }

  /** A pair of the packet as it was sent, and its soft value with the loud symbol. */
  lemma LoudPair(data: Wire, f: nat, b: nat, g: nat, j: nat)
    requires Encodable(data) && f < |data| && b < 8 && g < |data| && j < FRAME_LOGICAL_BITS
    ensures var sym := LoudSoft(Heard(data), PairOf(f, b));
            var a := FrameBase(MARKER_OFFSET, g) + 2 * j;
            a + 1 < |sym| && Abs(Likelihood(sym, a)) == 0.02 &&
            (Likelihood(sym, a) > 0.0 <==> (Sent(data, g)[j] != (FRAME_LOGICAL_BITS * g + j == Position(f, b))))
  {
    hide PacketBits, Sent;
    PairSent(data, g, j);
    var sent := Heard(data);
    var a := FrameBase(MARKER_OFFSET, g) + 2 * j;
    assert sent[a] == PacketBits(data)[15 + a] && sent[a + 1] == PacketBits(data)[15 + (a + 1)];
    assert a == PairOf(f, b) <==> FRAME_LOGICAL_BITS * g + j == Position(f, b);
  }

  lemma FlatMedian(xs: seq<real>, c: real)
    requires xs != [] && forall i :: 0 <= i < |xs| ==> xs[i] == c
    ensures Median(xs) == c
  {
    SortOfSorted(xs, (x: real) => x);
  }

  /** With one confidence throughout, nothing is suspect. */
  lemma NoSuspects(conf: seq<real>, n: nat, c: real, candidates: nat)
    requires n > 0 && |conf| == FRAME_LOGICAL_BITS * n && c > 0.0 && forall i :: 0 <= i < |conf| ==> conf[i] == c
    ensures Suspects(conf, n, candidates) == []
  {
    hide Median;
    var at := DataPositions(n);
    FlatMedian(DataConf(conf, n), c);
    hide Suspects, DataPositions;
    LeastSureOfThem(conf, n, candidates);
    var s := Suspects(conf, n, candidates);
    assert Elements(s) == {};
    DistinctCard(s);
  }

  /** The pair reads as its opposite, as sure as every other bit; so the CRC fails and there is nothing to flip. */
  lemma LoudIsLost(data: Wire, f: nat, b: nat, timestamp: Option<real>, limits: Limits)
    requires Encodable(data) && |data| == FullLength(data) && f < |data| && b < 8
    requires Passes(data) && 0 < f <= CrcIndex(data)
    ensures Recovery(LoudBits(data, f, b), LoudSoft(Heard(data), PairOf(f, b)), 0, timestamp, limits).None?
  {
    hide AllValues, AllConf, AllIllegal, PacketBits, Heard, LoudSoft, CrcsPass, Repair, WrongCounters, FrameByte,
         FrameCounter, HopsLegal, HasExt, ReadWith, ReadsExtended, WithBit, ByteBits;
    var sym := LoudSoft(Heard(data), PairOf(f, b));
    var n, v := |data|, !ByteBits(data[f])[b];
    LoudReads(data, f, b, n);
    LoudReads(data, f, b, 1);
    var values, conf := AllValues(sym, MARKER_OFFSET, n), AllConf(sym, MARKER_OFFSET, n);
    BytesReadWith(values, data, f, b, v, n);
    CountersRight(values, n, Extended(data));
    assert data[..n] == data;
    DamageCaught(data, f, b, v);
    LoudKind(data, f, b);
    NoSuspects(conf, n, 0.02, limits.candidates);
    NothingToFlip(values, conf, n, Extended(data), limits.maxFlips, limits.candidates);
  }

  lemma LoudReads(data: Wire, f: nat, b: nat, n: nat)
    requires Encodable(data) && f < |data| && b < 8 && n <= |data|
    ensures n <= WholeFrames(|Heard(data)|, MARKER_OFFSET)
    ensures var sym := LoudSoft(Heard(data), PairOf(f, b));
            ReadWith(AllValues(sym, MARKER_OFFSET, n), data, f, b, !ByteBits(data[f])[b], n) &&
            forall i :: 0 <= i < |AllConf(sym, MARKER_OFFSET, n)| ==> AllConf(sym, MARKER_OFFSET, n)[i] == 0.02
  {
    hide AllValues, AllConf, PacketBits, SentWith, Heard, LoudSoft, Likelihood, Abs, ByteBits;
    var sym, v := LoudSoft(Heard(data), PairOf(f, b)), !ByteBits(data[f])[b];
    var values, conf := AllValues(sym, MARKER_OFFSET, n), AllConf(sym, MARKER_OFFSET, n);
    forall g | 0 <= g < n
      ensures values[FRAME_LOGICAL_BITS * g..FRAME_LOGICAL_BITS * (g + 1)] == SentWith(data, f, b, v, g)
    {
      forall j | 0 <= j < FRAME_LOGICAL_BITS
        ensures values[FRAME_LOGICAL_BITS * g + j] == SentWith(data, f, b, v, g)[j]
      {
        LoudReadsAt(data, f, b, n, g, j);
      }
    }
    forall i | 0 <= i < |conf| ensures conf[i] == 0.02 {
      LoudReadsAt(data, f, b, n, i / FRAME_LOGICAL_BITS, i % FRAME_LOGICAL_BITS);
    }
  }

  lemma LoudReadsAt(data: Wire, f: nat, b: nat, n: nat, g: nat, j: nat)
    requires Encodable(data) && f < |data| && b < 8 && g < n <= |data| && j < FRAME_LOGICAL_BITS
    ensures n <= WholeFrames(|Heard(data)|, MARKER_OFFSET)
    ensures var sym, at := LoudSoft(Heard(data), PairOf(f, b)), FRAME_LOGICAL_BITS * g + j;
            AllValues(sym, MARKER_OFFSET, n)[at] == SentWith(data, f, b, !ByteBits(data[f])[b], g)[j] &&
            AllConf(sym, MARKER_OFFSET, n)[at] == 0.02
  {
    hide AllValues, AllConf, PacketBits, Sent, Heard, LoudSoft, Likelihood, Abs, ByteBits;
    var sym := LoudSoft(Heard(data), PairOf(f, b));
    SentBit(data, f, b);
    ValuesAt(sym, MARKER_OFFSET, n, g, j);
    LoudPair(data, f, b, g, j);
    SamePosition(f, b, g, j);
  }

  lemma SamePosition(f: nat, b: nat, g: nat, j: nat)
    requires b < 8 && j < FRAME_LOGICAL_BITS
    ensures FRAME_LOGICAL_BITS * g + j == Position(f, b) <==> g == f && j == FRAME_INDEX_BITS + b
  {
  }

  lemma SentBit(data: Wire, f: nat, b: nat)
    requires Encodable(data) && f < |data| && b < 8
    ensures Sent(data, f)[FRAME_INDEX_BITS + b] == ByteBits(data[f])[b]
  {
    hide IndexBits, ByteBits;
  }

  lemma LoudKind(data: Wire, f: nat, b: nat)
    requires Encodable(data) && 0 < f < |data| && b < 8
    ensures WholeFrames(|Heard(data)|, MARKER_OFFSET) > 0
    ensures ReadsExtended(LoudSoft(Heard(data), PairOf(f, b)), MARKER_OFFSET) == Extended(data)
  {
    hide AllValues, AllConf, PacketBits, Heard, LoudSoft, ReadsExtended, FrameByte, HasExt, WithBit, ByteBits, ReadWith;
    var sym := LoudSoft(Heard(data), PairOf(f, b));
    LoudReads(data, f, b, 1);
    FirstFrame(sym, MARKER_OFFSET);
    FrameReadWith(AllValues(sym, MARKER_OFFSET, 1), data, f, b, !ByteBits(data[f])[b], 1, 0);
    LengthReadWith(AllValues(sym, MARKER_OFFSET, 1), data, f, b, !ByteBits(data[f])[b], 1);
  }

  lemma NothingToFlip(values: Bits, conf: seq<real>, n: nat, extended: bool, maxFlips: nat, candidates: nat)
    requires n > 0 && |values| == |conf| == FRAME_LOGICAL_BITS * n && Suspects(conf, n, candidates) == []
    ensures Repair(values, conf, n, extended, maxFlips, candidates).None?
  {
    hide Repaired, Suspects, FlipSet, Repair;
    var found := RepairExact(values, conf, n, extended, maxFlips, candidates);
    forall at ensures !MendedBy(values, conf, n, extended, maxFlips, candidates, at) {
      assert at <= Elements([]) ==> |at| == 0 by {
        assert at <= Elements([]) ==> at == {};
      }
    }
  }
}
