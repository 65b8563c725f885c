/** What repair and soft framing promise. */
module RecoverProofs {
  import opened Common
  import opened Manchester
  import opened Packets
  import opened Framing
  import opened FlipSearch
  import opened Recover

  // ------------------------------------------------------------------ repair: sound, complete, minimal

  /** Flipping this set of suspects makes the CRCs pass with every counter right. */
  ghost predicate MendedBy(values: Bits, conf: seq<real>, nframes: nat, extended: bool, maxFlips: nat, candidates: nat, at: set<nat>)
    requires nframes > 0 && |values| == |conf| == FRAME_LOGICAL_BITS * nframes
  {
    at <= Elements(Suspects(conf, nframes, candidates)) && 1 <= |at| <= maxFlips &&
    Repaired(FlipSet(values, at), nframes, extended)
  }

  /** Repair succeeds exactly when some set of at most `maxFlips` suspects mends the copy; it uses a smallest one. */
  lemma RepairExact(values: Bits, conf: seq<real>, nframes: nat, extended: bool, maxFlips: nat, candidates: nat)
    returns (found: set<nat>)
    requires nframes > 0 && |values| == |conf| == FRAME_LOGICAL_BITS * nframes
    ensures var hit := Repair(values, conf, nframes, extended, maxFlips, candidates);
            (hit.Some? <==> exists at :: MendedBy(values, conf, nframes, extended, maxFlips, candidates, at)) &&
            (hit.Some? ==>
               MendedBy(values, conf, nframes, extended, maxFlips, candidates, found) &&
               hit.value == Hit(FlipSet(values, found), |found|) &&
               forall at :: MendedBy(values, conf, nframes, extended, maxFlips, candidates, at) ==> |found| <= |at|)
  {
    hide Repaired, Suspects, FlipSet, Search;
    var accept := (t: Bits) => Repaired(t, nframes, extended);
    var suspects := Suspects(conf, nframes, candidates);
    LeastSureOfThem(conf, nframes, candidates);
    found := SearchExact(values, suspects, maxFlips, accept);
    assert forall at :: MendedBy(values, conf, nframes, extended, maxFlips, candidates, at) <==>
                        Repairs(values, suspects, maxFlips, accept, at);
  }

  ghost predicate DataOnly(at: set<nat>) {
    forall p :: p in at ==> p % FRAME_LOGICAL_BITS >= FRAME_INDEX_BITS
  }

  /** Flipping data bits leaves every frame counter as it was. */
  lemma {:induction false} FlipsKeepCounters(values: Bits, at: set<nat>, n: nat, extended: bool)
    requires FRAME_LOGICAL_BITS * n <= |values| && DataOnly(at)
    ensures WrongCounters(FlipSet(values, at), n, extended) == WrongCounters(values, n, extended)
  {
    hide IndexValue;
    if n > 0 {
      FlipsKeepCounters(values, at, n - 1, extended);
      var base := FRAME_LOGICAL_BITS * (n - 1);
      assert FlipSet(values, at)[base..base + FRAME_INDEX_BITS] == values[base..base + FRAME_INDEX_BITS];
    }
  }

  /** So a repair can only succeed on a copy whose counters were already all right, and touches data bits alone. */
  lemma RepairNeedsCleanCounters(values: Bits, conf: seq<real>, nframes: nat, extended: bool, maxFlips: nat,
                                 candidates: nat)
    requires 0 < nframes <= KindLength(extended) && |values| == |conf| == FRAME_LOGICAL_BITS * nframes
    requires Repair(values, conf, nframes, extended, maxFlips, candidates).Some?
    ensures WrongCounters(values, nframes, extended) == 0
    ensures var mended := Repair(values, conf, nframes, extended, maxFlips, candidates).value.bits;
            |mended| == |values| &&
            forall p | 0 <= p < |values| && p % FRAME_LOGICAL_BITS < FRAME_INDEX_BITS :: mended[p] == values[p]
  {
    hide WrongCounters, CrcsPass, BytesFrom, Suspects;
    var found := RepairExact(values, conf, nframes, extended, maxFlips, candidates);
    LeastSureOfThem(conf, nframes, candidates);
    forall p | p in found ensures p % FRAME_LOGICAL_BITS >= FRAME_INDEX_BITS {
      assert p in DataPositions(nframes);
    }
    FlipsKeepCounters(values, found, nframes, extended);
    assert Repaired(FlipSet(values, found), nframes, extended);
  }

  // ------------------------------------------------------------------ what a recovered packet is

  lemma ExtendedSums(data: Wire)
    ensures CrcsPass(data, true) ==> SumsRight(data)
  {
    hide PacketCrc, ExtCrc, SumsRight;
    if |data| > EXT_DATA_CRC_INDEX {
      ExtCrcExact(data);
    }
  }

  /**
   * Every recovered packet has legal hops, passing CRCs for the kind it was framed as, its data bytes adding up if that is
   * the extended one, and counters within the limit.
   */
  lemma RecoverySound(bits: Bits, sym: Soft, pos: nat, timestamp: Option<real>, limits: Limits)
    requires |sym| == |bits| && Recovery(bits, sym, pos, timestamp, limits).Some?
    ensures var r := Recovery(bits, sym, pos, timestamp, limits).value;
            WholeFrames(|sym|, pos + MARKER_OFFSET) > 0 &&
            var extended := ReadsExtended(sym, pos + MARKER_OFFSET);
            r.packet.HopsOk() && CrcsPass(r.packet.data, extended) && |r.packet.data| <= KindLength(extended) &&
            (extended ==> SumsRight(r.packet.data)) &&
            r.packet.corrected == r.corrected <= limits.maxFlips && r.packet.indexOk == Some(true) &&
            r.indexErrors <= limits.maxIndexErrors &&
            var n := |r.packet.data|;
            n <= WholeFrames(|sym|, pos + MARKER_OFFSET) &&
            var values := AllValues(sym, pos + MARKER_OFFSET, n);
            r.indexErrors == WrongCounters(values, n, extended) &&
            (r.corrected > 0 ==> limits.repair && r.indexErrors == 0) &&
            (r.corrected == 0 ==> r.packet.data == BytesFrom(values, n))
  {
    hide AllValues, AllConf, WrongCounters, CrcsPass, FrameByte, Repair, HasExt, HopsLegal, LogicalAt, SumsRight;
    var first := pos + MARKER_OFFSET;
    var extended := ReadsExtended(sym, first);
    var n := Min(KindLength(extended), WholeFrames(|sym|, first));
    var values, conf := AllValues(sym, first, n), AllConf(sym, first, n);
    ExtendedSums(Recovery(bits, sym, pos, timestamp, limits).value.packet.data);
    if !CrcsPass(BytesFrom(values, n), extended) {
      RepairNeedsCleanCounters(values, conf, n, extended, limits.maxFlips, limits.candidates);
      var found := RepairExact(values, conf, n, extended, limits.maxFlips, limits.candidates);
    }
  }

  lemma {:induction false} ValuesAt(sym: Soft, first: nat, n: nat, g: nat, j: nat)
    requires g < n <= WholeFrames(|sym|, first) && j < FRAME_LOGICAL_BITS
    ensures FRAME_LOGICAL_BITS * g + j < FRAME_LOGICAL_BITS * n && FrameBase(first, g) + 2 * j + 1 < |sym|
    ensures AllValues(sym, first, n)[FRAME_LOGICAL_BITS * g + j] == (Likelihood(sym, FrameBase(first, g) + 2 * j) > 0.0)
    ensures AllConf(sym, first, n)[FRAME_LOGICAL_BITS * g + j] == Abs(Likelihood(sym, FrameBase(first, g) + 2 * j))
  {
    hide Likelihood, Abs, IllegalPairs;
    if g < n - 1 {
      ValuesAt(sym, first, n - 1, g, j);
    }
  }

  /** Where the k-th pair of the frames stands, thirteen to a frame. */
  function PairPlace(first: nat, k: nat): nat { FrameBase(first, k / 13) + 2 * (k % 13) }

  /** The pairs among the first `most` whose two symbols have the same sign. */
  ghost function SameSigned(sym: Soft, first: nat, most: nat): set<nat> {
    set k: nat | k < most && PairPlace(first, k) + 1 < |sym| &&
                 ((sym[PairPlace(first, k)] > 0.0) == (sym[PairPlace(first, k) + 1] > 0.0))
  }

  lemma PlaceOfPair(first: nat, g: nat, j: nat)
    requires j < 13
    ensures PairPlace(first, 13 * g + j) == FrameBase(first, g) + 2 * j
  {
  }

  lemma NoPairsYet(sym: Soft, first: nat)
    ensures SameSigned(sym, first, 0) == {}
  {
  }

  lemma OneMorePair(sym: Soft, first: nat, k: nat)
    requires PairPlace(first, k) + 1 < |sym|
    ensures |SameSigned(sym, first, k + 1)| == |SameSigned(sym, first, k)| + if IllegalAt(sym, PairPlace(first, k)) then 1 else 0
  {
    hide PairPlace;
    assert SameSigned(sym, first, k + 1) == SameSigned(sym, first, k) + if IllegalAt(sym, PairPlace(first, k)) then {k} else {};
  }

  lemma {:induction false} SameSignedCounted(sym: Soft, first: nat, n: nat, m: nat)
    requires m <= 13 && (if m == 0 then n else n + 1) <= WholeFrames(|sym|, first)
    ensures |SameSigned(sym, first, 13 * n + m)| == AllIllegal(sym, first, n) + if m == 0 then 0 else IllegalPairs(sym, FrameBase(first, n), m)
    decreases n, m
  {
    hide IllegalAt, PairPlace, SameSigned;
    if m > 0 {
      SameSignedCounted(sym, first, n, m - 1);
      PlaceOfPair(first, n, m - 1);
      OneMorePair(sym, first, 13 * n + m - 1);
    } else if n > 0 {
      SameSignedCounted(sym, first, n - 1, 13);
    } else {
      NoPairsYet(sym, first);
    }
  }

  lemma RecoveredMeasures(bits: Bits, sym: Soft, pos: nat, timestamp: Option<real>, limits: Limits)
    requires |sym| == |bits| && Recovery(bits, sym, pos, timestamp, limits).Some?
    ensures var r, first := Recovery(bits, sym, pos, timestamp, limits).value, pos + MARKER_OFFSET;
            var n := |r.packet.data|;
            0 < n <= WholeFrames(|sym|, first) && r.manchesterErrors == AllIllegal(sym, first, n) &&
            r.minConfidence == Least(AllConf(sym, first, n))
  {
    hide AllValues, AllConf, AllIllegal, WrongCounters, CrcsPass, Repair, HopsLegal, ReadsExtended, Least, FrameByte;
  }

  lemma PairConfidence(sym: Soft, first: nat, n: nat, k: nat)
    requires n <= WholeFrames(|sym|, first) && k < 13 * n
    ensures PairPlace(first, k) + 1 < |sym| && AllConf(sym, first, n)[k] == Abs(Likelihood(sym, PairPlace(first, k)))
  {
    hide Likelihood, Abs, AllConf, AllValues;
    ValuesAt(sym, first, n, k / 13, k % 13);
    assert k == 13 * (k / 13) + k % 13;
  }

  /**
   * The measures that come with a recovered packet: how many pairs of the frames read have two symbols of the same sign,
   * and how far apart the two symbols of the least sure pair are.
   */
  lemma MeasuredExactly(bits: Bits, sym: Soft, pos: nat, timestamp: Option<real>, limits: Limits, k: nat)
    requires |sym| == |bits| && Recovery(bits, sym, pos, timestamp, limits).Some?
    ensures var r := Recovery(bits, sym, pos, timestamp, limits).value;
            var first, pairs := pos + MARKER_OFFSET, 13 * |r.packet.data|;
            r.manchesterErrors == |SameSigned(sym, first, pairs)| &&
            (k < pairs ==> PairPlace(first, k) + 1 < |sym| && r.minConfidence <= Abs(Likelihood(sym, PairPlace(first, k)))) &&
            exists i: nat :: i < pairs && PairPlace(first, i) + 1 < |sym| && r.minConfidence == Abs(Likelihood(sym, PairPlace(first, i)))
  {
    hide Recovery, Likelihood, Abs, AllConf, AllIllegal, PairPlace, SameSigned, WholeFrames;
    RecoveredMeasures(bits, sym, pos, timestamp, limits);
    var r, first := Recovery(bits, sym, pos, timestamp, limits).value, pos + MARKER_OFFSET;
    var n := |r.packet.data|;
    var conf := AllConf(sym, first, n);
    SameSignedCounted(sym, first, n, 0);
    var i: nat :| i < |conf| && conf[i] == Least(conf);
    PairConfidence(sym, first, n, i);
    if k < 13 * n {
      PairConfidence(sym, first, n, k);
      assert conf[k] in conf;
    }
  }

  /**
   * The kind was fixed before repair, while the packet's own CRC property re-reads the flags byte. The bytes verify
   * as a packet exactly when the EXT flag still says that kind, or an extended copy lost it and byte 9 happens to
   * equal the CRC byte.
   */
  lemma VerifiedExactlyWhen(pkt: Packet, extended: bool)
    requires CrcsPass(pkt.data, extended) && |pkt.data| <= KindLength(extended)
    ensures pkt.Verified() <==> pkt.Ext() == extended || (extended && pkt.data[STD_CRC_INDEX] == pkt.data[EXT_CRC_INDEX])
    ensures pkt.Ext() == extended ==> pkt.ExtCrcOk() == if extended then Some(true) else None
  {
    hide PacketCrc, ExtCrc, HasExt;
  }

  /** In logical bits the EXT flag is position 9: a repair that leaves it alone leaves the kind alone. */
  lemma KindChangesExactlyWhen(values: Bits, at: set<nat>, nframes: nat)
    requires nframes > 0 && |values| == FRAME_LOGICAL_BITS * nframes
    ensures Extended(BytesFrom(FlipSet(values, at), nframes)) != Extended(BytesFrom(values, nframes)) <==> 9 in at
  {
    ExtFlagBit(values, nframes);
    ExtFlagBit(FlipSet(values, at), nframes);
    hide BytesFrom, HasExt;
  }

  lemma ExtFlagBit(values: Bits, nframes: nat)
    requires nframes > 0 && |values| == FRAME_LOGICAL_BITS * nframes
    ensures Extended(BytesFrom(values, nframes)) <==> values[9]
  {
    var v := values[FRAME_INDEX_BITS..FRAME_LOGICAL_BITS];
    ByteBitsOfValue(v);
    assert ByteBits(ByteValue(v))[4] == v[4];
    hide ByteValue;
  }

  /** The recovered bytes are what framing read with these suspects flipped. */
  ghost predicate FlippedBy(sym: Soft, first: nat, limits: Limits, r: Recovered, found: set<nat>) {
    var n := |r.packet.data|;
    n <= WholeFrames(|sym|, first) && r.packet.data == BytesFrom(FlipSet(AllValues(sym, first, n), found), n) &&
    found <= Elements(Suspects(AllConf(sym, first, n), n, limits.candidates)) &&
    |found| == r.corrected && (found != {} ==> limits.repair)
  }

  /**
   * Which positions were flipped, and what that means for the packet's own CRC property: it holds exactly when the EXT
   * flag was not among them, or the copy was framed as extended and bytes 9 and 23 agree.
   */
  lemma RecoveredVerifiesExactlyWhen(bits: Bits, sym: Soft, pos: nat, timestamp: Option<real>, limits: Limits)
    returns (found: set<nat>)
    requires |sym| == |bits| && Recovery(bits, sym, pos, timestamp, limits).Some?
    ensures WholeFrames(|sym|, pos + MARKER_OFFSET) > 0
    ensures var r := Recovery(bits, sym, pos, timestamp, limits).value;
            FlippedBy(sym, pos + MARKER_OFFSET, limits, r, found) &&
            (r.packet.Verified() <==> 9 !in found || FramedLong(r.packet.data, ReadsExtended(sym, pos + MARKER_OFFSET)))
  {
    hide AllValues, AllConf, AllIllegal, WrongCounters, FrameByte, Repair, HopsLegal, LogicalAt, Suspects, PacketCrc,
         ExtCrc, HasExt, Repaired;
    var first := pos + MARKER_OFFSET;
    var extended := ReadsExtended(sym, first);
    var n := Min(KindLength(extended), WholeFrames(|sym|, first));
    var values := AllValues(sym, first, n);
    found := {};
    if CrcsPass(BytesFrom(values, n), extended) {
      assert FlipSet(values, {}) == values;
    } else {
      found := RepairExact(values, AllConf(sym, first, n), n, extended, limits.maxFlips, limits.candidates);
      RepairedPasses(FlipSet(values, found), n, extended);
    }
    KindChangesExactlyWhen(values, found, n);
    KindOfFrames(sym, first, n);
    VerifiedExactlyWhen(Recovery(bits, sym, pos, timestamp, limits).value.packet, extended);
  }

  /** Framed as extended, with bytes 9 and 23 alike. */
  predicate FramedLong(data: Wire, extended: bool) {
    extended && |data| > EXT_CRC_INDEX && data[STD_CRC_INDEX] == data[EXT_CRC_INDEX]
  }

  lemma RepairedPasses(trial: Bits, nframes: nat, extended: bool)
    requires Repaired(trial, nframes, extended)
    ensures FRAME_LOGICAL_BITS * nframes <= |trial| && CrcsPass(BytesFrom(trial, nframes), extended)
  {
  }

  lemma {:induction false} FirstFrameStays(sym: Soft, first: nat, n: nat)
    requires 0 < n <= WholeFrames(|sym|, first)
    ensures AllValues(sym, first, n)[..FRAME_LOGICAL_BITS] == LogicalAt(sym, first + 2, FRAME_LOGICAL_BITS).values
  {
    hide LogicalAt;
    if n > 1 {
      FirstFrameStays(sym, first, n - 1);
    } else {
      assert AllValues(sym, first, 1) == LogicalAt(sym, FrameBase(first, 0), FRAME_LOGICAL_BITS).values;
    }
  }

  /** The kind is read from the same frame as the first byte. */
  lemma KindOfFrames(sym: Soft, first: nat, n: nat)
    requires 0 < n <= WholeFrames(|sym|, first)
    ensures ReadsExtended(sym, first) == Extended(BytesFrom(AllValues(sym, first, n), n))
  {
    hide AllValues, LogicalAt, HasExt, ByteValue;
    FirstFrameStays(sym, first, n);
    var values, head := AllValues(sym, first, n), LogicalAt(sym, first + 2, FRAME_LOGICAL_BITS).values;
    assert values[FRAME_INDEX_BITS..FRAME_LOGICAL_BITS] == head[FRAME_INDEX_BITS..FRAME_LOGICAL_BITS];
  }

  /** What a caller can check beforehand: with repair off, or the EXT flag not in doubt, whatever comes back verifies. */
  lemma KindNotInDoubt(bits: Bits, sym: Soft, pos: nat, timestamp: Option<real>, limits: Limits)
    requires |sym| == |bits| && WholeFrames(|sym|, pos + MARKER_OFFSET) > 0
    requires var first := pos + MARKER_OFFSET;
             var n := Min(KindLength(ReadsExtended(sym, first)), WholeFrames(|sym|, first));
             !limits.repair || limits.maxFlips == 0 || 9 !in Suspects(AllConf(sym, first, n), n, limits.candidates)
    ensures var r := Recovery(bits, sym, pos, timestamp, limits); r.Some? ==> r.value.packet.Verified()
  {
    hide AllValues, AllConf, AllIllegal, WrongCounters, FrameByte, Repair, HopsLegal, LogicalAt, Suspects, PacketCrc,
         ExtCrc, HasExt, CrcsPass, Recovery, FlipSet;
    if Recovery(bits, sym, pos, timestamp, limits).Some? {
      var found := RecoveredVerifiesExactlyWhen(bits, sym, pos, timestamp, limits);
      RecoverySound(bits, sym, pos, timestamp, limits);
      FramesRecovered(bits, sym, pos, timestamp, limits);
    }
  }

  lemma FramesRecovered(bits: Bits, sym: Soft, pos: nat, timestamp: Option<real>, limits: Limits)
    requires |sym| == |bits| && Recovery(bits, sym, pos, timestamp, limits).Some?
    ensures var first := pos + MARKER_OFFSET;
            WholeFrames(|sym|, first) > 0 &&
            |Recovery(bits, sym, pos, timestamp, limits).value.packet.data| == Min(KindLength(ReadsExtended(sym, first)), WholeFrames(|sym|, first))
  {
    hide AllValues, AllConf, AllIllegal, WrongCounters, CrcsPass, FrameByte, Repair, HasExt, HopsLegal, LogicalAt;
  }

  // ------------------------------------------------------------------ hard bits

  lemma {:induction false} NoIllegalPairs(bits: Bits, start: nat, n: nat)
    requires start + 2 * n <= |bits|
    requires forall k :: 0 <= k < n ==> bits[start + 2 * k] != bits[start + 2 * k + 1]
    ensures IllegalPairs(Hard(bits), start, n) == 0
  {
    if n > 0 {
      NoIllegalPairs(bits, start, n - 1);
    }
  }

  /** On a legal frame of hard symbols the soft decision is the hard one. */
  lemma LogicalOfFrame(bits: Bits, i: nat)
    requires FrameAt(bits, i)
    ensures var l := LogicalAt(Hard(bits), i + 2, FRAME_LOGICAL_BITS);
            l.values == Decode(bits[i + 2..i + FRAME_BITS]) && l.illegal == 0
  {
    var symbols := bits[i + 2..i + FRAME_BITS];
    forall k | 0 <= k < FRAME_LOGICAL_BITS
      ensures bits[i + 2 + 2 * k] != bits[i + 2 + 2 * k + 1]
    {
      assert LegalPair(symbols, k);
    }
    NoIllegalPairs(bits, i + 2, FRAME_LOGICAL_BITS);
    hide IllegalPairs;
  }

  lemma {:induction false} FrameOfFrames(bits: Bits, i: nat, f: nat)
    requires f < |Frames(bits, i)|
    ensures FrameAt(bits, i + FRAME_BITS * f) && Frames(bits, i)[f] == ReadFrame(bits, i + FRAME_BITS * f)
    decreases f
  {
    hide ReadFrame, FrameAt;
    if f > 0 {
      FrameOfFrames(bits, i + FRAME_BITS, f - 1);
    }
  }

  /** The logical bits of a run of legal frames spell the bytes and counters the hard decoder read. */
  lemma {:induction false} SoftReadsFrames(bits: Bits, first: nat, n: nat)
    requires n <= |Frames(bits, first)|
    ensures n <= WholeFrames(|bits|, first) && AllIllegal(Hard(bits), first, n) == 0
    ensures var values := AllValues(Hard(bits), first, n);
            forall f :: 0 <= f < n ==> FrameByte(values, f) == Frames(bits, first)[f].data &&
                                       FrameCounter(values, f) == Frames(bits, first)[f].index
  {
    hide IndexValue, ByteValue, LegalPair, Likelihood, Abs, IllegalPairs, Frames;
    if n > 0 {
      SoftReadsFrames(bits, first, n - 1);
      FrameOfFrames(bits, first, n - 1);
      var base := FrameBase(first, n - 1);
      LogicalOfFrame(bits, base - 2);
      var before, values := AllValues(Hard(bits), first, n - 1), AllValues(Hard(bits), first, n);
      var last := LogicalAt(Hard(bits), base, FRAME_LOGICAL_BITS).values;
      forall f | 0 <= f < n ensures FrameByte(values, f) == Frames(bits, first)[f].data &&
                                    FrameCounter(values, f) == Frames(bits, first)[f].index {
        var lo := FRAME_LOGICAL_BITS * f;
        if f < n - 1 {
          assert values[lo + FRAME_INDEX_BITS..lo + FRAME_LOGICAL_BITS] == before[lo + FRAME_INDEX_BITS..lo + FRAME_LOGICAL_BITS];
          assert values[lo..lo + FRAME_INDEX_BITS] == before[lo..lo + FRAME_INDEX_BITS];
        } else {
          assert values[lo + FRAME_INDEX_BITS..lo + FRAME_LOGICAL_BITS] == last[5..13];
          assert values[lo..lo + FRAME_INDEX_BITS] == last[..5];
        }
      }
    }
  }

  lemma {:induction false} CountersRight(values: Bits, n: nat, extended: bool)
    requires FRAME_LOGICAL_BITS * n <= |values|
    requires forall f :: 0 <= f < n ==> FrameCounter(values, f) == ExpectedIndex(extended, f)
    ensures WrongCounters(values, n, extended) == 0
  {
    hide FrameCounter;
    if n > 0 {
      CountersRight(values, n - 1, extended);
    }
  }

  /** A packet the hard decoder reads completely and finds sound in every respect. */
  ghost predicate CleanDecode(bits: Bits, pos: nat) {
    var frames := Frames(bits, pos + MARKER_OFFSET);
    frames != [] && |frames| == FullLength(FrameBytes(frames)) && IndexesOk(frames) &&
    CrcsPass(FrameBytes(frames), Extended(FrameBytes(frames))) && HopsLegal(FrameBytes(frames)[0])
  }

  /** Soft framing refines hard framing: on hard symbols a clean packet comes back byte for byte, nothing corrected. */
  lemma SoftRefinesHard(bits: Bits, pos: nat, timestamp: Option<real>, limits: Limits)
    requires CleanDecode(bits, pos)
    ensures var r := Recovery(bits, Hard(bits), pos, timestamp, limits);
            r.Some? && r.value.packet.data == PacketAt(bits, pos, timestamp).data &&
            r.value.packet.bits == PacketAt(bits, pos, timestamp).bits &&
            r.value.corrected == 0 && r.value.indexErrors == 0 && r.value.manchesterErrors == 0
  {
    hide HasExt, CrcsPass, HopsLegal, Frames, FrameByte, FrameCounter, WrongCounters, LogicalAt, AllIllegal;
    var first := pos + MARKER_OFFSET;
    var frames := Frames(bits, first);
    var data: Wire := FrameBytes(frames);
    var n := |frames|;
    SoftReadsFrames(bits, first, n);
    SoftReadsFrames(bits, first, 1);
    var one := LogicalAt(Hard(bits), first + 2, FRAME_LOGICAL_BITS).values;
    assert AllValues(Hard(bits), first, 1) == one;
    assert FrameByte(one, 0) == data[0];
    var values := AllValues(Hard(bits), first, n);
    hide AllValues;
    assert BytesFrom(values, n) == data;
    CountersRight(values, n, Extended(data));
    FramesEnd(bits, first);
  }
}
