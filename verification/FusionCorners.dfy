/** Captures on which the tempting invariants of fusion fail. */
module FusionCorners {
  import opened Common
  import opened Packets
  import opened Framing
  import opened Plm
  import opened RoundTrip
  import opened Sorting
  import opened FlipSearch
  import opened Recover
  import opened Combine
  import opened Sightings
  import opened Damage
  import opened Fusion
  import opened FusionPartition
  import opened FusionOrder
  import CombineProofs

  const DEFAULTS: Config := Config(0.6, 0.2, 2.0, 60.0, 0.0, true)

  const MIN_BYTES: nat := 4

  lemma {:induction false} NoDifferences(a: Bits, b: Bits, n: nat)
    requires n <= |a| && n <= |b| && a[..n] == b[..n]
    ensures Differences(a, b, n) == 0
  {
    if n > 0 {
      assert a[..n][..n - 1] == a[..n - 1] && b[..n][..n - 1] == b[..n - 1];
      assert a[..n][n - 1] == b[..n][n - 1];
      NoDifferences(a, b, n - 1);
    }
  }

  // ------------------------------------------------------------------ two buckets for one message

  /** Whatever was sent, a complete packet that passes its own checks. */
  ghost predicate Whole(data: Wire) { Encodable(data) && |data| == FullLength(data) && Passes(data) }

  /** The symbols of a capture that ends after eight frames: enough to compare, too few for the CRC byte. */
  function EightFrames(data: Wire): (r: Bits)
    requires Encodable(data) && |data| >= 8
    ensures |r| == PREAMBLE_SYMBOLS + FRAME_BITS * 8
  {
    PacketBits(data)[..PREAMBLE_SYMBOLS + FRAME_BITS * 8]
  }

  /** Heard so, the packet is a sighting of eight unverified bytes. */
  lemma CutSighting(data: Wire, o: Origin, clock: real)
    requires Whole(data)
    ensures var s := SightingAt(EightFrames(data), None, 15, o, clock, MIN_BYTES);
            s.Some? && s.value.packet.data == data[..8] && !s.value.packet.Verified() && s.value.bits == EightFrames(data)[15..] &&
            s.value.soft.None? &&
            s.value.when == if o.timestamp.Some? then SentAt(o, 15).value else clock
  {
    hide PacketBits, Frames, PacketAt, Recovery, Hard, PacketCrc, HasExt, HopsLegal;
    var bits := EightFrames(data);
    assert bits[15..] == OnAir(data)[..MARKER_OFFSET + FRAME_BITS * 8];
    assert CutShort(bits, 15, data, 8);
    CutShortBreaks(bits, 15, data, 8);
    PacketToTheBreak(bits, 15, data, 8, SentAt(o, 15));
    CutShortIsLost(bits, 15, data, 8, SentAt(o, 15), COPY_LIMITS);
  }

  /** Heard whole, it is the packet itself, verified. */
  lemma WholeSighting(data: Wire, o: Origin, clock: real)
    requires Whole(data)
    ensures var s := SightingAt(PacketBits(data), None, 15, o, clock, MIN_BYTES);
            s.Some? && s.value.packet.data == data && s.value.packet.Verified() && s.value.packet.HopsOk() &&
            s.value.bits == PacketBits(data)[15..] && s.value.when == if o.timestamp.Some? then SentAt(o, 15).value else clock
  {
    hide PacketBits, SightingAt, PacketCrc, HasExt, HopsLegal, Offsets, Stream;
    Alone(data);
    OffsetsOfStream([data]);
    WholeIsSound(data);
    IntactSighting([data], 0, None, o, clock, MIN_BYTES);
    StampOf(PacketBits(data), None, 15, o, clock);
  }

  lemma Alone(data: Wire)
    requires Encodable(data)
    ensures Stream([data]) == PacketBits(data) && |PacketBits(data)| >= 100
  {
    PacketLength(data);
    hide PacketBits;
    assert Stream([]) == [];
  }

  lemma WholeIsSound(data: Wire)
    requires Whole(data)
    ensures SoundWire(data, MIN_BYTES) && Packet(data, [], None, true, 0, None).Verified()
  {
    hide PacketCrc, HasExt, ExtCrc;
  }

  lemma StampOf(bits: Bits, conf: Option<Soft>, pos: nat, o: Origin, clock: real)
    requires (conf.Some? ==> |conf.value| == |bits|) && SightingAt(bits, conf, pos, o, clock, MIN_BYTES).Some?
    ensures SightingAt(bits, conf, pos, o, clock, MIN_BYTES).value.when == if o.timestamp.Some? then SentAt(o, pos).value else clock
  {
    hide PacketFor;
  }

  /**
   * One transmission, heard by three receivers: one capture ends early, the others are whole. The damaged copy opens a
   * bucket, a verified one joins it by similarity and re-keys it, and the other verified one finds neither its key nor a
   * bucket it may join: two open buckets then carry one message, and the first one's slot key is not its bucket's.
   */
  lemma TwoBucketsForOneMessage(data: Wire, o1: Origin, o2: Origin, o3: Origin, clock: real)
    returns (damaged: Sighting, second: Sighting, third: Sighting)
    requires Whole(data) && o1.timestamp == o2.timestamp == o3.timestamp
    ensures HeaderAt(EightFrames(data), 15) && HeaderAt(PacketBits(data), 15)
    ensures SightingAt(EightFrames(data), None, 15, o1, clock, MIN_BYTES) == Some(damaged)
    ensures SightingAt(PacketBits(data), None, 15, o2, clock, MIN_BYTES) == Some(second)
    ensures SightingAt(PacketBits(data), None, 15, o3, clock, MIN_BYTES) == Some(third)
    ensures !damaged.packet.Verified() && second.packet.Verified() && third.packet.Verified() && TwoOpen(damaged, second, third)
  {
    HeaderKept(data);
    hide PacketBits, SightingAt, MessageKey, Distance, PacketCrc, HasExt, HopsLegal, START_HEADER, PatternAt, AddStep, EightFrames,
         TwoOpen;
    CutSighting(data, o1, clock);
    WholeSighting(data, o2, clock);
    WholeSighting(data, o3, clock);
    damaged := SightingAt(EightFrames(data), None, 15, o1, clock, MIN_BYTES).value;
    second := SightingAt(PacketBits(data), None, 15, o2, clock, MIN_BYTES).value;
    third := SightingAt(PacketBits(data), None, 15, o3, clock, MIN_BYTES).value;
    KeysDiffer(damaged.packet, second.packet);
    SameKey(second.packet, third.packet);
    NearEnough(data, damaged.bits, second.bits);
    DamagedOpens(damaged, second, third);
  }

  /** After these three copies two buckets are open for the third one's message, the first under another key's slot. */
  ghost predicate TwoOpen(a: Sighting, b: Sighting, c: Sighting) {
    var one := AddStep(DEFAULTS, EMPTY, a);
    var two := AddStep(DEFAULTS, one, b);
    var three := AddStep(DEFAULTS, two, c);
    |two.open| == 1 && |three.open| == 2 && three.open[0].bucket.key == three.open[1].bucket.key == MessageKey(c.packet) &&
    three.open[0].key != three.open[0].bucket.key
  }

  lemma DamagedOpens(a: Sighting, b: Sighting, c: Sighting)
    requires !a.packet.Verified() && b.packet.Verified() && c.packet.Verified() && a.when == b.when
    requires MessageKey(a.packet) != MessageKey(b.packet) == MessageKey(c.packet)
    requires Distance(b.bits, a.bits, MAX_DISAGREEMENTS) == Some(0)
    ensures TwoOpen(a, b, c)
  {
    hide MessageKey, Distance, AddStep;
    OpensAlone(a);
    JoinsBySimilarity(a, b);
    var key := MessageKey(a.packet);
    FindsNoPlace(EMPTY.(open := [Slot(key, AddTo(NewBucket(key, a), b))]), c);
  }

  lemma HeaderKept(data: Wire)
    requires Encodable(data) && |data| >= 8
    ensures HeaderAt(EightFrames(data), 15) && HeaderAt(PacketBits(data), 15)
  {
    HeaderOfPacket(data, []);
    hide PacketBits;
    var sent := PacketBits(data);
    assert sent + [] == sent;
    assert EightFrames(data)[15..31] == sent[15..31];
  }

  lemma KeysDiffer(a: Packet, b: Packet)
    requires |a.data| == 8 && |b.data| >= STD_LEN
    ensures |MessageKey(a)| == 8 && |MessageKey(b)| > 8
  {
  }

  lemma SameKey(a: Packet, b: Packet)
    requires a.data == b.data
    ensures MessageKey(a) == MessageKey(b)
  {
  }

  lemma NearEnough(data: Wire, a: Bits, b: Bits)
    requires Encodable(data) && |data| >= 8 && a == EightFrames(data)[15..] && b == PacketBits(data)[15..]
    ensures Distance(b, a, MAX_DISAGREEMENTS) == Some(0)
  {
    hide PacketBits;
    assert b[..|a|] == a == a[..|a|];
    NoDifferences(b, a, |a|);
  }

  lemma OpensAgain(st: FusionState, s: Sighting)
    requires st.open == [] && !Straggler(DEFAULTS, st.closed, MessageKey(s.packet), s)
    ensures AddStep(DEFAULTS, st, s) == st.(open := [Slot(MessageKey(s.packet), NewBucket(MessageKey(s.packet), s))])
  {
    hide MessageKey, NewBucket, Straggler;
    assert SlotOf([], MessageKey(s.packet)).None?;
  }

  lemma OpensAlone(s: Sighting)
    ensures AddStep(DEFAULTS, EMPTY, s) == EMPTY.(open := [Slot(MessageKey(s.packet), NewBucket(MessageKey(s.packet), s))])
  {
    hide MessageKey;
    assert SlotOf([], MessageKey(s.packet)).None?;
  }

  lemma JoinsBySimilarity(a: Sighting, b: Sighting)
    requires !a.packet.Verified() && b.packet.Verified() && MessageKey(a.packet) != MessageKey(b.packet)
    requires a.when == b.when && Distance(b.bits, a.bits, MAX_DISAGREEMENTS) == Some(0)
    ensures var key := MessageKey(a.packet);
            AddStep(DEFAULTS, EMPTY.(open := [Slot(key, NewBucket(key, a))]), b)
            == EMPTY.(open := [Slot(key, AddTo(NewBucket(key, a), b))])
  {
    hide MessageKey, Distance;
    var key := MessageKey(a.packet);
    var open := [Slot(key, NewBucket(key, a))];
    assert open[..0] == [];
    assert SlotOf(open, MessageKey(b.packet)).None?;
    assert Similarity(DEFAULTS, open[0].bucket, b) == Some(0);
    assert Nearest(DEFAULTS, open, b, 0) == Far;
    assert Nearest(DEFAULTS, open, b, 1) == Near(0, 0);
  }

  lemma FindsNoPlace(st: FusionState, s: Sighting)
    requires s.packet.Verified() && |st.open| == 1 && st.closed == map[]
    requires st.open[0].key != MessageKey(s.packet) && st.open[0].bucket.hasGood
    ensures AddStep(DEFAULTS, st, s).open == st.open + [Slot(MessageKey(s.packet), NewBucket(MessageKey(s.packet), s))]
  {
    hide MessageKey, Distance, Accepts;
    assert st.open[..0] == [];
    assert SlotOf(st.open, MessageKey(s.packet)).None?;
    assert Nearest(DEFAULTS, st.open, s, 0) == Far;
    assert Nearest(DEFAULTS, st.open, s, 1) == Far;
  }

  // ------------------------------------------------------------------ disagreements not tried

  lemma PairVote(a: Sighting, b: Sighting, i: nat)
    requires i < |a.bits| && i < |b.bits|
    ensures Runs([a, b]) == [a, b] && Count([a, b], i) == 2 && Total([a, b], i) == Votes(a)[i] + Votes(b)[i]
    ensures Ones([a, b], i) == (if Votes(a)[i] > 0.0 then 1 else 0) + if Votes(b)[i] > 0.0 then 1 else 0
  {
    hide Votes;
    assert [a, b][..1] == [a] && [a][..0] == [];
    assert Runs([a]) == [a];
    assert Count([a], i) == 1 && Total([a], i) == Votes(a)[i];
    assert Ones([a], i) == if Votes(a)[i] > 0.0 then 1 else 0;
  }


  /** A capture of the packet with the pair of one bit loudly wrong: a sighting, and neither verified nor recovered. */
  lemma LoudSighting(data: Wire, f: nat, b: nat, o: Origin, clock: real)
    requires Whole(data) && MIN_BYTES <= f <= CrcIndex(data) && b < 8
    ensures f < |data| && HeaderAt(LoudBits(data, f, b), 0)
    ensures var conf := LoudSoft(Heard(data), PairOf(f, b));
            var s := SightingAt(LoudBits(data, f, b), Some(conf), 0, o, clock, MIN_BYTES);
            s.Some? && !s.value.packet.Verified() && s.value.packet.data == data[..f] &&
            s.value.bits == LoudBits(data, f, b) && s.value.soft == Some(conf) &&
            s.value.when == if o.timestamp.Some? then SentAt(o, 0).value else clock
  {
    BeyondTheCrc(data, f);
    LoudHeader(data, f, b);
    LoudIsWrong(data, f, b);
    hide PacketBits, PacketFor, LoudBits, LoudSoft, Heard, OneWrong, PairOf, HeaderAt, PacketCrc, HasExt;
    var bits, conf := LoudBits(data, f, b), LoudSoft(Heard(data), PairOf(f, b));
    LoudPacket(data, f, b, SentAt(o, 0));
    assert bits[0..] == bits && conf[0..] == conf;
  }

  lemma LoudPacket(data: Wire, f: nat, b: nat, when: Option<real>)
    requires Whole(data) && MIN_BYTES <= f <= CrcIndex(data) && b < 8 && f < |data|
    ensures var pkt := PacketFor(LoudBits(data, f, b), Some(LoudSoft(Heard(data), PairOf(f, b))), 0, when, MIN_BYTES);
            pkt.Some? && !pkt.value.Verified() && pkt.value.data == data[..f]
  {
    hide PacketBits, Frames, PacketAt, Recovery, PacketCrc, HasExt, HopsLegal, LoudBits, LoudSoft, Heard, OneWrong;
    LoudIsWrong(data, f, b);
    var bits, conf := LoudBits(data, f, b), LoudSoft(Heard(data), PairOf(f, b));
    WrongSymbolBreaks(bits, 0, data, f, b, true);
    PacketToTheBreak(bits, 0, data, f, when);
    LoudIsLost(data, f, b, when, COPY_LIMITS);
    assert conf[..|bits|] == conf;
  }

  lemma BeyondTheCrc(data: Wire, f: nat)
    requires Whole(data) && f <= CrcIndex(data)
    ensures f < |data|
  {
    hide PacketCrc, ExtCrc, HasExt;
  }

  lemma LoudHeader(data: Wire, f: nat, b: nat)
    requires Encodable(data) && MIN_BYTES <= f < |data| && b < 8
    ensures HeaderAt(LoudBits(data, f, b), 0)
  {
    HeaderOfPacket(data, []);
    hide PacketBits;
    var sent := PacketBits(data);
    assert sent + [] == sent;
    assert LoudBits(data, f, b)[0..16] == sent[15..31];
  }

  /** How two such copies vote on one symbol. */
  lemma LoudVote(sent: Bits, at1: nat, at2: nat, a: Sighting, b: Sighting, i: nat)
    requires at1 + 1 < |sent| && at2 + 1 < |sent| && i < |sent| && (at1 + 1 < at2 || at2 + 1 < at1)
    requires sent[at1] != sent[at1 + 1] && sent[at2] != sent[at2 + 1]
    requires |a.bits| == |b.bits| == |sent| && a.soft == Some(LoudSoft(sent, at1)) && b.soft == Some(LoudSoft(sent, at2))
    ensures var runs := [a, b];
            var loud := i == at1 || i == at1 + 1 || i == at2 || i == at2 + 1;
            var wrong := i == at1 + 1 || i == at2 + 1;
            Runs([a, b]) == runs && (Mixed(runs, i) <==> wrong) && (Decided(runs, i) <==> sent[i] != wrong) &&
            Abs(Margin(runs, i)) == if loud then 0.495 else 0.01
  {
    PairVote(a, b, i);
    hide Runs, Count, Total, Ones, FirstSaysOne;
    assert Votes(a) == LoudSoft(sent, at1) && Votes(b) == LoudSoft(sent, at2);
  }

  lemma PairWidth(a: Sighting, b: Sighting)
    requires |a.bits| == |b.bits|
    ensures Width([a, b]) == |a.bits|
  {
    assert [a, b][..1] == [a] && [a][..0] == [];
    assert Width([a]) == |a.bits|;
  }

  /** The twelve least sure positions are the first twelve when none is less sure than those. */
  lemma FirstTwelve(v: Vote, m: real)
    requires |v.bits| == |v.margin| && Min(PacketExtent(v.bits), |v.bits|) >= MAX_DISAGREEMENTS
    requires (forall i :: 0 <= i < MAX_DISAGREEMENTS ==> Abs(v.margin[i]) == m) && forall i :: 0 <= i < |v.margin| ==> m <= Abs(v.margin[i])
    ensures |LeastSure(v)| >= MAX_DISAGREEMENTS && LeastSure(v)[..MAX_DISAGREEMENTS] == Upto(MAX_DISAGREEMENTS)
  {
    hide PacketExtent, SortBy, Abs;
    var n := Min(PacketExtent(v.bits), |v.bits|);
    var key := Doubt(v.margin);
    var front, rest := Upto(MAX_DISAGREEMENTS), Upto(n)[MAX_DISAGREEMENTS..];
    UptoAt(n);
    UptoAt(MAX_DISAGREEMENTS);
    assert Upto(n) == front + rest;
    forall x | x in rest ensures m <= key(x) {
      assert x in Upto(n);
    }
    LeastStayInFront(front, rest, key, m);
  }

  lemma UptoAt(n: nat)
    ensures forall i :: 0 <= i < n ==> Upto(n)[i] == i
  {
  }

  /** The vote of two such copies: right everywhere but at their two loud symbols, where alone they disagree. */
  lemma VoteOfLoud(sent: Bits, at1: nat, at2: nat, a: Sighting, b: Sighting)
    requires |sent| >= 100 && 12 <= at1 && at1 + 1 < |sent| && 12 <= at2 && at2 + 1 < |sent| && (at1 + 1 < at2 || at2 + 1 < at1)
    requires sent[at1] != sent[at1 + 1] && sent[at2] != sent[at2 + 1]
    requires |a.bits| == |b.bits| == |sent| && a.soft == Some(LoudSoft(sent, at1)) && b.soft == Some(LoudSoft(sent, at2))
    ensures var v := VoteOf([a, b]);
            v.Some? && |v.value.bits| == |v.value.margin| == |sent| &&
            FlipSet(v.value.bits, {at1 + 1, at2 + 1}) == sent &&
            (forall i: nat :: i in v.value.disagree <==> i == at1 + 1 || i == at2 + 1) &&
            (forall i :: 0 <= i < 12 ==> Abs(v.value.margin[i]) == 0.01) &&
            forall i :: 0 <= i < |sent| ==> 0.01 <= Abs(v.value.margin[i])
  {
    hide Runs, Width, Mixed, Decided, Margin, Abs, LoudSoft, MixedBelow;
    var runs := [a, b];
    forall i: nat | i < |sent|
      ensures Runs(runs) == runs && (Mixed(runs, i) <==> (i == at1 + 1 || i == at2 + 1))
      ensures Decided(runs, i) <==> sent[i] != (i == at1 + 1 || i == at2 + 1)
      ensures Abs(Margin(runs, i)) == if i == at1 || i == at1 + 1 || i == at2 || i == at2 + 1 then 0.495 else 0.01
    {
      LoudVote(sent, at1, at2, a, b, i);
    }
    LoudVote(sent, at1, at2, a, b, 0);
    PairWidth(a, b);
    DisagreeExact(runs, |sent|);
    assert FlipSet(VoteOf(runs).value.bits, {at1 + 1, at2 + 1}) == sent;
  }

  /**
   * Neither copy verifies; they disagree exactly at `made`, and flipping that in the vote is enough for the packet sent; but
   * the suspects are the first twelve symbols, and none of `made` is among those.
   */
  ghost predicate NotTried(a: Sighting, b: Sighting, data: Wire, made: set<nat>) {
    var v := VoteOf([a, b]);
    Encodable(data) && !a.packet.Verified() && !b.packet.Verified() && v.Some? &&
    (forall i: nat :: i in v.value.disagree <==> i in made) && |made| <= MAX_COMBINE_FLIPS &&
    Accept(FlipSet(v.value.bits, made), Some(a.when)) == Some(Expected(data, Some(a.when))) &&
    FlipSuspects([a, b], v.value) == Upto(MAX_DISAGREEMENTS) && forall i :: i in made ==> i >= MAX_DISAGREEMENTS
  }

  /**
   * Two receivers each hear a different bit loudly wrong. Neither copy verifies, they disagree at two symbols, and
   * flipping those two gives back the packet that was sent; but the suspects are the first twelve symbols, where all
   * the copies agree, so neither disagreement is tried.
   */
  lemma DisagreementsNotTried(data: Wire, f1: nat, b1: nat, f2: nat, b2: nat, o1: Origin, o2: Origin, clock: real)
    returns (a: Sighting, b: Sighting)
    requires Whole(data) && b1 < 8 && b2 < 8 && (f1 != f2 || b1 != b2)
    requires MIN_BYTES <= f1 <= CrcIndex(data) && MIN_BYTES <= f2 <= CrcIndex(data)
    ensures f1 < |data| && f2 < |data|
    ensures SightingAt(LoudBits(data, f1, b1), Some(LoudSoft(Heard(data), PairOf(f1, b1))), 0, o1, clock, MIN_BYTES) == Some(a)
    ensures SightingAt(LoudBits(data, f2, b2), Some(LoudSoft(Heard(data), PairOf(f2, b2))), 0, o2, clock, MIN_BYTES) == Some(b)
    ensures NotTried(a, b, data, {PairOf(f1, b1) + 1, PairOf(f2, b2) + 1})
  {
    hide PacketBits, SightingAt, PacketCrc, HasExt, LoudBits, LoudSoft, Heard, Accept, VoteOf, FlipSuspects, HopsLegal,
         FlipSet, PacketExtent, Abs;
    LoudSighting(data, f1, b1, o1, clock);
    LoudSighting(data, f2, b2, o2, clock);
    a := SightingAt(LoudBits(data, f1, b1), Some(LoudSoft(Heard(data), PairOf(f1, b1))), 0, o1, clock, MIN_BYTES).value;
    b := SightingAt(LoudBits(data, f2, b2), Some(LoudSoft(Heard(data), PairOf(f2, b2))), 0, o2, clock, MIN_BYTES).value;
    SentPair(data, f1, b1);
    SentPair(data, f2, b2);
    VoteOfLoud(Heard(data), PairOf(f1, b1), PairOf(f2, b2), a, b);
    var v := VoteOf([a, b]).value;
    ExtentLong(v.bits);
    FirstTwelve(v, 0.01);
    assert [a, b][0].soft.Some?;
    SoftSuspectsAreLeastSure([a, b], v);
    AcceptsWhole(data, Some(a.when));
    assert |{PairOf(f1, b1) + 1, PairOf(f2, b2) + 1}| <= 2;
  }

  lemma SentPair(data: Wire, f: nat, b: nat)
    requires Encodable(data) && f < |data| && b < 8
    ensures PairOf(f, b) + 1 < |Heard(data)| && Heard(data)[PairOf(f, b)] != Heard(data)[PairOf(f, b) + 1]
  {
    PairSent(data, f, FRAME_INDEX_BITS + b);
    hide PacketBits;
    assert forall i :: 0 <= i < |Heard(data)| ==> Heard(data)[i] == PacketBits(data)[15 + i];
  }

  lemma ExtentLong(bits: Bits)
    ensures PacketExtent(bits) >= 100
  {
    hide Frames;
  }

  /** The packet as it was sent is accepted. */
  lemma AcceptsWhole(data: Wire, when: Option<real>)
    requires Whole(data)
    ensures Accept(Heard(data), when) == Some(Expected(data, when))
  {
    hide PacketBits, Offsets, PacketsAt, Normalised, PacketCrc, HasExt, ExtCrc, Stream;
    Alone(data);
    ParseFromHeader([data], [], when, MIN_BYTES);
    NormalisedFromHeader(Heard(data));
    assert Heard(data) + [] == Heard(data);
    assert ExpectedAll([], when, MIN_BYTES) == [];
    assert ExpectedAll([data], when, MIN_BYTES) == [Expected(data, when)];
  }

  // ------------------------------------------------------------------ one bucket emitted

  /** Emitting a single verified bucket finishes it and nothing else. */
  lemma EmitOne(cfg: Config, st: FusionState, b: BucketState, now: real)
    requires b.sightings != [] && b.hasGood
    ensures Emit(cfg, st, [b], now) == Finish(Emitting(st, [b], [], []), b, Build(cfg, b), now)
  {
    hide Build, Finish;
    assert SortBy([], Opened()) == [];
    assert SortBy([b], Opened()) == [b];
    FilterAllGood([b]);
    var start := Emitting(st, [b], [], []);
    assert SettleAll(cfg, start, [], now) == start;
    assert [b][..0] == [];
    assert FinishAll(cfg, start, [], now) == start;
  }

  // ------------------------------------------------------------------ a verified bucket re-keyed

  /** Two hard copies alike vote for what they both say. */
  lemma AlikeVote(a: Sighting, b: Sighting)
    requires a.bits == b.bits != [] && a.soft.None? && b.soft.None?
    ensures VoteOf([a, b]).Some? && VoteOf([a, b]).value.bits == a.bits
  {
    var ss := [a, b];
    CombineProofs.RunsAreAll(ss);
    PairWidth(a, b);
    forall i | 0 <= i < |a.bits| ensures Decided(ss, i) == a.bits[i] {
      CombineProofs.Unanimous(ss, i, a.bits[i]);
      MajorityOfHardCopies(ss, i);
      hide Decided, Ones, Count;
    }
    hide Decided, Runs, Width;
    assert VoteOf(ss).value.bits == a.bits;
  }

  /** In a capture of both packets the first is verified, and the vote accepts the second. */
  lemma AcceptsTheSecond(bad: Wire, good: Wire, when: Option<real>)
    requires Encodable(bad) && SoundWire(bad, MIN_BYTES) && !HopsLegal(bad[0]) && Whole(good)
    ensures |Stream([bad, good])| >= 31
    ensures Accept(Stream([bad, good])[15..], when) == Some(Expected(good, when))
  {
    hide PacketBits, Offsets, PacketsAt, Normalised, PacketCrc, HasExt, ExtCrc, Stream, HopsLegal, Find, START_HEADER,
         PatternAt;
    var ps := [bad, good];
    ParseFromHeader(ps, [], when, MIN_BYTES);
    var heard := Stream(ps)[15..];
    assert heard + [] == heard;
    NormalisedFromHeader(heard);
    TwoExpected(bad, good, when);
    UnambiguousWhole(good, when);
    assert !Unambiguous(Expected(bad, when));
    FirstIsSecond(Expected(bad, when), Expected(good, when));
  }

  lemma TwoExpected(bad: Wire, good: Wire, when: Option<real>)
    requires Encodable(bad) && |bad| >= MIN_BYTES && Encodable(good) && |good| >= MIN_BYTES
    ensures ExpectedAll([bad, good], when, MIN_BYTES) == [Expected(bad, when), Expected(good, when)]
  {
    hide Expected;
    assert [bad, good][1..] == [good] && [good][1..] == [];
    assert ExpectedAll([], when, MIN_BYTES) == [];
    assert ExpectedAll([good], when, MIN_BYTES) == [Expected(good, when)];
  }

  lemma UnambiguousWhole(good: Wire, when: Option<real>)
    requires Whole(good)
    ensures Unambiguous(Expected(good, when))
  {
    hide PacketBits, PacketCrc, ExtCrc, HasExt, HopsLegal;
  }

  lemma FirstIsSecond(p: Packet, q: Packet)
    requires !Unambiguous(p) && Unambiguous(q)
    ensures FirstUnambiguous([p, q]) == Some(q)
  {
    hide Unambiguous;
    assert [p, q][1..] == [q];
  }

  /** A capture of both packets as a sighting of the first. */
  lemma SightingOfBoth(bad: Wire, good: Wire, o: Origin, clock: real)
    requires SoundWire(bad, MIN_BYTES) && !HopsLegal(bad[0]) && Whole(good)
    ensures HeaderAt(Stream([bad, good]), 15)
    ensures var s := SightingAt(Stream([bad, good]), None, 15, o, clock, MIN_BYTES);
            s.Some? && s.value.packet.data == bad && s.value.packet.Verified() && !s.value.packet.HopsOk() &&
            s.value.bits == Stream([bad, good])[15..] && s.value.soft.None? &&
            s.value.when == if o.timestamp.Some? then SentAt(o, 15).value else clock
  {
    hide PacketBits, SightingAt, PacketCrc, HasExt, ExtCrc, HopsLegal, Offsets, Stream, START_HEADER, PatternAt;
    var ps := [bad, good];
    StreamStarts(ps);
    OffsetsOfStream(ps);
    IntactSighting(ps, 0, None, o, clock, MIN_BYTES);
    StampOf(Stream(ps), None, 15, o, clock);
    HardStays(Stream(ps), 15, o, clock);
  }

  lemma HardStays(bits: Bits, pos: nat, o: Origin, clock: real)
    requires SightingAt(bits, None, pos, o, clock, MIN_BYTES).Some?
    ensures SightingAt(bits, None, pos, o, clock, MIN_BYTES).value.soft.None?
  {
    hide PacketFor;
  }

  lemma JoinsOwn(cfg: Config, a: Sighting, b: Sighting)
    requires MessageKey(a.packet) == MessageKey(b.packet) && a.when == b.when && cfg.window >= 0.0 && cfg.maxWindow >= 0.0
    ensures var key := MessageKey(a.packet);
            AddStep(cfg, EMPTY.(open := [Slot(key, NewBucket(key, a))]), b)
            == EMPTY.(open := [Slot(key, AddTo(NewBucket(key, a), b))])
  {
    hide MessageKey;
    var key := MessageKey(a.packet);
    var open := [Slot(key, NewBucket(key, a))];
    assert SlotOf(open, key) == Some(0);
    assert Accepts(cfg, open[0].bucket, b.when);
    hide NewBucket, AddTo;
    assert AddToSlot(open, 0, b) == [Slot(key, AddTo(open[0].bucket, b))];
  }

  lemma FlushOne(cfg: Config, slot: Slot, now: real)
    requires slot.bucket.sightings != [] && slot.bucket.hasGood
    ensures Sane(EMPTY.(open := [slot]))
    ensures FlushStep(cfg, EMPTY.(open := [slot]), now)
         == Finish(Emitting(EMPTY, [slot.bucket], [], []), slot.bucket, Build(cfg, slot.bucket), now)
  {
    hide Build, Finish, Emit;
    EmitOne(cfg, EMPTY, slot.bucket, now);
    assert Buckets([slot]) == [slot.bucket];
    assert [] + [slot.bucket] == [slot.bucket];
  }

  /** What a bucket of two such copies is built into. */
  lemma CombinedAcross(a: Sighting, b: Sighting, good: Wire)
    requires !a.packet.HopsOk() && !b.packet.HopsOk() && a.bits == b.bits != [] && a.soft.None? && b.soft.None? && Whole(good)
    requires Accept(a.bits, Some(a.when)) == Some(Expected(good, Some(a.when)))
    ensures BestGood([a, b]).None? && CombineOf([a, b]) == Some(Expected(good, Some(a.when)))
  {
    hide Accept, VoteOf, Expected, HopsLegal;
    AlikeVote(a, b);
    assert [a, b][..1] == [a] && [a][..0] == [];
    assert BestGood([a]).None?;
  }

  /**
   * Two receivers hear the same two packets: one that verifies although its hop fields are impossible, then a sound
   * one. The first one's bucket holds nothing but verified copies of its message; but no copy is good, so the copies are
   * combined, the combination is the second packet, and the event is finished under that packet's key. A third copy of the
   * first packet is then not recognised as late, and opens another bucket at the very instant the first one ended.
   */
  lemma VerifiedBucketReKeyed(bad: Wire, good: Wire, o1: Origin, o2: Origin, o3: Origin, clock: real, now: real)
    returns (a: Sighting, b: Sighting, c: Sighting)
    requires SoundWire(bad, MIN_BYTES) && !HopsLegal(bad[0]) && Whole(good) && o1.timestamp == o2.timestamp == o3.timestamp
    requires MessageKey(Expected(bad, None)) != MessageKey(Expected(good, None))
    ensures HeaderAt(Stream([bad, good]), 15)
    ensures SightingAt(Stream([bad, good]), None, 15, o1, clock, MIN_BYTES) == Some(a)
    ensures SightingAt(Stream([bad, good]), None, 15, o2, clock, MIN_BYTES) == Some(b)
    ensures SightingAt(Stream([bad, good]), None, 15, o3, clock, MIN_BYTES) == Some(c)
    ensures var two := AddStep(DEFAULTS, AddStep(DEFAULTS, EMPTY, a), b);
            Sane(two) &&
            var em := FlushStep(DEFAULTS, two, now);
            var key := MessageKey(a.packet);
            |em.out| == 1 && em.out[0].bucket.sightings == [a, b] && a.packet.Verified() && b.packet.Verified() &&
            em.out[0].bucket.key == key && em.out[0].event.combined && em.out[0].event.packet.data == good &&
            em.out[0].event.key == MessageKey(em.out[0].event.packet) != key && !KeepsKey(DEFAULTS, em.out[0].bucket) &&
            c.packet.Verified() && MessageKey(c.packet) == key && OpensWhereItEnded(em, c)
  {
    hide PacketBits, SightingAt, PacketCrc, HasExt, ExtCrc, HopsLegal, Stream, START_HEADER, PatternAt, MessageKey,
         CombineOf, Accept;
    SightingOfBoth(bad, good, o1, clock);
    SightingOfBoth(bad, good, o2, clock);
    SightingOfBoth(bad, good, o3, clock);
    var heard := Stream([bad, good]);
    a := SightingAt(heard, None, 15, o1, clock, MIN_BYTES).value;
    b := SightingAt(heard, None, 15, o2, clock, MIN_BYTES).value;
    c := SightingAt(heard, None, 15, o3, clock, MIN_BYTES).value;
    AcceptsTheSecond(bad, good, Some(a.when));
    CombinedAcross(a, b, good);
    SameKey(a.packet, b.packet);
    SameKey(a.packet, c.packet);
    SameKey(a.packet, Expected(bad, None));
    SameKey(Expected(good, Some(a.when)), Expected(good, None));
    ReKeyedFlush(a, b, c, good, now);
  }

  /** The copy is not late for the bucket just finished, and opens one of the same message at the instant that one ended. */
  ghost predicate OpensWhereItEnded(em: Emitting, c: Sighting) {
    var key, after := MessageKey(c.packet), AddStep(DEFAULTS, em.st, c);
    |em.out| == 1 && !Straggler(DEFAULTS, em.st.closed, key, c) && |after.open| == 1 &&
    after.open[0].bucket.key == em.out[0].bucket.key == key && after.open[0].bucket.openedAt == em.out[0].bucket.lastAt
  }

  /** The two copies are gathered in one bucket, and a flush finishes it under the other packet's key. */
  lemma ReKeyedFlush(a: Sighting, b: Sighting, c: Sighting, good: Wire, now: real)
    requires Encodable(good) && a.packet.Verified() && b.packet.Verified() && c.packet.Verified() && a.when == b.when == c.when
    requires MessageKey(a.packet) == MessageKey(b.packet) == MessageKey(c.packet)
    requires MessageKey(Expected(good, Some(a.when))) != MessageKey(a.packet)
    requires BestGood([a, b]).None? && CombineOf([a, b]) == Some(Expected(good, Some(a.when)))
    ensures var two := AddStep(DEFAULTS, AddStep(DEFAULTS, EMPTY, a), b);
            Sane(two) &&
            var em := FlushStep(DEFAULTS, two, now);
            var key := MessageKey(a.packet);
            |em.out| == 1 && em.out[0].bucket.sightings == [a, b] && em.out[0].bucket.key == key &&
            em.out[0].event.combined && em.out[0].event.packet.data == good &&
            em.out[0].event.key == MessageKey(em.out[0].event.packet) != key && !KeepsKey(DEFAULTS, em.out[0].bucket) &&
            OpensWhereItEnded(em, c)
  {
    hide MessageKey, CombineOf, PacketBits, Packet.Verified, Packet.HopsOk, AddStep, FlushStep, Views, Closest,
         HopsMin, HopsMax, BestGood;
    OpensAlone(a);
    JoinsOwn(DEFAULTS, a, b);
    var key := MessageKey(a.packet);
    var bucket := AddTo(NewBucket(key, a), b);
    assert bucket.sightings == [a, b] && bucket.key == key && bucket.hasGood && bucket.lastAt == a.when;
    NewKey(c);
    hide AddTo;
    FlushOne(DEFAULTS, Slot(key, bucket), now);
    NoneOfTwo(a, b);
    OpensAgain(Finish(Emitting(EMPTY, [bucket], [], []), bucket, Build(DEFAULTS, bucket), now).st, c);
  }

  lemma NoneOfTwo(a: Sighting, b: Sighting)
    requires BestGood([a, b]).None?
    ensures forall i :: 0 <= i < 2 ==> !GoodCopy([a, b][i])
  {
    BestGoodIsOne([a, b]);
    hide BestGood, GoodCopy;
  }

  // ------------------------------------------------------------------ a number returned out of order

  lemma OpensSecond(slot: Slot, s: Sighting)
    requires !s.packet.Verified() && slot.key != MessageKey(s.packet) && !Accepts(DEFAULTS, slot.bucket, s.when)
    ensures var key := MessageKey(s.packet);
            AddStep(DEFAULTS, EMPTY.(open := [slot]), s) == EMPTY.(open := [slot, Slot(key, NewBucket(key, s))])
  {
    hide MessageKey, Distance, Accepts;
    var open := [slot];
    assert open[..0] == [];
    assert SlotOf([], MessageKey(s.packet)).None?;
    assert Nearest(DEFAULTS, open, s, 0) == Far;
    assert Nearest(DEFAULTS, open, s, 1) == Far;
    hide NewBucket;
    assert open + [Slot(MessageKey(s.packet), NewBucket(MessageKey(s.packet), s))] == [slot, Slot(MessageKey(s.packet), NewBucket(MessageKey(s.packet), s))];
  }

  lemma JoinsSecond(slot: Slot, other: Slot, s: Sighting)
    requires !s.packet.Verified() && slot.key != MessageKey(s.packet) && other.key != MessageKey(s.packet)
    requires !Accepts(DEFAULTS, slot.bucket, s.when) && Similarity(DEFAULTS, other.bucket, s).Some?
    ensures AddStep(DEFAULTS, EMPTY.(open := [slot, other]), s)
         == EMPTY.(open := [slot, Slot(other.key, AddTo(other.bucket, s))])
  {
    hide MessageKey, Distance, Accepts, AddTo;
    var open := [slot, other];
    assert open[..1] == [slot] && [slot][..0] == [];
    assert SlotOf([], MessageKey(s.packet)).None? && SlotOf([slot], MessageKey(s.packet)).None?;
    assert Nearest(DEFAULTS, open, s, 0) == Far;
    assert Nearest(DEFAULTS, open, s, 1) == Far;
    assert Nearest(DEFAULTS, open, s, 2).Near? && Nearest(DEFAULTS, open, s, 2).slot == 1;
    assert AddToSlot(open, 1, s) == [slot, Slot(other.key, AddTo(other.bucket, s))];
  }

  lemma {:induction false} OneDifference(a: Bits, at: nat, n: nat)
    requires at < |a| && n <= |a|
    ensures Differences(a[at := !a[at]], a, n) == if at < n then 1 else 0
  {
    if n > 0 {
      OneDifference(a, at, n - 1);
    }
  }

  lemma {:induction false} PrefixDifferences(a: Bits, b: Bits, n: nat, m: nat)
    requires n <= m <= |a| && m <= |b|
    ensures Differences(a, b[..m], n) == Differences(a, b, n)
  {
    if n > 0 {
      PrefixDifferences(a, b, n - 1, m);
    }
  }

  /** The loud copy is close to the short one. */
  lemma LoudIsNear(data: Wire, f: nat, b: nat)
    requires Encodable(data) && 8 < |data| && f < |data| && b < 8
    ensures var d := Distance(LoudBits(data, f, b), EightFrames(data)[15..], MAX_DISAGREEMENTS); d.Some? && d.value <= MAX_DISAGREEMENTS
  {
    hide PacketBits;
    var m := |EightFrames(data)| - 15;
    assert EightFrames(data)[15..] == Heard(data)[..m];
    PrefixDifferences(LoudBits(data, f, b), Heard(data), m, m);
    OneDifference(Heard(data), PairOf(f, b) + 1, m);
  }

  /** How a short hard copy and a loud soft one vote on one symbol: the loud one is a tie, which the first copy settles. */
  lemma ShortAndLoudAt(sent: Bits, at: nat, c: Sighting, l: Sighting, i: nat)
    requires at + 1 < |c.bits| < |sent| && c.bits == sent[..|c.bits|] && c.soft.None? && sent[at] != sent[at + 1]
    requires |l.bits| == |sent| && l.soft == Some(LoudSoft(sent, at)) && i < |sent|
    ensures Decided([c, l], i) == sent[i]
  {
    var runs := [c, l];
    assert runs[..1] == [c] && [c][..0] == [];
    assert Votes(l) == LoudSoft(sent, at);
    assert i < |c.bits| ==> Votes(c)[i] == Signed(sent[i], 1.0);
    hide Votes;
    assert Count([c], i) == if i < |c.bits| then 1 else 0;
    assert Total([c], i) == if i < |c.bits| then Signed(sent[i], 1.0) else 0.0;
    assert Total(runs, i) == Total([c], i) + LoudSoft(sent, at)[i];
    assert Count(runs, i) == Count([c], i) + 1;
    assert i < |c.bits| ==> (FirstSaysOne(runs, i) <==> Votes(c)[i] > 0.0);
    hide Total, Count, FirstSaysOne;
    SignOfQuotient(Total(runs, i), Max(Count(runs, i), 1));
  }

  lemma ShortAndLoud(sent: Bits, at: nat, c: Sighting, l: Sighting)
    requires at + 1 < |c.bits| < |sent| && c.bits == sent[..|c.bits|] && c.soft.None? && sent[at] != sent[at + 1]
    requires |l.bits| == |sent| && l.soft == Some(LoudSoft(sent, at))
    ensures VoteOf([c, l]).Some? && VoteOf([c, l]).value.bits == sent
  {
    var runs := [c, l];
    CombineProofs.RunsAreAll(runs);
    assert runs[..1] == [c] && [c][..0] == [];
    assert Width([c]) == |c.bits|;
    assert Width(runs) == |sent|;
    hide Decided, Runs, Width, LoudSoft;
    forall i | 0 <= i < |sent| ensures Decided(runs, i) == sent[i] {
      ShortAndLoudAt(sent, at, c, l, i);
    }
    assert VoteOf(runs).value.bits == sent;
  }

  /** A damaged bucket that nothing claims is finished ahead of a verified one opened before it. */
  lemma EmitBoth(cfg: Config, st: FusionState, g: BucketState, d: BucketState, now: real)
    requires g.sightings != [] && d.sightings != [] && g.hasGood && !d.hasGood && g.openedAt < d.openedAt
    requires Build(cfg, d).combined
    requires Fold(cfg, Emitting(st, [g], [], []), d, MessageKey(Build(cfg, d).packet)).None?
    ensures Emit(cfg, st, [g, d], now)
         == Finish(Finish(Emitting(st, [g], [], []), d, Build(cfg, d), now), g, Build(cfg, g), now)
  {
    hide Build, Finish, Fold, MessageKey;
    assert SortBy([d], Opened()) == [d];
    assert [g, d][1..] == [d];
    assert SortBy([g, d], Opened()) == [g, d];
    FilterAllGood([g]);
    FilterLastDamaged([g], d);
    var start := Emitting(st, [g], [], []);
    assert SettleAll(cfg, start, [], now) == start;
    assert [d][..0] == [];
    var settled := Finish(start, d, Build(cfg, d), now);
    assert SettleAll(cfg, start, [d], now) == settled;
    FinishKeepsPending(start, d, Build(cfg, d), now);
    assert [g][..0] == [];
    assert FinishAll(cfg, settled, [], now) == settled;
    assert FinishAll(cfg, settled, [g], now) == Finish(settled, g, Build(cfg, g), now);
  }

  lemma FilterLastDamaged(bs: seq<BucketState>, d: BucketState)
    requires !d.hasGood && Filter(bs, true) == bs && Filter(bs, false) == []
    ensures Filter(bs + [d], true) == bs && Filter(bs + [d], false) == [d]
  {
    assert (bs + [d])[..|bs|] == bs;
    assert bs + [] == bs && [] + [d] == [d];
  }

  /** Both are due. */
  lemma BothDue(g: Slot, d: Slot, now: real)
    requires Deadline(DEFAULTS, g.bucket) < now && Deadline(DEFAULTS, d.bucket) < now
    ensures PopDone(DEFAULTS, EMPTY.(open := [g, d]), now) == [g.bucket, d.bucket]
    ensures PopRest(DEFAULTS, EMPTY.(open := [g, d]), now) == EMPTY
  {
    hide Deadline;
    assert [g, d][..1] == [g] && [g][..0] == [];
    assert ClosedBuckets(DEFAULTS, [], now) == [] && StillOpen(DEFAULTS, [], now) == [];
    assert ClosedBuckets(DEFAULTS, [g], now) == [g.bucket] && StillOpen(DEFAULTS, [g], now) == [];
    assert ClosedBuckets(DEFAULTS, [g, d], now) == [g.bucket, d.bucket] && StillOpen(DEFAULTS, [g, d], now) == [];
    assert Remembered(DEFAULTS, map[], now) == map[];
    assert [] + [g.bucket, d.bucket] == [g.bucket, d.bucket];
  }

  /** Two emissions of one message come back in the order they were first seen. */
  lemma ReturnedBackwards(out: seq<Emission>, key: Wire)
    requires |out| == 2 && out[1].event.firstSeen < out[0].event.firstSeen && out[0].event.key == out[1].event.key == key
    ensures Events(out) == [out[1].event, out[0].event]
    ensures NumbersOf(Events(out), key) == [out[1].event.repeatIndex, out[0].event.repeatIndex]
  {
    var f := FirstSeen();
    assert out[1..] == [out[1]] && [out[1]][1..] == [];
    assert SortBy([out[1]], f) == [out[1]];
    assert SortBy(out, f) == Insert(out[0], [out[1]], f);
    assert SortBy(out, f) == [out[1], out[0]];
    var events := [out[1].event, out[0].event];
    assert Events(out) == events;
    assert events[1..] == [out[0].event] && [out[0].event][1..] == [];
    assert NumbersOf([out[0].event], key) == [out[0].event.repeatIndex];
  }

  lemma NoneGood(c: Sighting, l: Sighting)
    requires !GoodCopy(c) && !GoodCopy(l)
    ensures BestGood([c, l]).None?
  {
    hide GoodCopy;
    assert [c, l][..1] == [c] && [c][..0] == [];
    assert BestGood([c]).None?;
  }

  lemma OneGood(g: Sighting)
    requires GoodCopy(g)
    ensures BestGood([g]) == Some(g)
  {
    hide GoodCopy;
    assert [g][..0] == [];
  }

  /** One copy alone holds its bucket open for the window. */
  lemma OneCopyDeadline(key: Wire, s: Sighting)
    ensures Deadline(DEFAULTS, NewBucket(key, s)) == s.when + 0.6
    ensures NewBucket(key, s).sightings == [s] && NewBucket(key, s).openedAt == NewBucket(key, s).lastAt == s.when
  {
    hide MessageKey;
    assert Extension(DEFAULTS, 1) == 0.0;
  }

  /** The two later copies are within the window of each other, and past the window of the earlier one. */
  predicate LaterTogether(g: Sighting, c: Sighting, l: Sighting) {
    c.when - 0.6 <= l.when <= c.when + 0.6 && g.when + 0.6 < MinReal(c.when, l.when)
  }

  /** The two buckets: one verified copy, and two bad ones that combine to the same message. */
  lemma BuiltBackwards(g: Sighting, c: Sighting, l: Sighting, data: Wire)
    requires GoodCopy(g) && g.packet.data == data && !c.packet.Verified() && !l.packet.Verified()
    requires Encodable(data) && CombineOf([c, l]) == Some(Expected(data, Some(c.when)))
    ensures var key := MessageKey(g.packet);
            var gb, db := NewBucket(key, g), AddTo(NewBucket(MessageKey(c.packet), c), l);
            gb.sightings == [g] && gb.key == key && gb.hasGood && gb.openedAt == gb.lastAt == g.when &&
            db.sightings == [c, l] && !db.hasGood && db.openedAt == MinReal(c.when, l.when) && Build(DEFAULTS, db).combined &&
            KeyOf(Build(DEFAULTS, db)) == KeyOf(Build(DEFAULTS, gb)) == key && MessageKey(Build(DEFAULTS, db).packet) == key &&
            Build(DEFAULTS, db).firstSeen == MinReal(c.when, l.when) && Build(DEFAULTS, gb).firstSeen == g.when
  {
    hide MessageKey, CombineOf, PacketBits, Packet.Verified, Packet.HopsOk, Views, Closest, HopsMin, HopsMax, BestGood;
    var key := MessageKey(g.packet);
    var gb, db := NewBucket(key, g), AddTo(NewBucket(MessageKey(c.packet), c), l);
    SameKey(g.packet, Expected(data, Some(c.when)));
    assert gb.sightings == [g] && db.sightings == [c, l];
    NoneGood(c, l);
    OneGood(g);
    assert Build(DEFAULTS, db).combined && Build(DEFAULTS, db).packet == Expected(data, Some(c.when));
    assert !Build(DEFAULTS, gb).combined;
  }

  /** What the two buckets hold, and how they come out. */
  lemma FinishedBackwards(g: Sighting, c: Sighting, l: Sighting, data: Wire, now: real)
    requires GoodCopy(g) && g.packet.data == data && !c.packet.Verified() && !l.packet.Verified() && LaterTogether(g, c, l)
    requires Encodable(data) && CombineOf([c, l]) == Some(Expected(data, Some(c.when)))
    ensures var key := MessageKey(g.packet);
            var gb, db := NewBucket(key, g), AddTo(NewBucket(MessageKey(c.packet), c), l);
            gb.sightings == [g] && db.sightings == [c, l] &&
            var out := Emit(DEFAULTS, EMPTY, [gb, db], now).out;
            |out| == 2 && out[0].event.key == out[1].event.key == key && out[0].event.combined &&
            out[0].bucket == db && out[1].bucket == gb && out[0].event.firstSeen == MinReal(c.when, l.when) && out[1].event.firstSeen == g.when &&
            out[0].event.repeatIndex == 0 && out[1].event.repeatIndex == 1
  {
    hide MessageKey, CombineOf, Expected, PacketBits, GoodCopy, Packet.Verified, NewBucket, AddTo, Build, Emit, Deadline;
    var key := MessageKey(g.packet);
    var gb, db := NewBucket(key, g), AddTo(NewBucket(MessageKey(c.packet), c), l);
    BuiltBackwards(g, c, l, data);
    OneCopyDeadline(key, g);
    assert !Accepts(DEFAULTS, gb, db.openedAt);
    assert HomeOf(DEFAULTS, [gb][1..], key, db.openedAt).None?;
    assert HomeOf(DEFAULTS, [gb], key, db.openedAt).None? && SlotOf([], key).None?;
    EmitBoth(DEFAULTS, EMPTY, gb, db, now);
  }

  /** The two bad copies give the message back. */
  lemma BadCopiesCombine(data: Wire, f: nat, b: nat, c: Sighting, l: Sighting)
    requires Whole(data) && f < 8 && b < 8 && c.bits == EightFrames(data)[15..] && c.soft.None?
    requires l.bits == LoudBits(data, f, b) && l.soft == Some(LoudSoft(Heard(data), PairOf(f, b)))
    ensures CombineOf([c, l]) == Some(Expected(data, Some(c.when)))
  {
    hide PacketBits, LoudSoft, VoteOf, Accept, Expected, PacketCrc, HasExt;
    SentPair(data, f, b);
    assert c.bits == Heard(data)[..|c.bits|];
    ShortAndLoud(Heard(data), PairOf(f, b), c, l);
    AcceptsWhole(data, Some(c.when));
  }

  lemma KeyLength(pkt: Packet)
    ensures |pkt.data| <= STD_CRC_INDEX ==> |MessageKey(pkt)| == |pkt.data|
    ensures |pkt.data| > STD_CRC_INDEX ==> |MessageKey(pkt)| >= STD_CRC_INDEX
  {
    hide HasExt;
  }

  /** How the two messages are gathered. */
  lemma ThreeAdded(data: Wire, f: nat, b: nat, g: Sighting, c: Sighting, l: Sighting)
    requires Whole(data) && MIN_BYTES <= f < 8 && b < 8 && LaterTogether(g, c, l)
    requires g.packet.data == data && c.packet.data == data[..8] && l.packet.data == data[..f]
    requires !c.packet.Verified() && !l.packet.Verified() && c.bits == EightFrames(data)[15..] && l.bits == LoudBits(data, f, b)
    ensures AddStep(DEFAULTS, AddStep(DEFAULTS, AddStep(DEFAULTS, EMPTY, g), c), l)
         == EMPTY.(open := [Slot(MessageKey(g.packet), NewBucket(MessageKey(g.packet), g)),
                            Slot(MessageKey(c.packet), AddTo(NewBucket(MessageKey(c.packet), c), l))])
  {
    hide PacketBits, MessageKey, Distance, LoudBits, EightFrames, Packet.Verified, PacketCrc, HasExt;
    KeyLength(g.packet);
    KeyLength(c.packet);
    KeyLength(l.packet);
    LoudIsNear(data, f, b);
    var first := Slot(MessageKey(g.packet), NewBucket(MessageKey(g.packet), g));
    var second := Slot(MessageKey(c.packet), NewBucket(MessageKey(c.packet), c));
    OneCopyDeadline(MessageKey(g.packet), g);
    OneCopyDeadline(MessageKey(c.packet), c);
    hide Deadline;
    assert !Accepts(DEFAULTS, first.bucket, c.when) && !Accepts(DEFAULTS, first.bucket, l.when);
    assert Similarity(DEFAULTS, second.bucket, l).Some?;
    hide NewBucket, AddStep, AddTo, Accepts, Similarity;
    OpensAlone(g);
    OpensSecond(first, c);
    JoinsSecond(first, second, l);
  }

  /** Both events are g's message; the later one, combined, is finished first, and the earlier one returned first, as number 1. */
  ghost predicate ReturnsBackwards(out: seq<Emission>, g: Sighting, c: Sighting, l: Sighting) {
    |out| == 2 && out[1].bucket.sightings == [g] && out[0].bucket.sightings == [c, l] && out[0].event.combined &&
    Events(out) == [out[1].event, out[0].event] && out[1].event.firstSeen == g.when < out[0].event.firstSeen &&
    NumbersOf(Events(out), MessageKey(g.packet)) == [1, 0]
  }

  /** How they come out. */
  lemma ThreePopped(data: Wire, g: Sighting, c: Sighting, l: Sighting, now: real)
    requires Encodable(data) && GoodCopy(g) && g.packet.data == data && !c.packet.Verified() && !l.packet.Verified()
    requires LaterTogether(g, c, l) && MinReal(c.when, l.when) + 2.0 < now
    requires CombineOf([c, l]) == Some(Expected(data, Some(c.when)))
    ensures var key := MessageKey(g.packet);
            var st := EMPTY.(open := [Slot(key, NewBucket(key, g)), Slot(MessageKey(c.packet), AddTo(NewBucket(MessageKey(c.packet), c), l))]);
            Sane(st) && ReturnsBackwards(PopStep(DEFAULTS, st, now).out, g, c, l)
  {
    hide MessageKey, CombineOf, Expected, PacketBits, Packet.Verified, Packet.HopsOk, Emit;
    var first := Slot(MessageKey(g.packet), NewBucket(MessageKey(g.packet), g));
    var second := Slot(MessageKey(c.packet), AddTo(NewBucket(MessageKey(c.packet), c), l));
    BothDue(first, second, now);
    FinishedBackwards(g, c, l, data, now);
    hide NewBucket, AddTo, Events, NumbersOf;
    ReturnedBackwards(PopStep(DEFAULTS, EMPTY.(open := [first, second]), now).out, MessageKey(g.packet));
  }

  /** A capture with a header at `pos`, stamped by its receiver, and what it is a sighting of. */
  ghost predicate HeardAs(bits: Bits, conf: Option<Soft>, pos: nat, o: Origin, clock: real, s: Sighting) {
    o.timestamp.Some? && HeaderAt(bits, pos) && (conf.Some? ==> |conf.value| == |bits|) &&
    SightingAt(bits, conf, pos, o, clock, MIN_BYTES) == Some(s)
  }

  /** When a packet in a stamped capture went out. */
  function OnAirAt(o: Origin, pos: nat): real
    requires o.timestamp.Some?
  {
    SentAt(o, pos).value
  }

  /**
   * A message is heard whole and, later, sent again and heard twice badly: once cut short, once with a symbol loudly
   * wrong. One pop finishes both buckets. The later one has no verified copy, so it is settled first, and combines to the
   * message: it is number 0. The earlier one is number 1, and comes first in what is returned.
   */
  lemma NumbersOutOfOrder(data: Wire, f: nat, b: nat, o1: Origin, o2: Origin, o3: Origin, clock: real, now: real)
    returns (g: Sighting, c: Sighting, l: Sighting)
    requires Whole(data) && MIN_BYTES <= f < 8 && b < 8
    requires o1.timestamp.Some? && o2.timestamp.Some? && o3.timestamp.Some?
    requires OnAirAt(o2, 15) - 0.6 <= OnAirAt(o3, 0) <= OnAirAt(o2, 15) + 0.6
    requires OnAirAt(o1, 15) + 0.6 < MinReal(OnAirAt(o2, 15), OnAirAt(o3, 0)) < now - 2.0
    ensures HeardAs(PacketBits(data), None, 15, o1, clock, g)
    ensures HeardAs(EightFrames(data), None, 15, o2, clock, c)
    ensures HeardAs(LoudBits(data, f, b), Some(LoudSoft(Heard(data), PairOf(f, b))), 0, o3, clock, l)
    ensures var st := AddStep(DEFAULTS, AddStep(DEFAULTS, AddStep(DEFAULTS, EMPTY, g), c), l);
            Sane(st) && ReturnsBackwards(PopStep(DEFAULTS, st, now).out, g, c, l)
  {
    hide PacketBits, SightingAt, MessageKey, Distance, PacketCrc, HasExt, HopsLegal, START_HEADER, PatternAt, LoudBits,
         LoudSoft, CombineOf, VoteOf, Accept, Packet.Verified, EightFrames, Heard, ReturnsBackwards;
    HeaderKept(data);
    WholeSighting(data, o1, clock);
    CutSighting(data, o2, clock);
    LoudSighting(data, f, b, o3, clock);
    g := SightingAt(PacketBits(data), None, 15, o1, clock, MIN_BYTES).value;
    c := SightingAt(EightFrames(data), None, 15, o2, clock, MIN_BYTES).value;
    l := SightingAt(LoudBits(data, f, b), Some(LoudSoft(Heard(data), PairOf(f, b))), 0, o3, clock, MIN_BYTES).value;
    ThreeAdded(data, f, b, g, c, l);
    BadCopiesCombine(data, f, b, c, l);
    ThreePopped(data, g, c, l, now);
  }
}
