/** Soft-decision framing and the CRC-guided repair of one receiver's copy. */
module Recover {
  import opened Common
  import opened Packets
  import opened Sorting
  import opened FlipSearch

  const FRAME_INDEX_BITS: nat := 5
  const FRAME_LOGICAL_BITS: nat := 13

  /** Per-symbol signed confidence; positive means 1. */
  type Soft = seq<real>

  function Hard(bits: Bits): (r: Soft)
    ensures |r| == |bits|
  {
    seq(|bits|, i requires 0 <= i < |bits| => if bits[i] then 1.0 else -1.0)
  }

  /** _soft_for */
  function SoftFor(bits: Bits, soft: Option<Soft>): (r: Soft)
    ensures |r| == |bits|
  {
    if soft.Some? && |soft.value| >= |bits| then soft.value[..|bits|] else Hard(bits)
  }

  function Abs(x: real): real { if x < 0.0 then -x else x }

  // ------------------------------------------------------------------ logical bits

  /** The likelihood that the pair at `a` carries a logical 1. */
  function Likelihood(sym: Soft, a: nat): real
    requires a + 1 < |sym|
  {
    sym[a + 1] - sym[a]
  }

  predicate IllegalAt(sym: Soft, a: nat)
    requires a + 1 < |sym|
  {
    (sym[a] > 0.0) == (sym[a + 1] > 0.0)
  }

  datatype Logical = Logical(values: Bits, conf: seq<real>, illegal: nat)

  /** How many of `count` pairs from `start` lie inside the symbols. */
  function PairsInside(size: nat, start: nat, count: nat): nat {
    if start >= size then 0 else Min(count, (size - start) / 2)
  }

  function IllegalPairs(sym: Soft, start: nat, n: nat): nat
    requires start + 2 * n <= |sym|
  {
    if n == 0 then 0
    else IllegalPairs(sym, start, n - 1) + if IllegalAt(sym, start + 2 * (n - 1)) then 1 else 0
  }

  /** _logical */
  function LogicalAt(sym: Soft, start: nat, count: nat): Logical {
    var n := PairsInside(|sym|, start, count);
    Logical(seq(n, i requires 0 <= i < n => Likelihood(sym, start + 2 * i) > 0.0),
            seq(n, i requires 0 <= i < n => Abs(Likelihood(sym, start + 2 * i))),
            if n == 0 then 0 else IllegalPairs(sym, start, n))
  }

  method ReadLogical(sym: Soft, start: nat, count: nat) returns (r: Logical)
    ensures r == LogicalAt(sym, start, count)
  {
    var values: Bits := [];
    var conf: seq<real> := [];
    var illegal := 0;
    var i := 0;
    while i < count
      invariant i <= count && |values| == |conf| == i
      invariant i > 0 ==> start + 2 * i <= |sym|
      invariant illegal == if i == 0 then 0 else IllegalPairs(sym, start, i)
      invariant forall k :: 0 <= k < i ==> values[k] == (Likelihood(sym, start + 2 * k) > 0.0)
      invariant forall k :: 0 <= k < i ==> conf[k] == Abs(Likelihood(sym, start + 2 * k))
    {
      var a := start + 2 * i;
      if a + 1 >= |sym| {
        break;
      }
      var llr := sym[a + 1] - sym[a];
      values := values + [llr > 0.0];
      conf := conf + [Abs(llr)];
      if (sym[a] > 0.0) == (sym[a + 1] > 0.0) {
        illegal := illegal + 1;
      }
      i := i + 1;
    }
    r := Logical(values, conf, illegal);
    assert i == PairsInside(|sym|, start, count);
    assert r.values == LogicalAt(sym, start, count).values;
    assert r.conf == LogicalAt(sym, start, count).conf;
  }

  // ------------------------------------------------------------------ bytes, counters, CRCs

  function FrameByte(values: Bits, f: nat): byte
    requires FRAME_LOGICAL_BITS * (f + 1) <= |values|
  {
    ByteValue(values[FRAME_LOGICAL_BITS * f + FRAME_INDEX_BITS..FRAME_LOGICAL_BITS * (f + 1)])
  }

  function FrameCounter(values: Bits, f: nat): nat
    requires FRAME_LOGICAL_BITS * (f + 1) <= |values|
  {
    IndexValue(values[FRAME_LOGICAL_BITS * f..FRAME_LOGICAL_BITS * f + FRAME_INDEX_BITS])
  }

  /** _bytes_from */
  function BytesFrom(values: Bits, nframes: nat): (r: seq<byte>)
    requires FRAME_LOGICAL_BITS * nframes <= |values|
    ensures |r| == nframes
  {
    seq(nframes, f requires 0 <= f < nframes => FrameByte(values, f))
  }

  /** Wrong counters among the first n frames. */
  function WrongCounters(values: Bits, n: nat, extended: bool): nat
    requires FRAME_LOGICAL_BITS * n <= |values|
  {
    if n == 0 then 0
    else WrongCounters(values, n - 1, extended) +
         if FrameCounter(values, n - 1) != ExpectedIndex(extended, n - 1) then 1 else 0
  }

  function KindLength(extended: bool): nat { if extended then EXT_LEN else STD_LEN }

  /** _index_errors */
  method IndexErrors(values: Bits, nframes: nat, extended: bool) returns (bad: nat)
    requires FRAME_LOGICAL_BITS * nframes <= |values|
    ensures bad == WrongCounters(values, Min(nframes, KindLength(extended)), extended)
  {
    hide IndexValue, FrameCounter;
    bad := 0;
    for f := 0 to Min(nframes, KindLength(extended))
      invariant bad == WrongCounters(values, f, extended)
    {
      if FrameCounter(values, f) != ExpectedIndex(extended, f) {
        bad := bad + 1;
      }
    }
  }

  /** _crc_ok, with the kind decided by the caller rather than by the flags byte. */
  predicate CrcsPass(data: seq<byte>, extended: bool) {
    if extended then
      |data| > EXT_CRC_INDEX && data[EXT_CRC_INDEX] == PacketCrc(data) && data[EXT_DATA_CRC_INDEX] == ExtCrc(data)
    else
      |data| > STD_CRC_INDEX && data[STD_CRC_INDEX] == PacketCrc(data)
  }

  /** What a repair must achieve: passing CRCs and no wrong counter. */
  predicate Repaired(trial: Bits, nframes: nat, extended: bool) {
    FRAME_LOGICAL_BITS * nframes <= |trial| &&
    CrcsPass(BytesFrom(trial, nframes), extended) &&
    WrongCounters(trial, Min(nframes, KindLength(extended)), extended) == 0
  }

  // ------------------------------------------------------------------ suspects

  /** The logical positions that carry data, in order. */
  function DataPositions(nframes: nat): (r: seq<nat>)
    ensures |r| == 8 * nframes
    ensures forall k :: 0 <= k < |r| ==> r[k] < FRAME_LOGICAL_BITS * nframes && r[k] % FRAME_LOGICAL_BITS >= FRAME_INDEX_BITS
    ensures Distinct(r)
  {
    var r := seq(8 * nframes, k requires 0 <= k < 8 * nframes => DataPosition(k));
    assert forall k :: 0 <= k < |r| ==> r[k] == DataPosition(k);
    DataPositionsAscend(nframes);
    r
  }

  function DataPosition(k: nat): nat { FRAME_LOGICAL_BITS * (k / 8) + FRAME_INDEX_BITS + k % 8 }

  lemma DataPositionsAscend(nframes: nat)
    ensures forall k: nat :: k < 8 * nframes ==>
              DataPosition(k) < FRAME_LOGICAL_BITS * nframes && DataPosition(k) % FRAME_LOGICAL_BITS >= FRAME_INDEX_BITS
    ensures forall j: nat, k: nat :: j < k < 8 * nframes ==> DataPosition(j) != DataPosition(k)
  {
    forall k: nat | k < 8 * nframes
      ensures DataPosition(k) < FRAME_LOGICAL_BITS * nframes && DataPosition(k) % FRAME_LOGICAL_BITS >= FRAME_INDEX_BITS
    {
      PositionInFrame(k / 8, k % 8, nframes);
    }
    forall j: nat, k: nat | j < k < 8 * nframes ensures DataPosition(j) != DataPosition(k) {
      OnePosition(j / 8, j % 8, k / 8, k % 8);
    }
  }

  lemma PositionInFrame(f: nat, b: nat, nframes: nat)
    requires f < nframes && b < 8
    ensures var p := FRAME_LOGICAL_BITS * f + FRAME_INDEX_BITS + b;
            p < FRAME_LOGICAL_BITS * nframes && p % FRAME_LOGICAL_BITS == FRAME_INDEX_BITS + b
  {
  }

  lemma OnePosition(f: nat, b: nat, g: nat, c: nat)
    requires b < 8 && c < 8
    ensures FRAME_LOGICAL_BITS * f + FRAME_INDEX_BITS + b == FRAME_LOGICAL_BITS * g + FRAME_INDEX_BITS + c ==> f == g && b == c
  {
  }

  function ConfAt(conf: seq<real>): nat -> real {
    (p: nat) => if p < |conf| then conf[p] else 0.0
  }

  /** numpy's median of a non-empty list. */
  function Median(xs: seq<real>): real
    requires xs != []
  {
    var s := SortBy(xs, (x: real) => x);
    SortSorted(xs, (x: real) => x);
    if |s| % 2 == 1 then s[|s| / 2] else (s[|s| / 2 - 1] + s[|s| / 2]) / 2.0
  }

  /** The median is the middle of the values. */
  lemma MedianIsMiddle(xs: seq<real>)
    requires xs != []
    ensures IsMiddle(xs, Median(xs))
  {
    var key := (x: real) => x;
    var n := |xs|;
    SortSorted(xs, key);
    SortedPlace(xs, key, n / 2);
    if n % 2 == 0 {
      SortedPlace(xs, key, n / 2 - 1);
      hide AtPlace;
      assert Middles(xs, SortBy(xs, key)[n / 2 - 1], SortBy(xs, key)[n / 2]);
    }
  }

  /** How sure each of the packet's data bits is. */
  function DataConf(conf: seq<real>, nframes: nat): (r: seq<real>)
    requires |conf| == FRAME_LOGICAL_BITS * nframes
    ensures |r| == 8 * nframes
  {
    seq(8 * nframes, k requires 0 <= k < 8 * nframes => conf[DataPositions(nframes)[k]])
  }

  /** Half the packet's median confidence, with Python's `or 1.0` for a zero median. */
  function Threshold(conf: seq<real>, nframes: nat): real
    requires nframes > 0 && |conf| == FRAME_LOGICAL_BITS * nframes
  {
    var median := Median(DataConf(conf, nframes));
    0.5 * if median == 0.0 then 1.0 else median
  }

  function Below(at: seq<nat>, conf: seq<real>, limit: real): seq<nat> {
    if at == [] then []
    else (if ConfAt(conf)(at[0]) <= limit then [at[0]] else []) + Below(at[1..], conf, limit)
  }

  /** The data bits worth flipping: doubtful ones, least confident first, at most `candidates` of them. */
  function Suspects(conf: seq<real>, nframes: nat, candidates: nat): seq<nat>
    requires nframes > 0 && |conf| == FRAME_LOGICAL_BITS * nframes
  {
    var sorted := SortBy(Below(DataPositions(nframes), conf, Threshold(conf, nframes)), ConfAt(conf));
    sorted[..Min(candidates, |sorted|)]
  }

  /** _repair */
  function Repair(values: Bits, conf: seq<real>, nframes: nat, extended: bool, maxFlips: nat, candidates: nat): Option<Hit>
    requires nframes > 0 && |values| == |conf| == FRAME_LOGICAL_BITS * nframes
  {
    Search(values, Suspects(conf, nframes, candidates), maxFlips, trial => Repaired(trial, nframes, extended))
  }

  /** Python's _repair: the repaired bytes and how many bits were flipped. */
  method TryRepair(values: Bits, conf: seq<real>, nframes: nat, extended: bool, maxFlips: nat, candidates: nat)
    returns (fixed: Option<(seq<byte>, nat)>)
    requires nframes > 0 && |values| == |conf| == FRAME_LOGICAL_BITS * nframes
    ensures var hit := Repair(values, conf, nframes, extended, maxFlips, candidates);
            (fixed.Some? <==> hit.Some?) &&
            (hit.Some? ==> Repaired(hit.value.bits, nframes, extended) &&
                           fixed.value == (BytesFrom(hit.value.bits, nframes), hit.value.flips))
  {
    var suspects := Suspects(conf, nframes, candidates);
    LeastSureOfThem(conf, nframes, candidates);
    var trial := new bool[|values|](i requires 0 <= i < |values| => values[i]);
    assert trial[..] == values;
    var accept := (t: Bits) => Repaired(t, nframes, extended);
    forall i | 0 <= i < |suspects| ensures suspects[i] < trial.Length {
      assert suspects[i] in suspects;
    }
    var hit := FindHit(trial, suspects, maxFlips, accept);
    var _ := SearchExact(values, suspects, maxFlips, accept);
    fixed := match hit case None => None case Some(h) => Some((BytesFrom(h.bits, nframes), h.flips));
  }

  lemma {:induction false} BelowExact(at: seq<nat>, conf: seq<real>, limit: real)
    requires Distinct(at)
    ensures Distinct(Below(at, conf, limit))
    ensures forall p :: p in Below(at, conf, limit) <==> p in at && ConfAt(conf)(p) <= limit
  {
    if at != [] {
      BelowExact(at[1..], conf, limit);
      assert forall p :: p in at <==> p == at[0] || p in at[1..];
    }
  }

  /**
   * The suspects are distinct data bits no surer than half of m, the middle of what the data bits' confidences are, or than
   * a half if that is zero; and the least sure such bits: one that was passed over is no less sure than any suspect, and
   * then the list is full.
   */
  lemma SuspectsDoubtful(conf: seq<real>, nframes: nat, candidates: nat) returns (m: real)
    requires nframes > 0 && |conf| == FRAME_LOGICAL_BITS * nframes
    ensures IsMiddle(DataConf(conf, nframes), m)
    ensures var s := Suspects(conf, nframes, candidates);
            var limit := if m == 0.0 then 0.5 else m / 2.0;
            limit == Threshold(conf, nframes) &&
            Distinct(s) && |s| <= candidates && SortedBy(s, ConfAt(conf)) &&
            (forall p :: p in s ==> p < |conf| && p in DataPositions(nframes) && conf[p] <= limit) &&
            forall p :: p in DataPositions(nframes) && p !in s && conf[p] <= limit ==>
                        |s| == candidates && forall q :: q in s ==> conf[q] <= conf[p]
  {
    m := Median(DataConf(conf, nframes));
    MedianIsMiddle(DataConf(conf, nframes));
    LeastSureOfThem(conf, nframes, candidates);
    hide Suspects, IsMiddle, Median, SortedBy, DataPositions, DataConf;
  }

  lemma LeastSureOfThem(conf: seq<real>, nframes: nat, candidates: nat)
    requires nframes > 0 && |conf| == FRAME_LOGICAL_BITS * nframes
    ensures var s := Suspects(conf, nframes, candidates);
            var limit := Threshold(conf, nframes);
            Distinct(s) && |s| <= candidates && SortedBy(s, ConfAt(conf)) &&
            (forall p :: p in s ==> p < |conf| && p in DataPositions(nframes) && conf[p] <= limit) &&
            forall p :: p in DataPositions(nframes) && p !in s && conf[p] <= limit ==>
                        |s| == candidates && forall q :: q in s ==> conf[q] <= conf[p]
  {
    hide Threshold, DataPositions;
    var at := DataPositions(nframes);
    var limit := Threshold(conf, nframes);
    var below := Below(at, conf, limit);
    BelowExact(at, conf, limit);
    var key := ConfAt(conf);
    var sorted := SortBy(below, key);
    SortSorted(below, key);
    SortDistinct(below, key);
    SameElements(below, key);
    var n := Min(candidates, |sorted|);
    PrefixKeeps(sorted, n, key);
    forall p | p in at && p !in sorted[..n] && conf[p] <= limit
      ensures n == candidates && forall q :: q in sorted[..n] ==> conf[q] <= conf[p]
    {
      PrefixLeast(sorted, n, key, p);
    }
    hide Below, SortBy, SortedBy, Distinct;
  }

  // ------------------------------------------------------------------ one packet

  datatype Limits = Limits(maxFlips: nat, candidates: nat, maxIndexErrors: nat, repair: bool)

  datatype Recovered = Recovered(packet: Packet, corrected: nat, indexErrors: nat, manchesterErrors: nat, minConfidence: real)

  /** Frames from `first` that lie wholly inside the symbols. */
  function WholeFrames(size: nat, first: nat): nat {
    if first >= size then 0 else (size - first) / FRAME_BITS
  }

  function FrameBase(first: nat, f: nat): nat { first + FRAME_BITS * f + 2 }

  function AllValues(sym: Soft, first: nat, n: nat): (r: Bits)
    requires n <= WholeFrames(|sym|, first)
    ensures |r| == FRAME_LOGICAL_BITS * n
  {
    if n == 0 then []
    else AllValues(sym, first, n - 1) + LogicalAt(sym, FrameBase(first, n - 1), FRAME_LOGICAL_BITS).values
  }

  function AllConf(sym: Soft, first: nat, n: nat): (r: seq<real>)
    requires n <= WholeFrames(|sym|, first)
    ensures |r| == FRAME_LOGICAL_BITS * n
  {
    if n == 0 then []
    else AllConf(sym, first, n - 1) + LogicalAt(sym, FrameBase(first, n - 1), FRAME_LOGICAL_BITS).conf
  }

  function AllIllegal(sym: Soft, first: nat, n: nat): nat {
    if n == 0 then 0
    else AllIllegal(sym, first, n - 1) + LogicalAt(sym, FrameBase(first, n - 1), FRAME_LOGICAL_BITS).illegal
  }

  /** Whether the flags byte read from frame 0 says extended. */
  predicate ReadsExtended(sym: Soft, first: nat)
    requires WholeFrames(|sym|, first) > 0
  {
    HasExt(FrameByte(LogicalAt(sym, first + 2, FRAME_LOGICAL_BITS).values, 0))
  }

  /** Python's min of a non-empty list. */
  function Least(xs: seq<real>): (r: real)
    requires xs != []
    ensures r in xs && forall x :: x in xs ==> r <= x
  {
    if |xs| == 1 then xs[0]
    else
      assert xs == xs[..|xs| - 1] + [xs[|xs| - 1]];
      var before := Least(xs[..|xs| - 1]);
      if xs[|xs| - 1] < before then xs[|xs| - 1] else before
  }

  /** How sure the least sure bit was. */
  method LeastConfidence(conf: seq<real>) returns (least: real)
    requires conf != []
    ensures least == Least(conf)
  {
    least := conf[0];
    assert conf[..1] == [conf[0]];
    for i := 1 to |conf|
      invariant least == Least(conf[..i])
    {
      assert conf[..i + 1][..i] == conf[..i];
      if conf[i] < least {
        least := conf[i];
      }
    }
    assert conf[..|conf|] == conf;
  }

  /** The packet if its hop fields are possible. */
  function IfHopsLegal(bits: Bits, pos: nat, timestamp: Option<real>, data: Wire, corrected: nat, errors: nat, illegal: nat,
                       least: real): Option<Recovered>
    requires pos + MARKER_OFFSET + FRAME_BITS * |data| <= |bits|
  {
    var pkt := Packet(data, bits[pos..pos + MARKER_OFFSET + FRAME_BITS * |data|], timestamp, true, corrected, Some(true));
    if pkt.HopsOk() then Some(Recovered(pkt, corrected, errors, illegal, least)) else None
  }

  /** _recover_at */
  function Recovery(bits: Bits, sym: Soft, pos: nat, timestamp: Option<real>, limits: Limits): Option<Recovered>
    requires |sym| == |bits|
  {
    var first := pos + MARKER_OFFSET;
    if WholeFrames(|sym|, first) == 0 then None
    else
      var extended := ReadsExtended(sym, first);
      var n := Min(KindLength(extended), WholeFrames(|sym|, first));
      var values := AllValues(sym, first, n);
      var least := Least(AllConf(sym, first, n));
      var errors := WrongCounters(values, n, extended);
      if errors > limits.maxIndexErrors then None
      else if CrcsPass(BytesFrom(values, n), extended) then
        IfHopsLegal(bits, pos, timestamp, BytesFrom(values, n), 0, errors, AllIllegal(sym, first, n), least)
      else if !limits.repair then None
      else
        var hit := Repair(values, AllConf(sym, first, n), n, extended, limits.maxFlips, limits.candidates);
        if hit.None? then None
        else
          SearchKeepsLength(values, Suspects(AllConf(sym, first, n), n, limits.candidates), limits.maxFlips,
                            trial => Repaired(trial, n, extended));
          IfHopsLegal(bits, pos, timestamp, BytesFrom(hit.value.bits, n), hit.value.flips, 0, AllIllegal(sym, first, n), least)
  }

  lemma SearchKeepsLength(values: Bits, suspects: seq<nat>, most: nat, accept: Bits -> bool)
    ensures forall h :: Search(values, suspects, most, accept) == Some(h) ==> |h.bits| == |values| && accept(h.bits)
  {
    ChoicesInRange(|suspects|, most);
    var _ := FirstHitIsFirst(values, suspects, ChoicesUpTo(|suspects|, most), accept);
  }

  /** Frame after frame until `most` or the end of the symbols. */
  method ReadFrames(sym: Soft, first: nat, most: nat) returns (values: Bits, conf: seq<real>, illegal: nat, f: nat)
    ensures f == Min(most, WholeFrames(|sym|, first))
    ensures values == AllValues(sym, first, f) && conf == AllConf(sym, first, f) && illegal == AllIllegal(sym, first, f)
  {
    hide Likelihood, Abs, IllegalAt, IllegalPairs;
    values, conf, illegal, f := [], [], 0, 0;
    while f < most
      invariant f <= most && f <= WholeFrames(|sym|, first)
      invariant values == AllValues(sym, first, f)
      invariant conf == AllConf(sym, first, f)
      invariant illegal == AllIllegal(sym, first, f)
    {
      var frame := ReadLogical(sym, first + f * FRAME_BITS + 2, FRAME_LOGICAL_BITS);
      if |frame.values| < FRAME_LOGICAL_BITS {
        break;
      }
      values := values + frame.values;
      conf := conf + frame.conf;
      illegal := illegal + frame.illegal;
      f := f + 1;
    }
  }

  lemma HeadWhole(sym: Soft, first: nat)
    ensures |LogicalAt(sym, first + 2, FRAME_LOGICAL_BITS).values| <= FRAME_LOGICAL_BITS
    ensures |LogicalAt(sym, first + 2, FRAME_LOGICAL_BITS).values| == FRAME_LOGICAL_BITS <==> WholeFrames(|sym|, first) > 0
  {
  }

  method RecoverAt(bits: Bits, sym: Soft, pos: nat, timestamp: Option<real>, limits: Limits) returns (r: Option<Recovered>)
    requires |sym| == |bits|
    ensures r == Recovery(bits, sym, pos, timestamp, limits)
  {
    hide LogicalAt, AllValues, AllConf, AllIllegal, FrameByte, CrcsPass, HasExt, Repair, WrongCounters, BytesFrom,
         Repaired, Least, HopsLegal, Suspects;
    var first := pos + MARKER_OFFSET;
    var head := ReadLogical(sym, first + 2, FRAME_LOGICAL_BITS);
    HeadWhole(sym, first);
    if |head.values| < FRAME_LOGICAL_BITS {
      return None;
    }
    var extended := HasExt(FrameByte(head.values, 0));
    var values, conf, illegal, nframes := ReadFrames(sym, first, KindLength(extended));
    var data := BytesFrom(values, nframes);
    var errors := IndexErrors(values, nframes, extended);
    var corrected := 0;
    if errors > limits.maxIndexErrors {
      return None;
    }
    if !CrcsPass(data, extended) {
      if !limits.repair {
        return None;
      }
      var fixed := TryRepair(values, conf, nframes, extended, limits.maxFlips, limits.candidates);
      if fixed.None? {
        return None;
      }
      data, corrected := fixed.value.0, fixed.value.1;
      errors := 0;
    }
    var least := LeastConfidence(conf);
    r := IfHopsLegal(bits, pos, timestamp, data, corrected, errors, illegal, least);
  }
}
