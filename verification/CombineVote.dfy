/** What the vote of several copies is, said copy by copy, and which positions combining is willing to doubt. */
module CombineVote {
  import opened Common
  import opened Packets
  import opened Framing
  import opened Sorting
  import opened Recover
  import opened Combine
  import Damage
  import RoundTrip

  /** A copy without bits of its own has its packet's, and one whose confidence falls short of its bits has none. */
  lemma CopyMade(packet: Packet, receiver: string, rssi: Option<real>, when: real, bits: Bits, soft: Option<Soft>)
    ensures var s := MakeSighting(packet, receiver, rssi, when, bits, soft);
            s.packet == packet && s.receiver == receiver && s.rssi == rssi && s.when == when &&
            (bits != [] ==> s.bits == bits) && (bits == [] ==> s.bits == packet.bits) &&
            (s.soft.Some? <==> soft.Some? && |soft.value| >= |s.bits|) && (s.soft.Some? ==> s.soft == soft)
  {
  }

  // ------------------------------------------------------------------ bit distance

  /** The places below n where the two differ. */
  ghost function Differing(a: Bits, b: Bits, n: nat): set<nat>
    requires n <= |a| && n <= |b|
  {
    set i: nat | i < n && a[i] != b[i]
  }

  lemma {:induction false} DifferencesCounted(a: Bits, b: Bits, n: nat)
    requires n <= |a| && n <= |b|
    ensures Differences(a, b, n) == |Differing(a, b, n)|
  {
    if n > 0 {
      DifferencesCounted(a, b, n - 1);
      assert Differing(a, b, n) == Differing(a, b, n - 1) + if a[n - 1] != b[n - 1] then {n - 1} else {};
    }
  }

  /** Two copies are compared when at least 200 bits overlap: by the places that differ, or one past the limit if they are more. */
  lemma DistanceExactly(a: Bits, b: Bits, limit: nat)
    ensures var n := Min(|a|, |b|);
            var d := Distance(a, b, limit);
            (d.Some? <==> n >= 200) &&
            (d.Some? ==> d.value == if |Differing(a, b, n)| <= limit then |Differing(a, b, n)| else limit + 1)
  {
    DifferencesCounted(a, b, Min(|a|, |b|));
    hide Differences, Differing;
  }

  // ------------------------------------------------------------------ the vote

  /** What a copy says of a position it reaches: its confidence, if it came with enough; else a whole vote for its bit. */
  function Says(s: Sighting, i: nat): real
    requires i < |s.bits|
  {
    if s.soft.Some? && |s.soft.value| >= |s.bits| then s.soft.value[i] else if s.bits[i] then 1.0 else -1.0
  }

  /** What the copies that reach position i say of it, in their order. */
  function Ballots(copies: seq<Sighting>, i: nat): seq<real> {
    if copies == [] then []
    else
      var last := copies[|copies| - 1];
      Ballots(copies[..|copies| - 1], i) + if i < |last.bits| then [Says(last, i)] else []
  }

  function Added(ballots: seq<real>): real {
    if ballots == [] then 0.0 else Added(ballots[..|ballots| - 1]) + ballots[|ballots| - 1]
  }

  ghost predicate SomeFor(ballots: seq<real>) { exists k :: 0 <= k < |ballots| && ballots[k] > 0.0 }

  ghost predicate SomeAgainst(ballots: seq<real>) { exists k :: 0 <= k < |ballots| && ballots[k] <= 0.0 }

  lemma OneMoreCopySays(copies: seq<Sighting>, s: Sighting, i: nat)
    ensures Ballots(copies + [s], i) == Ballots(copies, i) + if i < |s.bits| then [Says(s, i)] else []
    ensures i < |s.bits| ==> Votes(s)[i] == Says(s, i)
  {
    assert (copies + [s])[..|copies|] == copies;
  }

  lemma RunsUnfold(copies: seq<Sighting>)
    requires copies != []
    ensures var n := |copies| - 1;
            Runs(copies) == Runs(copies[..n]) + if copies[n].bits != [] then [copies[n]] else []
  {
  }

  /** Copies with no bits at all have no say. */
  lemma {:induction false} EmptyCopiesSilent(copies: seq<Sighting>, i: nat)
    ensures Ballots(Runs(copies), i) == Ballots(copies, i)
  {
    if copies == [] {
    } else {
      EmptyCopiesSilent(copies[..|copies| - 1], i);
      SilentStep(copies, i);
    }
  }

  lemma SilentStep(copies: seq<Sighting>, i: nat)
    requires copies != []
    requires Ballots(Runs(copies[..|copies| - 1]), i) == Ballots(copies[..|copies| - 1], i)
    ensures Ballots(Runs(copies), i) == Ballots(copies, i)
  {
    hide Runs, Says, Ballots;
    var n := |copies| - 1;
    var front, last := copies[..n], copies[n];
    RunsUnfold(copies);
    OneMoreCopySays(front, last, i);
    assert front + [last] == copies;
    if last.bits == [] {
      assert Runs(front) + [] == Runs(front);
    } else {
      OneMoreCopySays(Runs(front), last, i);
    }
  }

  /** The tallies in terms of what was said. */
  ghost predicate Tells(runs: seq<Sighting>, i: nat, b: seq<real>) {
    Total(runs, i) == Added(b) && Count(runs, i) == |b| && 0 <= Ones(runs, i) <= |b| &&
    (Ones(runs, i) > 0 <==> SomeFor(b)) && (Ones(runs, i) < |b| <==> SomeAgainst(b)) &&
    (FirstSaysOne(runs, i) <==> b != [] && b[0] > 0.0)
  }

  lemma {:induction false} TalliesAreBallots(runs: seq<Sighting>, i: nat)
    ensures Tells(runs, i, Ballots(runs, i))
  {
    if runs == [] {
    } else {
      hide Total, Count, Ones, FirstSaysOne, SomeFor, SomeAgainst, Added, Ballots, Votes, Says;
      var n := |runs| - 1;
      TalliesAreBallots(runs[..n], i);
      OneMoreCopy(runs[..n], runs[n], i);
      OneMoreCopySays(runs[..n], runs[n], i);
      assert runs[..n] + [runs[n]] == runs;
      if i < |runs[n].bits| {
        OneMoreBallot(Ballots(runs[..n], i), Says(runs[n], i));
      } else {
        assert Ballots(runs, i) == Ballots(runs[..n], i);
      }
    }
  }

  lemma OneMoreBallot(b: seq<real>, x: real)
    ensures Added(b + [x]) == Added(b) + x && (b + [x])[0] == if b == [] then x else b[0]
    ensures (SomeFor(b + [x]) <==> SomeFor(b) || x > 0.0) && (SomeAgainst(b + [x]) <==> SomeAgainst(b) || x <= 0.0)
  {
    var more := b + [x];
    assert more[..|more| - 1] == b && more[|b|] == x;
    hide Added;
    assert forall k :: 0 <= k < |b| ==> more[k] == b[k];
  }

  ghost predicate Reached(copies: seq<Sighting>, i: nat) { exists k :: 0 <= k < |copies| && i < |copies[k].bits| }

  lemma {:induction false} WidthExactly(copies: seq<Sighting>, i: nat)
    ensures i < Width(Runs(copies)) <==> Reached(copies, i)
  {
    if copies == [] {
    } else {
      hide Runs, Width, Reached;
      var n := |copies| - 1;
      WidthExactly(copies[..n], i);
      RunsUnfold(copies);
      ReachedFront(copies, i);
      if copies[n].bits == [] {
        assert Runs(copies) == Runs(copies[..n]);
      } else {
        WidthPush(Runs(copies[..n]), copies[n]);
      }
    }
  }

  lemma WidthPush(runs: seq<Sighting>, s: Sighting)
    ensures Width(runs + [s]) == Max(Width(runs), |s.bits|)
  {
    assert (runs + [s])[..|runs|] == runs;
  }

  lemma ReachedFront(copies: seq<Sighting>, i: nat)
    requires copies != []
    ensures var n := |copies| - 1; Reached(copies, i) <==> Reached(copies[..n], i) || i < |copies[n].bits|
  {
    var n := |copies| - 1;
    assert forall k :: 0 <= k < n ==> copies[..n][k] == copies[k];
  }

  /** Copy k has bits. */
  ghost predicate Speaks(copies: seq<Sighting>, k: int) { 0 <= k < |copies| && copies[k].bits != [] }

  lemma SpeaksFront(copies: seq<Sighting>, k: int)
    requires copies != []
    ensures Speaks(copies[..|copies| - 1], k) <==> Speaks(copies, k) && k != |copies| - 1
  {
  }

  lemma {:induction false} RunsExactly(copies: seq<Sighting>)
    ensures Runs(copies) != [] <==> exists k :: Speaks(copies, k)
    ensures |Runs(copies)| >= 2 <==> exists j, k :: Speaks(copies, j) && Speaks(copies, k) && j != k
    ensures |Runs(copies)| == 1 ==> exists k :: Speaks(copies, k) && copies[k] == Runs(copies)[0]
  {
    if copies == [] {
    } else {
      hide Runs, Speaks;
      var n := |copies| - 1;
      var front := copies[..n];
      RunsExactly(front);
      RunsUnfold(copies);
      forall k ensures Speaks(front, k) <==> Speaks(copies, k) && k != n {
        SpeaksFront(copies, k);
      }
      LastSpeaks(copies);
      if Runs(front) != [] {
        var k :| Speaks(front, k) && (|Runs(front)| == 1 ==> k < n && front[k] == Runs(front)[0]);
        assert Speaks(copies, k);
      }
    }
  }

  lemma LastSpeaks(copies: seq<Sighting>)
    requires copies != []
    ensures Speaks(copies, |copies| - 1) <==> copies[|copies| - 1].bits != []
    ensures forall k :: Speaks(copies, k) ==> 0 <= k < |copies|
  {
  }

  lemma VoteFields(copies: seq<Sighting>, i: nat)
    requires VoteOf(copies).Some?
    ensures var v, runs := VoteOf(copies).value, Runs(copies);
            |v.bits| == |v.margin| == Width(runs) && v.disagree == MixedBelow(runs, Width(runs)) &&
            (i < Width(runs) ==> v.bits[i] == Decided(runs, i) && v.margin[i] == Margin(runs, i))
  {
    hide Runs, Width, MixedBelow, Decided, Margin;
  }

  /** What becomes of a position of which this is said. */
  ghost predicate DecidedBy(bit: bool, margin: real, b: seq<real>) {
    b != [] && margin == Added(b) / |b| as real && (bit <==> Added(b) > 0.0 || (Added(b) == 0.0 && b[0] > 0.0))
  }

  lemma PositionDecided(runs: seq<Sighting>, i: nat, b: seq<real>)
    requires b != [] && Tells(runs, i, b)
    ensures DecidedBy(Decided(runs, i), Margin(runs, i), b) && (Mixed(runs, i) <==> SomeFor(b) && SomeAgainst(b))
  {
    hide Total, Count, Ones, FirstSaysOne, Added, SomeFor, SomeAgainst;
    SignOfQuotient(Total(runs, i), Count(runs, i));
  }

  lemma PositionVoted(copies: seq<Sighting>, i: nat)
    requires Reached(copies, i)
    ensures var runs, b := Runs(copies), Ballots(copies, i);
            DecidedBy(Decided(runs, i), Margin(runs, i), b) && (Mixed(runs, i) <==> SomeFor(b) && SomeAgainst(b))
  {
    hide Runs, Ballots, Tells, Reached, DecidedBy, Decided, Margin, Mixed, SomeFor, SomeAgainst;
    EmptyCopiesSilent(copies, i);
    TalliesAreBallots(Runs(copies), i);
    ReachedSpeaks(copies, i);
    PositionDecided(Runs(copies), i, Ballots(copies, i));
  }

  /**
   * There is a vote as soon as two copies have bits, or the only one came with confidence. It covers the positions some
   * copy reaches. Each is decided by the sign of what is said of it, all added up, the first copy to reach it deciding
   * when that is nothing; its margin is the mean; and it is a disagreement when some say 1 and some do not.
   */
  lemma VoteExactly(copies: seq<Sighting>, i: nat)
    ensures var v := VoteOf(copies);
            (v.Some? <==> exists k :: Speaks(copies, k) && (copies[k].soft.Some? || exists j :: Speaks(copies, j) && j != k)) &&
            (v.Some? ==>
               |v.value.bits| == |v.value.margin| && (i < |v.value.bits| <==> Reached(copies, i)) &&
               (i < |v.value.bits| ==> DecidedBy(v.value.bits[i], v.value.margin[i], Ballots(copies, i))) &&
               (i in v.value.disagree <==> i < |v.value.bits| && SomeFor(Ballots(copies, i)) && SomeAgainst(Ballots(copies, i))))
  {
    VoteExists(copies);
    if VoteOf(copies).Some? {
      hide VoteOf, Runs, Width, Ballots, Reached, MixedBelow, DecidedBy, Decided, Margin, Mixed, SomeFor, SomeAgainst, Distinct;
      var runs := Runs(copies);
      VoteFields(copies, i);
      WidthExactly(copies, i);
      DisagreeExact(runs, Width(runs));
      if Reached(copies, i) {
        PositionVoted(copies, i);
      }
    }
  }

  lemma {:induction false} ReachedSpeaks(copies: seq<Sighting>, i: nat)
    requires Reached(copies, i)
    ensures Ballots(copies, i) != []
  {
    var n := |copies| - 1;
    if i >= |copies[n].bits| {
      var k :| 0 <= k < |copies| && i < |copies[k].bits|;
      assert copies[..n][k] == copies[k];
      ReachedSpeaks(copies[..n], i);
    }
  }

  lemma VoteExists(copies: seq<Sighting>)
    ensures VoteOf(copies).Some? <==> exists k :: Speaks(copies, k) && (copies[k].soft.Some? || exists j :: Speaks(copies, j) && j != k)
  {
    RunsExactly(copies);
    hide Runs, Decided, Margin, MixedBelow, Width;
    if |Runs(copies)| == 1 {
      var k :| Speaks(copies, k) && copies[k] == Runs(copies)[0];
      assert forall j :: Speaks(copies, j) ==> j == k;
    }
  }

  // ------------------------------------------------------------------ what may be flipped

  /** From the header to the end of the packet, whose kind the first frame tells: these bits begin with a packet's own. */
  lemma ExtentOfPacket(bits: Bits, data: Wire)
    requires Encodable(data) && data != [] && |bits| >= MARKER_OFFSET + FRAME_BITS
    requires bits[..MARKER_OFFSET + FRAME_BITS] == Damage.OnAir(data)[..MARKER_OFFSET + FRAME_BITS]
    ensures PacketExtent(bits) == MARKER_OFFSET + FRAME_BITS * FullLength(data)
  {
    hide FrameAt, ReadFrame, FrameBits, Damage.OnAir, HasExt;
    Damage.OnAirFrames(data, 1);
    assert bits[MARKER_OFFSET..MARKER_OFFSET + FRAME_BITS] == bits[..MARKER_OFFSET + FRAME_BITS][MARKER_OFFSET..];
    assert FramesPrefix(data, 1) == FrameBits(ExpectedIndex(Extended(data), 0), data[0]);
    RoundTrip.FrameReads(bits, MARKER_OFFSET, ExpectedIndex(Extended(data), 0), data[0]);
  }

  /** When its first frame is broken it is taken to be a standard one. */
  lemma ExtentUnread(bits: Bits)
    requires !FrameAt(bits, MARKER_OFFSET)
    ensures PacketExtent(bits) == MARKER_OFFSET + FRAME_BITS * STD_LEN
  {
  }

  /** How far a margin is from a tie. */
  function FromTie(x: real): real { if x >= 0.0 then x else 0.0 - x }

  /** Position i is no further from a tie than p. */
  ghost predicate Nearer(margin: seq<real>, i: nat, p: nat) {
    i < |margin| && p < |margin| && FromTie(margin[i]) <= FromTie(margin[p])
  }

  /** These are the n positions nearest to a tie among those inside, nearest first. */
  ghost predicate NearestToATie(suspects: seq<nat>, margin: seq<real>, inside: nat, n: nat) {
    |suspects| == n && Distinct(suspects) && (forall i: nat :: i in suspects ==> i < inside) &&
    (forall j, k :: 0 <= j < k < |suspects| ==> Nearer(margin, suspects[j], suspects[k])) &&
    forall i: nat, p: nat :: i in suspects && p !in suspects && p < inside ==> Nearer(margin, i, p)
  }

  lemma LeastSureFirst(v: Vote, inside: nat, n: nat)
    requires |v.margin| == |v.bits| && inside == Min(PacketExtent(v.bits), |v.bits|) && n <= inside
    ensures |LeastSure(v)| == inside && NearestToATie(LeastSure(v)[..n], v.margin, inside, n)
  {
    hide PacketExtent, SortBy, SortedBy, Distinct;
    var all, key := Upto(inside), Doubt(v.margin);
    SortSorted(all, key);
    SortDistinct(all, key);
    SameElements(all, key);
    PrefixKeeps(LeastSure(v), n, key);
    PrefixNearest(LeastSure(v), v.margin, inside, n);
  }

  lemma PrefixNearest(order: seq<nat>, margin: seq<real>, inside: nat, n: nat)
    requires SortedBy(order, Doubt(margin)) && n <= |order| && inside <= |margin| && Distinct(order[..n])
    requires forall i: nat :: i in order <==> i < inside
    ensures NearestToATie(order[..n], margin, inside, n)
  {
    var key := Doubt(margin);
    var suspects := order[..n];
    forall j, k | 0 <= j < k < |suspects| ensures Nearer(margin, suspects[j], suspects[k]) {
      assert order[j] in order && order[k] in order && key(order[j]) <= key(order[k]);
    }
    forall i: nat | i in suspects ensures i < inside {
      assert i in order;
    }
    forall i: nat, p: nat | i in suspects && p !in suspects && p < inside ensures Nearer(margin, i, p) {
      PrefixLeast(order, n, key, p);
      assert i in order;
    }
    hide SortedBy, Distinct, Nearer;
  }

  lemma {:induction false} NothingNew(into: seq<nat>, more: seq<nat>)
    requires forall i :: i in more ==> i in into
    ensures AppendNew(into, more) == into
    decreases |more|
  {
    if more != [] {
      assert more[0] in more;
      NothingNew(into, more[1..]);
    }
  }

  /**
   * Without confidence the suspects are the disagreements. As soon as one copy has some, they are the twelve positions of
   * the packet with the smallest margins, or all of them if it has fewer.
   */
  lemma SuspectsExactly(copies: seq<Sighting>)
    requires VoteOf(copies).Some?
    ensures var v := VoteOf(copies).value;
            var inside := Min(PacketExtent(v.bits), |v.bits|);
            if forall k :: 0 <= k < |copies| ==> copies[k].soft.None? then FlipSuspects(copies, v) == v.disagree
            else NearestToATie(FlipSuspects(copies, v), v.margin, inside, Min(12, inside))
  {
    VoteLengths(copies);
    DisagreeInside(copies);
    hide VoteOf, NearestToATie, LeastSure, Distinct;
    var v := VoteOf(copies).value;
    var inside := Min(PacketExtent(v.bits), |v.bits|);
    LeastSureFirst(v, inside, Min(12, inside));
    if AnySoft(copies) {
      if inside < 12 {
        NothingPassedOver(v, inside);
        NothingNew(LeastSure(v), v.disagree);
        assert LeastSure(v)[..inside] == LeastSure(v);
      } else {
        SoftSuspectsAreLeastSure(copies, v);
      }
    }
    hide AppendNew, PacketExtent, SortedBy, Doubt;
  }

  lemma VoteLengths(copies: seq<Sighting>)
    requires VoteOf(copies).Some?
    ensures |VoteOf(copies).value.margin| == |VoteOf(copies).value.bits|
  {
  }

  lemma NothingPassedOver(v: Vote, inside: nat)
    requires inside == Min(PacketExtent(v.bits), |v.bits|) < 12
    ensures |LeastSure(v)| == inside == |v.bits| && forall i: nat :: i < |v.bits| ==> i in LeastSure(v)
  {
    hide SortBy;
    SortSorted(Upto(inside), Doubt(v.margin));
    SameElements(Upto(inside), Doubt(v.margin));
  }
}
