/** Voting several receivers' copies and repairing what the vote leaves wrong. */
module Combine {
  import opened Common
  import opened Packets
  import opened Framing
  import opened Sorting
  import opened FlipSearch
  import opened Recover

  const MAX_COMBINE_FLIPS: nat := 2
  const MAX_DISAGREEMENTS: nat := 12
  const MIN_COMPARE_BITS: nat := 200

  /** One receiver's decode of one transmission; `bits` runs from the packet's start header to the end of its capture. */
  datatype Sighting = Sighting(packet: Packet, receiver: string, rssi: Option<real>, when: real, bits: Bits, soft: Option<Soft>)

  /** Sighting.__post_init__: no bits means the packet's, and misaligned confidence is dropped. */
  function MakeSighting(packet: Packet, receiver: string, rssi: Option<real>, when: real, bits: Bits, soft: Option<Soft>): Sighting {
    var b := if bits == [] then packet.bits else bits;
    Sighting(packet, receiver, rssi, when, b, if soft.Some? && |soft.value| < |b| then None else soft)
  }

  function Votes(s: Sighting): (r: Soft)
    ensures |r| == |s.bits|
  {
    SoftFor(s.bits, s.soft)
  }

  // ------------------------------------------------------------------ bit distance

  /** Differences among the first n bits. */
  function Differences(a: Bits, b: Bits, n: nat): nat
    requires n <= |a| && n <= |b|
  {
    if n == 0 then 0 else Differences(a, b, n - 1) + if a[n - 1] != b[n - 1] then 1 else 0
  }

  /** Distance over the common prefix, counted no further than one past the limit; None when too little overlaps. */
  function Distance(a: Bits, b: Bits, limit: nat): Option<nat> {
    var n := Min(|a|, |b|);
    if n < MIN_COMPARE_BITS then None else Some(Min(Differences(a, b, n), limit + 1))
  }

  lemma {:induction false} DifferencesGrow(a: Bits, b: Bits, m: nat, n: nat)
    requires m <= n <= |a| && n <= |b|
    ensures Differences(a, b, m) <= Differences(a, b, n)
  {
    if m < n {
      DifferencesGrow(a, b, m, n - 1);
    }
  }

  method Hamming(a: Bits, b: Bits, limit: nat) returns (r: Option<nat>)
    ensures r == Distance(a, b, limit)
  {
    var n := Min(|a|, |b|);
    if n < MIN_COMPARE_BITS {
      return None;
    }
    var d := 0;
    for i := 0 to n
      invariant d == Differences(a, b, i) <= limit
    {
      if a[i] != b[i] {
        d := d + 1;
        if d > limit {
          DifferencesGrow(a, b, i + 1, n);
          return Some(d);
        }
      }
    }
    r := Some(d);
  }

  // ------------------------------------------------------------------ the vote

  function Runs(sightings: seq<Sighting>): seq<Sighting> {
    if sightings == [] then []
    else Runs(sightings[..|sightings| - 1]) +
         if sightings[|sightings| - 1].bits != [] then [sightings[|sightings| - 1]] else []
  }

  /** Copies that reach position i. */
  function Count(runs: seq<Sighting>, i: nat): nat {
    if runs == [] then 0
    else Count(runs[..|runs| - 1], i) + if i < |runs[|runs| - 1].bits| then 1 else 0
  }

  /** Those whose hard decision there is 1. */
  function Ones(runs: seq<Sighting>, i: nat): nat {
    if runs == [] then 0
    else Ones(runs[..|runs| - 1], i) + if VotesOne(runs[|runs| - 1], i) then 1 else 0
  }

  predicate VotesOne(s: Sighting, i: nat) { i < |s.bits| && Votes(s)[i] > 0.0 }

  /** The signed votes there, added up. */
  function Total(runs: seq<Sighting>, i: nat): real {
    if runs == [] then 0.0
    else Total(runs[..|runs| - 1], i) + if i < |runs[|runs| - 1].bits| then Votes(runs[|runs| - 1])[i] else 0.0
  }

  /** The hard decision of the first copy to reach position i. */
  predicate FirstSaysOne(runs: seq<Sighting>, i: nat) {
    runs != [] &&
    if i < |runs[0].bits| then Votes(runs[0])[i] > 0.0 else FirstSaysOne(runs[1..], i)
  }

  function Margin(runs: seq<Sighting>, i: nat): real {
    Total(runs, i) / (Max(Count(runs, i), 1) as real)
  }

  predicate Decided(runs: seq<Sighting>, i: nat) {
    Margin(runs, i) > 0.0 || (Margin(runs, i) == 0.0 && FirstSaysOne(runs, i))
  }

  predicate Mixed(runs: seq<Sighting>, i: nat) { 0 < Ones(runs, i) < Count(runs, i) }

  function Width(runs: seq<Sighting>): nat {
    if runs == [] then 0 else Max(Width(runs[..|runs| - 1]), |runs[|runs| - 1].bits|)
  }

  /** The mixed positions below n, in order. */
  function MixedBelow(runs: seq<Sighting>, n: nat): seq<nat> {
    if n == 0 then [] else MixedBelow(runs, n - 1) + if Mixed(runs, n - 1) then [n - 1] else []
  }

  datatype Vote = Vote(bits: Bits, disagree: seq<nat>, margin: seq<real>)

  /** _vote */
  function VoteOf(sightings: seq<Sighting>): Option<Vote> {
    var runs := Runs(sightings);
    if runs == [] || (|runs| < 2 && runs[0].soft.None?) then None
    else
      var w := Width(runs);
      Some(Vote(seq(w, i requires 0 <= i < w => Decided(runs, i)), MixedBelow(runs, w),
                seq(w, i requires 0 <= i < w => Margin(runs, i))))
  }

  lemma {:induction false} WidthCovers(runs: seq<Sighting>, k: nat)
    requires k < |runs|
    ensures |runs[k].bits| <= Width(runs)
  {
    if k < |runs| - 1 {
      WidthCovers(runs[..|runs| - 1], k);
    }
  }

  lemma {:induction false} FirstGrows(runs: seq<Sighting>, s: Sighting, i: nat)
    ensures FirstSaysOne(runs + [s], i) == if Count(runs, i) == 0 then VotesOne(s, i) else FirstSaysOne(runs, i)
  {
    if runs == [] {
    } else {
      assert (runs + [s])[1..] == runs[1..] + [s];
      FirstGrows(runs[1..], s, i);
      CountFront(runs, i);
    }
  }

  lemma {:induction false} CountFront(runs: seq<Sighting>, i: nat)
    requires runs != []
    ensures Count(runs, i) == Count(runs[1..], i) + if i < |runs[0].bits| then 1 else 0
  {
    if |runs| > 1 {
      CountFront(runs[..|runs| - 1], i);
      assert runs[..|runs| - 1][1..] == runs[1..][..|runs| - 2];
    }
  }

  /** The running tallies after these copies. */
  ghost predicate Tallied(total: array<real>, count: array<nat>, ones: array<nat>, first: array<bool>, runs: seq<Sighting>)
    reads total, count, ones, first
  {
    total.Length == count.Length == ones.Length == first.Length &&
    forall i :: 0 <= i < total.Length ==>
      total[i] == Total(runs, i) && count[i] == Count(runs, i) &&
      ones[i] == Ones(runs, i) && first[i] == FirstSaysOne(runs, i)
  }

  /** One copy's contribution, over the positions it reaches. */
  method AddCopy(total: array<real>, count: array<nat>, ones: array<nat>, first: array<bool>,
                 s: Sighting, ghost runs: seq<Sighting>)
    requires Tallied(total, count, ones, first, runs) && |s.bits| <= total.Length
    requires count != ones
    modifies total, count, ones, first
    ensures Tallied(total, count, ones, first, runs + [s])
  {
    hide Total, Count, Ones, FirstSaysOne, Votes;
    var v := Votes(s);
    forall i | 0 <= i < |v| {
      total[i] := total[i] + v[i];
    }
    forall i | 0 <= i < |v| {
      count[i] := count[i] + 1;
    }
    forall i | 0 <= i < |v| {
      ones[i] := ones[i] + if v[i] > 0.0 then 1 else 0;
    }
    forall i | 0 <= i < |v| {
      first[i] := if count[i] == 1 then v[i] > 0.0 else first[i];
    }
    forall i | 0 <= i < total.Length
      ensures total[i] == Total(runs + [s], i) && count[i] == Count(runs + [s], i) &&
              ones[i] == Ones(runs + [s], i) && first[i] == FirstSaysOne(runs + [s], i)
    {
      OneMoreCopy(runs, s, i);
    }
  }

  /** Every copy's contribution, one copy after the other. */
  method Tally(runs: seq<Sighting>) returns (total: array<real>, count: array<nat>, ones: array<nat>, first: array<bool>)
    ensures total.Length == Width(runs) && Tallied(total, count, ones, first, runs)
  {
    hide Total, Count, Ones, FirstSaysOne, Width;
    var width := Width(runs);
    total := new real[width](_ => 0.0);
    count := new nat[width](_ => 0);
    ones := new nat[width](_ => 0);
    first := new bool[width](_ => false);
    assert runs[..0] == [];
    NothingYet();
    for k := 0 to |runs|
      invariant Tallied(total, count, ones, first, runs[..k])
    {
      WidthCovers(runs, k);
      AddCopy(total, count, ones, first, runs[k], runs[..k]);
      assert runs[..k + 1] == runs[..k] + [runs[k]];
    }
    assert runs[..|runs|] == runs;
  }

  method CastVotes(sightings: seq<Sighting>) returns (r: Option<Vote>)
    ensures r == VoteOf(sightings)
  {
    hide Total, Count, Ones, FirstSaysOne, Width, Runs;
    var runs := Runs(sightings);
    if runs == [] || (|runs| < 2 && runs[0].soft.None?) {
      return None;
    }
    var total, count, ones, first := Tally(runs);
    var margin: seq<real> := [];
    var bits: Bits := [];
    var disagree: seq<nat> := [];
    for i := 0 to total.Length
      invariant |margin| == |bits| == i
      invariant forall k :: 0 <= k < i ==> margin[k] == Margin(runs, k) && bits[k] == Decided(runs, k)
      invariant disagree == MixedBelow(runs, i)
    {
      var m := total[i] / (Max(count[i], 1) as real);
      margin := margin + [m];
      bits := bits + [if m > 0.0 then true else if m < 0.0 then false else first[i]];
      if 0 < ones[i] && ones[i] < count[i] {
        disagree := disagree + [i];
      }
    }
    r := Some(Vote(bits, disagree, margin));
    assert r == VoteOf(sightings) by {
      var spec := VoteOf(sightings).value;
      assert margin == spec.margin;
      assert bits == spec.bits;
    }
  }

  lemma NothingYet()
    ensures forall i :: Total([], i) == 0.0 && Count([], i) == 0 && Ones([], i) == 0 && !FirstSaysOne([], i)
  {
  }

  lemma OneMoreCopy(runs: seq<Sighting>, s: Sighting, i: nat)
    ensures var more := runs + [s];
            var here := i < |s.bits|;
            Total(more, i) == Total(runs, i) + (if here then Votes(s)[i] else 0.0) &&
            Count(more, i) == Count(runs, i) + (if here then 1 else 0) &&
            Ones(more, i) == Ones(runs, i) + (if here && Votes(s)[i] > 0.0 then 1 else 0) &&
            FirstSaysOne(more, i) == if here && Count(runs, i) == 0 then Votes(s)[i] > 0.0 else FirstSaysOne(runs, i)
  {
    hide Votes;
    FirstGrows(runs, s, i);
    assert (runs + [s])[..|runs|] == runs;
    if Count(runs, i) == 0 {
      NobodyReaches(runs, i);
    }
  }

  lemma {:induction false} NobodyReaches(runs: seq<Sighting>, i: nat)
    requires Count(runs, i) == 0
    ensures !FirstSaysOne(runs, i)
  {
    if runs != [] {
      CountFront(runs, i);
      NobodyReaches(runs[1..], i);
    }
  }

  lemma SignOfQuotient(t: real, n: nat)
    requires n > 0
    ensures (t / n as real > 0.0 <==> t > 0.0) && (t / n as real == 0.0 <==> t == 0.0)
  {
    if t > 0.0 {
      assert t / n as real > 0.0;
    } else if t < 0.0 {
      assert t / n as real < 0.0;
    }
  }

  /** Hard copies: the decision is the majority of the copies reaching the position, ties going to the first of them. */
  lemma MajorityOfHardCopies(runs: seq<Sighting>, i: nat)
    requires forall k :: 0 <= k < |runs| ==> runs[k].soft.None?
    ensures var zeros := Count(runs, i) - Ones(runs, i);
            zeros >= 0 && (Decided(runs, i) <==> Ones(runs, i) > zeros || (Ones(runs, i) == zeros && FirstSaysOne(runs, i)))
  {
    HardTotal(runs, i);
    hide Total, Count, Ones, FirstSaysOne;
    SignOfQuotient(Total(runs, i), Max(Count(runs, i), 1));
  }

  lemma {:induction false} HardTotal(runs: seq<Sighting>, i: nat)
    requires forall k :: 0 <= k < |runs| ==> runs[k].soft.None?
    ensures Ones(runs, i) <= Count(runs, i)
    ensures Total(runs, i) == (2 * Ones(runs, i) - Count(runs, i)) as real
  {
    if runs != [] {
      HardTotal(runs[..|runs| - 1], i);
    }
  }

  /** The disagreements reported are exactly the positions where hard decisions are mixed, each once, in order. */
  lemma {:induction false} DisagreeExact(runs: seq<Sighting>, n: nat)
    ensures forall i: nat :: i in MixedBelow(runs, n) <==> i < n && Mixed(runs, i)
    ensures Distinct(MixedBelow(runs, n))
    ensures forall i, j :: 0 <= i < j < |MixedBelow(runs, n)| ==> MixedBelow(runs, n)[i] < MixedBelow(runs, n)[j]
  {
    hide Mixed;
    if n > 0 {
      DisagreeExact(runs, n - 1);
      var before := MixedBelow(runs, n - 1);
      assert forall i :: 0 <= i < |before| ==> before[i] in before;
    }
  }

  // ------------------------------------------------------------------ accepting a candidate

  /** What _accept demands of a parsed packet. */
  predicate Unambiguous(pkt: Packet) {
    pkt.Verified() && pkt.indexOk != Some(false) && pkt.HopsOk() && !(pkt.Ext() && pkt.ExtCrcOk() == Some(false))
  }

  /** In full: the CRC byte is there and right, no counter was rejected, the hops add up, and so do an extended packet's data bytes. */
  ghost predicate PassesAll(pkt: Packet) {
    pkt.Verified() && pkt.indexOk != Some(false) && NumberFor(pkt.HopsLeft()) <= NumberFor(pkt.MaxHops()) &&
    (pkt.Ext() ==> SumsRight(pkt.data))
  }

  lemma UnambiguousExactly(pkt: Packet)
    ensures Unambiguous(pkt) <==> PassesAll(pkt)
  {
    ExtCrcOkExactly(pkt);
    FlagsLayout(pkt);
    hide PacketCrc, ExtCrc, HasExt, HopsLegal, SumsRight, NumberFor;
  }

  function FirstUnambiguous(packets: seq<Packet>): Option<Packet> {
    if packets == [] then None
    else if Unambiguous(packets[0]) then Some(packets[0]) else FirstUnambiguous(packets[1..])
  }

  /** _accept */
  function Accept(bits: Bits, timestamp: Option<real>): Option<Packet> {
    FirstUnambiguous(Parse(bits, timestamp, 4))
  }

  method AcceptCandidate(bits: Bits, timestamp: Option<real>) returns (r: Option<Packet>)
    ensures r == Accept(bits, timestamp)
  {
    hide Unambiguous, Parse;
    var packets := ParseBits(bits, timestamp, 4);
    for k := 0 to |packets|
      invariant FirstUnambiguous(packets) == FirstUnambiguous(packets[k..])
    {
      if Unambiguous(packets[k]) {
        return Some(packets[k]);
      }
    }
    r := None;
  }

  /** _packet_extent: from the header to the end of the packet, as far as the first frame tells. */
  function PacketExtent(bits: Bits): nat {
    var frames := Frames(bits, MARKER_OFFSET);
    MARKER_OFFSET + FRAME_BITS * if frames != [] && HasExt(frames[0].data) then EXT_LEN else STD_LEN
  }

  // ------------------------------------------------------------------ suspects

  function Upto(n: nat): (r: seq<nat>)
    ensures |r| == n && Distinct(r) && forall i: nat :: i in r <==> i < n
  {
    var r := seq(n, (i: nat) => i);
    assert forall i: nat :: i < n ==> i in r by {
      forall i: nat | i < n ensures i in r {
        assert r[i] == i;
      }
    }
    r
  }

  function Doubt(margin: seq<real>): nat -> real {
    (i: nat) => if i < |margin| then Abs(margin[i]) else 0.0
  }

  /** Positions inside the packet, least sure first. */
  function LeastSure(v: Vote): seq<nat> {
    SortBy(Upto(Min(PacketExtent(v.bits), |v.bits|)), Doubt(v.margin))
  }

  function AppendNew(into: seq<nat>, more: seq<nat>): seq<nat>
    decreases |more|
  {
    if more == [] then into
    else AppendNew(if more[0] in into then into else into + [more[0]], more[1..])
  }

  predicate AnySoft(sightings: seq<Sighting>) { exists k | 0 <= k < |sightings| :: sightings[k].soft.Some? }

  /** The positions combine is willing to flip. */
  function FlipSuspects(sightings: seq<Sighting>, v: Vote): seq<nat> {
    if !AnySoft(sightings) then v.disagree
    else
      var order := LeastSure(v);
      var all := AppendNew(order[..Min(MAX_DISAGREEMENTS, |order|)], v.disagree);
      all[..Min(MAX_DISAGREEMENTS, |all|)]
  }

  lemma {:induction false} AppendNewKeeps(into: seq<nat>, more: seq<nat>)
    requires Distinct(into)
    ensures Distinct(AppendNew(into, more)) && into <= AppendNew(into, more)
    ensures forall i :: i in AppendNew(into, more) <==> i in into || i in more
    decreases |more|
  {
    if more != [] {
      var next := if more[0] in into then into else into + [more[0]];
      AppendNewKeeps(next, more[1..]);
      assert forall i :: i in more <==> i == more[0] || i in more[1..];
    }
  }

  // ------------------------------------------------------------------ combine

  /** combine: the packet, if one can be made, from all the sightings. */
  function CombineOf(sightings: seq<Sighting>): Option<Packet> {
    var voted := VoteOf(sightings);
    if voted.None? || sightings == [] then None
    else
      var v := voted.value;
      var at := Some(sightings[0].when);
      if Accept(v.bits, at).Some? then Accept(v.bits, at)
      else if |v.disagree| > MAX_DISAGREEMENTS then None
      else
        var hit := Search(v.bits, FlipSuspects(sightings, v), MAX_COMBINE_FLIPS, bits => Accept(bits, at).Some?);
        if hit.None? then None else Accept(hit.value.bits, at)
  }

  lemma SuspectsInside(sightings: seq<Sighting>)
    requires VoteOf(sightings).Some?
    ensures var v := VoteOf(sightings).value;
            var suspects := FlipSuspects(sightings, v);
            Distinct(suspects) && (forall i :: i in suspects ==> i < |v.bits|) &&
            (|v.disagree| <= MAX_DISAGREEMENTS ==> |suspects| <= MAX_DISAGREEMENTS)
  {
    hide VoteOf;
    var v := VoteOf(sightings).value;
    DisagreeInside(sightings);
    if AnySoft(sightings) {
      hide AnySoft;
      var inside := Upto(Min(PacketExtent(v.bits), |v.bits|));
      var order := LeastSure(v);
      SortDistinct(inside, Doubt(v.margin));
      SameElements(inside, Doubt(v.margin));
      var n := Min(MAX_DISAGREEMENTS, |order|);
      PrefixKeeps(order, n, Doubt(v.margin));
      AppendNewKeeps(order[..n], v.disagree);
      var all := AppendNew(order[..n], v.disagree);
      PrefixKeeps(all, Min(MAX_DISAGREEMENTS, |all|), Doubt(v.margin));
      hide Distinct, LeastSure, AppendNew;
    }
  }

  lemma DisagreeInside(sightings: seq<Sighting>)
    requires VoteOf(sightings).Some?
    ensures var v := VoteOf(sightings).value;
            Distinct(v.disagree) && forall i :: i in v.disagree ==> i < |v.bits|
  {
    DisagreeExact(Runs(sightings), Width(Runs(sightings)));
  }

  method CombineCopies(sightings: seq<Sighting>) returns (r: Option<(Packet, nat)>)
    requires sightings != []
    ensures r == match CombineOf(sightings) case None => None case Some(p) => Some((p, |sightings|))
  {
    hide VoteOf, Accept, FlipSuspects, AnySoft, Search;
    var voted := CastVotes(sightings);
    if voted.None? {
      return None;
    }
    var v := voted.value;
    var at := Some(sightings[0].when);
    var pkt := AcceptCandidate(v.bits, at);
    if pkt.Some? {
      return Some((pkt.value, |sightings|));
    }
    if |v.disagree| > MAX_DISAGREEMENTS {
      return None;
    }
    var suspects := FlipSuspects(sightings, v);
    SuspectsInside(sightings);
    var flip := new bool[|v.bits|](i requires 0 <= i < |v.bits| => v.bits[i]);
    assert flip[..] == v.bits;
    forall i | 0 <= i < |suspects| ensures suspects[i] < flip.Length {
      assert suspects[i] in suspects;
    }
    var hit := FindHit(flip, suspects, MAX_COMBINE_FLIPS, bits => Accept(bits, at).Some?);
    if hit.None? {
      return None;
    }
    pkt := AcceptCandidate(hit.value.bits, at);
    HitAccepted(sightings);
    r := Some((pkt.value, |sightings|));
  }

  /** The search's accepted candidate does parse to a packet. */
  lemma HitAccepted(sightings: seq<Sighting>)
    requires VoteOf(sightings).Some? && sightings != []
    ensures var v := VoteOf(sightings).value;
            var at := Some(sightings[0].when);
            var hit := Search(v.bits, FlipSuspects(sightings, v), MAX_COMBINE_FLIPS, bits => Accept(bits, at).Some?);
            hit.Some? ==> Accept(hit.value.bits, at).Some?
  {
    hide VoteOf, Accept, FlipSuspects, Search;
    var v := VoteOf(sightings).value;
    var at := Some(sightings[0].when);
    SearchKeepsLength(v.bits, FlipSuspects(sightings, v), MAX_COMBINE_FLIPS, bits => Accept(bits, at).Some?);
  }

  lemma AcceptSound(bits: Bits, timestamp: Option<real>)
    ensures Accept(bits, timestamp).Some? ==> Unambiguous(Accept(bits, timestamp).value)
  {
    FirstUnambiguousSound(Parse(bits, timestamp, 4));
  }

  lemma FirstUnambiguousSound(packets: seq<Packet>)
    ensures FirstUnambiguous(packets).Some? ==>
              Unambiguous(FirstUnambiguous(packets).value) && FirstUnambiguous(packets).value in packets
  {
    hide Unambiguous;
  }

  /** Flipping this set of suspect positions in the vote makes an acceptable packet. */
  ghost predicate MadeBy(sightings: seq<Sighting>, at: set<nat>)
    requires VoteOf(sightings).Some? && sightings != []
  {
    var v := VoteOf(sightings).value;
    at <= Elements(FlipSuspects(sightings, v)) && 1 <= |at| <= 2 &&
    Accept(FlipSet(v.bits, at), Some(sightings[0].when)).Some?
  }

  /**
   * What combine returns passes every check there is, its data bytes adding up if it is extended. Past the plain vote,
   * with at most twelve disagreements, it finds a packet exactly when at most two suspect flips make one, and uses
   * the fewest.
   */
  lemma CombineExact(sightings: seq<Sighting>) returns (found: set<nat>)
    ensures CombineOf(sightings).Some? ==> VoteOf(sightings).Some? && PassesAll(CombineOf(sightings).value)
    ensures VoteOf(sightings).Some? && sightings != [] ==>
      var v := VoteOf(sightings).value;
      var when := Some(sightings[0].when);
      (Accept(v.bits, when).Some? ==> CombineOf(sightings) == Accept(v.bits, when)) &&
      (Accept(v.bits, when).None? && |v.disagree| > 12 ==> CombineOf(sightings).None?) &&
      (Accept(v.bits, when).None? && |v.disagree| <= 12 ==>
         (CombineOf(sightings).Some? <==> exists at :: MadeBy(sightings, at)) &&
         (CombineOf(sightings).Some? ==>
            MadeBy(sightings, found) && CombineOf(sightings) == Accept(FlipSet(v.bits, found), when) &&
            forall at :: MadeBy(sightings, at) ==> |found| <= |at|))
  {
    hide VoteOf, Accept, FlipSuspects, Search, Unambiguous, FlipSet, PassesAll;
    found := {};
    if VoteOf(sightings).Some? && sightings != [] {
      var v := VoteOf(sightings).value;
      var when := Some(sightings[0].when);
      var suspects := FlipSuspects(sightings, v);
      var accept := (bits: Bits) => Accept(bits, when).Some?;
      SuspectsInside(sightings);
      found := SearchExact(v.bits, suspects, MAX_COMBINE_FLIPS, accept);
      HitAccepted(sightings);
      assert forall at :: MadeBy(sightings, at) <==> Repairs(v.bits, suspects, MAX_COMBINE_FLIPS, accept, at);
      AcceptSound(v.bits, when);
      if Search(v.bits, suspects, MAX_COMBINE_FLIPS, accept).Some? {
        AcceptSound(Search(v.bits, suspects, MAX_COMBINE_FLIPS, accept).value.bits, when);
      }
      if CombineOf(sightings).Some? {
        UnambiguousExactly(CombineOf(sightings).value);
      }
    }
  }

  /**
   * With confidence in play the suspects are the least sure positions of the packet. Once it has twelve, they are all
   * the suspects there are: a disagreement is tried exactly when it is among them.
   */
  lemma SoftSuspectsAreLeastSure(sightings: seq<Sighting>, v: Vote)
    requires AnySoft(sightings) && Min(PacketExtent(v.bits), |v.bits|) >= MAX_DISAGREEMENTS
    ensures var order := LeastSure(v);
            |order| >= MAX_DISAGREEMENTS && FlipSuspects(sightings, v) == order[..MAX_DISAGREEMENTS] &&
            SortedBy(order, Doubt(v.margin)) && Distinct(order) &&
            forall i: nat :: i in order <==> i < PacketExtent(v.bits) && i < |v.bits|
  {
    hide AnySoft, PacketExtent, SortBy, SortedBy, Distinct, Doubt;
    var inside := Upto(Min(PacketExtent(v.bits), |v.bits|));
    var key := Doubt(v.margin);
    var order := LeastSure(v);
    SortSorted(inside, key);
    SortDistinct(inside, key);
    SameElements(inside, key);
    PrefixKeeps(order, MAX_DISAGREEMENTS, key);
    AppendNewKeeps(order[..MAX_DISAGREEMENTS], v.disagree);
    hide AppendNew;
  }
}
