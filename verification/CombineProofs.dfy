/** Where the packet that combining returns comes from. */
module CombineProofs {
  import opened Common
  import opened Packets
  import opened Framing
  import opened FlipSearch
  import opened Combine
  import RoundTrip

  /** The header at p has a packet that _accept would take. */
  ghost predicate Acceptable(bits: Bits, p: nat, when: Option<real>) {
    |Frames(bits, p + MARKER_OFFSET)| >= 4 && PassesAll(PacketAt(bits, p, when))
  }

  lemma {:induction false} FirstAcceptable(bits: Bits, offsets: seq<nat>, when: Option<real>) returns (k: nat)
    ensures k <= |offsets| && forall i :: 0 <= i < k ==> !Acceptable(bits, offsets[i], when)
    ensures k < |offsets| ==> Acceptable(bits, offsets[k], when)
    ensures FirstUnambiguous(PacketsAt(bits, offsets, when, 4))
         == if k < |offsets| then Some(PacketAt(bits, offsets[k], when)) else None
  {
    hide Frames, PacketAt, Unambiguous, PassesAll;
    k := 0;
    if offsets != [] {
      var rest := PacketsAt(bits, offsets[1..], when, 4);
      assert [] + rest == rest;
      if |Frames(bits, offsets[0] + MARKER_OFFSET)| >= 4 {
        assert ([PacketAt(bits, offsets[0], when)] + rest)[1..] == rest;
        UnambiguousExactly(PacketAt(bits, offsets[0], when));
      }
      if !Acceptable(bits, offsets[0], when) {
        var later := FirstAcceptable(bits, offsets[1..], when);
        k := later + 1;
      }
    }
  }

  /** What is accepted is the packet at the first acceptable header, in the polarity of the first header of all. */
  lemma AcceptIsFirst(bits: Bits, when: Option<real>) returns (k: nat)
    ensures var norm := Normalised(bits);
            var offsets := Offsets(norm, 0);
            k <= |offsets| && (forall i :: 0 <= i < k ==> !Acceptable(norm, offsets[i], when)) &&
            (k < |offsets| ==> Acceptable(norm, offsets[k], when)) &&
            Accept(bits, when) == if k < |offsets| then Some(PacketAt(norm, offsets[k], when)) else None
  {
    hide Acceptable, Frames, PacketAt, Normalised, Offsets, FirstUnambiguous;
    k := FirstAcceptable(Normalised(bits), Offsets(Normalised(bits), 0), when);
  }

  /** The packet taken is the one at p. */
  predicate TakenAt(bits: Bits, p: nat, when: Option<real>) {
    Frames(bits, p + MARKER_OFFSET) != [] && Accept(bits, when) == Some(PacketAt(bits, p, when))
  }

  /** Of bits that begin with a header, the packet at that header is taken exactly when it is acceptable; else a later one. */
  lemma AcceptAtOwnHeader(bits: Bits, when: Option<real>)
    requires HeaderAt(bits, 0)
    ensures TakenAt(bits, 0, when) <==> Acceptable(bits, 0, when)
    ensures !Acceptable(bits, 0, when) && Accept(bits, when).Some? ==>
              exists p: nat | p >= HEADER_LEN :: HeaderAt(bits, p) && Acceptable(bits, p, when) && TakenAt(bits, p, when)
  {
    hide Unambiguous, PassesAll, Frames, IndexesOk, Normalised, Offsets, Find, START_HEADER, PatternAt, Accept;
    RoundTrip.NormalisedFromHeader(bits);
    RoundTrip.FindHere(bits, 0);
    OffsetsFromFind(bits, 0);
    var k := AcceptIsFirst(bits, when);
    var offsets := Offsets(bits, 0);
    assert offsets[0] == 0;
    if !Acceptable(bits, 0, when) && Accept(bits, when).Some? {
      OffsetsAreHeaders(bits, HEADER_LEN);
      assert offsets[k] == Offsets(bits, HEADER_LEN)[k - 1];
      assert TakenAt(bits, offsets[k], when);
    }
    if Frames(bits, MARKER_OFFSET) != [] {
      SizeOf(bits, 0, when);
      AcceptSound(bits, when);
      if k < |offsets| {
        SizeOf(bits, offsets[k], when);
      }
    }
  }

  lemma SizeOf(bits: Bits, p: nat, when: Option<real>)
    requires Frames(bits, p + MARKER_OFFSET) != []
    ensures |PacketAt(bits, p, when).data| == |Frames(bits, p + MARKER_OFFSET)|
  {
    hide Frames, IndexesOk;
  }

  lemma {:induction false} OffsetsAreHeaders(bits: Bits, from: nat)
    ensures forall k :: 0 <= k < |Offsets(bits, from)| ==> Offsets(bits, from)[k] >= from && HeaderAt(bits, Offsets(bits, from)[k])
    decreases |bits| - from
  {
    hide PatternAt, START_HEADER;
    HeaderLength();
    var p := Find(bits, START_HEADER, from);
    if p.Some? {
      OffsetsAreHeaders(bits, p.value + HEADER_LEN);
    }
  }

  // ------------------------------------------------------------------ copies that begin with their header

  /** Copies with a header in front, each voting for it as it stands. */
  ghost predicate Headed(sightings: seq<Sighting>) {
    sightings != [] && forall k :: 0 <= k < |sightings| ==> HeadedCopy(sightings[k])
  }

  ghost predicate HeadedCopy(s: Sighting) {
    HeaderAt(s.bits, 0) && forall i: nat :: i < HEADER_LEN && i < |s.bits| ==> VotesOne(s, i) == s.bits[i]
  }

  /** Hard copies, each with a header in front, as every capture without confidence gives them. */
  ghost predicate HardCopies(sightings: seq<Sighting>) {
    sightings != [] && forall k :: 0 <= k < |sightings| ==> sightings[k].soft.None? && HeaderAt(sightings[k].bits, 0)
  }

  /** They vote for their bits. */
  lemma HardAreHeaded(sightings: seq<Sighting>)
    requires HardCopies(sightings)
    ensures Headed(sightings) && !AnySoft(sightings)
  {
    hide HeaderAt;
  }

  lemma {:induction false} RunsAreAll(sightings: seq<Sighting>)
    requires forall k :: 0 <= k < |sightings| ==> sightings[k].bits != []
    ensures Runs(sightings) == sightings
  {
    if sightings != [] {
      RunsAreAll(sightings[..|sightings| - 1]);
    }
  }

  lemma {:induction false} Unanimous(runs: seq<Sighting>, i: nat, one: bool)
    requires forall k :: 0 <= k < |runs| ==> i < |runs[k].bits| && VotesOne(runs[k], i) == one
    ensures Count(runs, i) == |runs| && Ones(runs, i) == if one then |runs| else 0
  {
    hide VotesOne;
    if runs != [] {
      Unanimous(runs[..|runs| - 1], i, one);
    }
  }

  lemma {:induction false} UnanimousTotal(runs: seq<Sighting>, i: nat, one: bool)
    requires runs != [] && forall k :: 0 <= k < |runs| ==> i < |runs[k].bits| && VotesOne(runs[k], i) == one
    ensures if one then Total(runs, i) > 0.0 else Total(runs, i) <= 0.0
  {
    hide Votes;
    var n := |runs| - 1;
    assert VotesOne(runs[n], i) == one;
    if n > 0 {
      UnanimousTotal(runs[..n], i, one);
    }
  }

  /** Where every copy votes the same way, so does the vote. */
  lemma UnanimousVote(runs: seq<Sighting>, i: nat, one: bool)
    requires runs != [] && forall k :: 0 <= k < |runs| ==> i < |runs[k].bits| && VotesOne(runs[k], i) == one
    ensures Decided(runs, i) == one && !Mixed(runs, i) && i < Width(runs)
  {
    Unanimous(runs, i, one);
    UnanimousTotal(runs, i, one);
    assert FirstSaysOne(runs, i) == VotesOne(runs[0], i);
    hide Total, Count, Ones, FirstSaysOne, Width, Votes;
    SignOfQuotient(Total(runs, i), Max(Count(runs, i), 1));
    WidthCovers(runs, 0);
  }

  lemma HeaderSymbolOf(bits: Bits, i: nat)
    requires HeaderAt(bits, 0) && i < HEADER_LEN
    ensures i < |bits| && i < |START_HEADER| && bits[i] == START_HEADER[i]
  {
    assert bits[0..HEADER_LEN][i] == bits[i];
  }

  /** The vote begins with the header, and reports no disagreement there. */
  lemma HeaderVote(sightings: seq<Sighting>, i: nat)
    requires Headed(sightings) && i < HEADER_LEN
    ensures i < |START_HEADER| && Decided(sightings, i) == START_HEADER[i] && !Mixed(sightings, i) && i < Width(sightings)
  {
    HeaderLength();
    hide Decided, Mixed, Width, HeaderAt, START_HEADER, VotesOne;
    forall k | 0 <= k < |sightings|
      ensures i < |sightings[k].bits| && VotesOne(sightings[k], i) == START_HEADER[i]
    {
      assert HeadedCopy(sightings[k]);
      HeaderSymbolOf(sightings[k].bits, i);
    }
    UnanimousVote(sightings, i, START_HEADER[i]);
  }

  lemma AllHeard(sightings: seq<Sighting>)
    requires Headed(sightings)
    ensures Runs(sightings) == sightings
  {
    hide HeaderAt, VotesOne;
    forall k | 0 <= k < |sightings| ensures sightings[k].bits != [] {
      assert HeadedCopy(sightings[k]);
      HeaderSymbolOf(sightings[k].bits, 0);
    }
    RunsAreAll(sightings);
  }

  /** So a candidate begins with that header exactly when nothing in it is flipped. */
  lemma HeaderKeptExactlyWhen(sightings: seq<Sighting>, at: set<nat>)
    requires Headed(sightings) && VoteOf(sightings).Some?
    ensures HeaderAt(FlipSet(VoteOf(sightings).value.bits, at), 0) <==> forall i: nat :: i in at ==> i >= HEADER_LEN
    ensures forall i: nat :: i in VoteOf(sightings).value.disagree ==> i >= HEADER_LEN
  {
    hide Decided, Mixed, Width, START_HEADER, Runs, Headed;
    HeaderLength();
    AllHeard(sightings);
    DisagreeExact(sightings, Width(sightings));
    var v := VoteOf(sightings).value;
    var heard := FlipSet(v.bits, at);
    forall i: nat | i < HEADER_LEN
      ensures i < |START_HEADER| && i < |heard| && (heard[i] == START_HEADER[i] <==> i !in at) && i !in v.disagree
    {
      HeaderVote(sightings, i);
    }
    HeaderVote(sightings, HEADER_LEN - 1);
    HeaderSymbols(heard);
  }

  lemma HeaderSymbols(bits: Bits)
    requires |bits| >= HEADER_LEN
    ensures |START_HEADER| == HEADER_LEN
    ensures HeaderAt(bits, 0) <==> forall i: nat :: i < HEADER_LEN ==> bits[i] == START_HEADER[i]
  {
    HeaderLength();
    hide START_HEADER;
    assert forall i: nat :: i < HEADER_LEN ==> bits[0..HEADER_LEN][i] == bits[i];
  }

  /** The combined packet is the one at p in these bits. */
  ghost predicate CombinedAt(sightings: seq<Sighting>, heard: Bits, p: nat) {
    sightings != [] &&
    var when := Some(sightings[0].when);
    Acceptable(heard, p, when) && CombineOf(sightings) == Some(PacketAt(heard, p, when))
  }

  /**
   * Where the packet made of several copies comes from: the vote with at most two suspects flipped. If those bits still
   * begin with a header, it is the one at that header exactly when it is acceptable, and otherwise one at a later header
   * of the same bits; if not, it is at some header of what they normalise to. Copies that vote for the header in front of
   * them keep it exactly when no flip is inside it, and hard ones always do: only their disagreements are flipped.
   */
  lemma CombinedAtOwnHeader(sightings: seq<Sighting>) returns (found: set<nat>)
    requires CombineOf(sightings).Some?
    ensures VoteOf(sightings).Some? && sightings != []
    ensures var v := VoteOf(sightings).value;
            var heard, when := FlipSet(v.bits, found), Some(sightings[0].when);
            |found| <= MAX_COMBINE_FLIPS && found <= Elements(FlipSuspects(sightings, v)) &&
            if HeaderAt(heard, 0) then
              (Acceptable(heard, 0, when) <==> CombinedAt(sightings, heard, 0)) &&
              (!Acceptable(heard, 0, when) ==> exists p: nat | p >= HEADER_LEN :: HeaderAt(heard, p) && CombinedAt(sightings, heard, p))
            else
              exists p: nat :: HeaderAt(Normalised(heard), p) && CombinedAt(sightings, Normalised(heard), p)
    ensures Headed(sightings) ==>
              (HeaderAt(FlipSet(VoteOf(sightings).value.bits, found), 0) <==> forall i: nat :: i in found ==> i >= HEADER_LEN)
    ensures HardCopies(sightings) ==> HeaderAt(FlipSet(VoteOf(sightings).value.bits, found), 0)
  {
    CombinedFromVote(sightings);
    hide VoteOf, Accept, FlipSet, Unambiguous, PassesAll, HeaderAt, PacketAt, Frames, AnySoft, Acceptable, CombineOf, Headed, Normalised,
         HardCopies;
    found := CombineExact(sightings);
    var v, when := VoteOf(sightings).value, Some(sightings[0].when);
    if Accept(v.bits, when).Some? {
      found := {};
      FlipNone(v.bits);
    }
    if HardCopies(sightings) {
      HardAreHeaded(sightings);
    }
    if Headed(sightings) {
      HeaderKeptExactlyWhen(sightings, found);
    }
    var heard := FlipSet(v.bits, found);
    assert Accept(heard, when) == CombineOf(sightings);
    if HeaderAt(heard, 0) {
      AtOwnHeader(sightings, heard);
    } else {
      AtSomeHeader(sightings, heard);
    }
  }

  lemma CombinedFromVote(sightings: seq<Sighting>)
    requires CombineOf(sightings).Some?
    ensures VoteOf(sightings).Some? && sightings != []
  {
    hide VoteOf, Accept, Search, FlipSuspects;
  }

  lemma AtOwnHeader(sightings: seq<Sighting>, heard: Bits)
    requires sightings != [] && CombineOf(sightings).Some? && HeaderAt(heard, 0)
    requires Accept(heard, Some(sightings[0].when)) == CombineOf(sightings)
    ensures var when := Some(sightings[0].when);
            (Acceptable(heard, 0, when) <==> CombinedAt(sightings, heard, 0)) &&
            (!Acceptable(heard, 0, when) ==> exists p: nat | p >= HEADER_LEN :: HeaderAt(heard, p) && CombinedAt(sightings, heard, p))
  {
    hide Accept, HeaderAt, PacketAt, Frames, Acceptable, CombineOf;
    var when := Some(sightings[0].when);
    AcceptAtOwnHeader(heard, when);
    if !Acceptable(heard, 0, when) {
      var p: nat :| p >= HEADER_LEN && HeaderAt(heard, p) && Acceptable(heard, p, when) && TakenAt(heard, p, when);
      assert CombinedAt(sightings, heard, p);
    }
  }

  lemma AtSomeHeader(sightings: seq<Sighting>, heard: Bits)
    requires sightings != [] && CombineOf(sightings).Some?
    requires Accept(heard, Some(sightings[0].when)) == CombineOf(sightings)
    ensures exists p: nat :: HeaderAt(Normalised(heard), p) && CombinedAt(sightings, Normalised(heard), p)
  {
    hide Accept, HeaderAt, PacketAt, Frames, Acceptable, CombineOf, Normalised, Offsets;
    var norm := Normalised(heard);
    var k := AcceptIsFirst(heard, Some(sightings[0].when));
    OffsetsAreHeaders(norm, 0);
    assert CombinedAt(sightings, norm, Offsets(norm, 0)[k]);
  }

  lemma FlipNone(bits: Bits)
    ensures FlipSet(bits, {}) == bits
  {
  }
}
