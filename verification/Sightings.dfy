/** From one receiver's capture to sightings, and the burst decoder that shares its repair. */
module Sightings {
  import opened Common
  import opened Manchester
  import opened Packets
  import opened Framing
  import opened RoundTrip
  import opened Recover
  import opened Combine

  const BAUD: real := 9124.0

  /** RECOVER_MAX_FLIPS and RECOVER_CANDIDATES, with recover_at's own defaults for the rest. */
  const COPY_LIMITS: Limits := Limits(1, 8, 1, true)

  function Negated(s: Soft): (r: Soft)
    ensures |r| == |s|
  {
    seq(|s|, i requires 0 <= i < |s| => -s[i])
  }

  // ------------------------------------------------------------------ one capture

  /** What came with the capture. */
  datatype Origin = Origin(receiver: string, rssi: Option<real>, timestamp: Option<real>)

  /** A packet further into the capture went out that much later. */
  function SentAt(o: Origin, pos: nat): Option<real> {
    if o.timestamp.None? then None else Some(o.timestamp.value + pos as real / BAUD)
  }

  /** What the hard decoder makes of a header, if it is long enough to keep. */
  function HardAt(bits: Bits, pos: nat, when: Option<real>, minBytes: nat): Option<Packet>
    requires minBytes >= 1
  {
    if |Frames(bits, pos + MARKER_OFFSET)| >= minBytes then Some(PacketAt(bits, pos, when)) else None
  }

  /** The hard decode if it is sound; else the soft one; else what the hard one gave, if anything. */
  function PacketFor(bits: Bits, conf: Option<Soft>, pos: nat, when: Option<real>, minBytes: nat): Option<Packet>
    requires minBytes >= 1
  {
    var hard := HardAt(bits, pos, when, minBytes);
    if hard.Some? && hard.value.Verified() && hard.value.indexOk != Some(false) then hard
    else
      var rec := Recovery(bits, SoftFor(bits, conf), pos, when, COPY_LIMITS);
      if rec.Some? then Some(rec.value.packet) else hard
  }

  /** `clock` is the time a copy without any timestamp is taken to be of. */
  function SightingAt(bits: Bits, conf: Option<Soft>, pos: nat, o: Origin, clock: real, minBytes: nat): Option<Sighting>
    requires minBytes >= 1 && (conf.Some? ==> |conf.value| == |bits|)
  {
    var when := SentAt(o, pos);
    var pkt := PacketFor(bits, conf, pos, when, minBytes);
    if pkt.None? || pos > |bits| then None
    else Some(MakeSighting(pkt.value, o.receiver, o.rssi, if when.Some? then when.value else clock, bits[pos..],
                           if conf.None? then None else Some(conf.value[pos..])))
  }

  function SightingsAt(bits: Bits, conf: Option<Soft>, offsets: seq<nat>, o: Origin, clock: real, minBytes: nat): seq<Sighting>
    requires minBytes >= 1 && (conf.Some? ==> |conf.value| == |bits|)
  {
    if offsets == [] then []
    else
      var s := SightingAt(bits, conf, offsets[|offsets| - 1], o, clock, minBytes);
      SightingsAt(bits, conf, offsets[..|offsets| - 1], o, clock, minBytes) + if s.Some? then [s.value] else []
  }

  /** The capture's confidence, following its polarity; too little of it counts as none. */
  function Confidence(stream: Bits, soft: Option<Soft>): (r: Option<Soft>)
    ensures r.Some? ==> |r.value| == |stream|
  {
    if soft.None? || |soft.value| < |stream| then None
    else
      var c := soft.value[..|stream|];
      Some(if Normalised(stream) != stream then Negated(c) else c)
  }

  /** sightings_from_capture */
  function SightingsOf(stream: Bits, soft: Option<Soft>, o: Origin, clock: real, minBytes: nat): seq<Sighting>
    requires minBytes >= 1
  {
    var bits := Normalised(stream);
    SightingsAt(bits, Confidence(stream, soft), Offsets(bits, 0), o, clock, minBytes)
  }

  method SightingsFromCapture(stream: Bits, soft: Option<Soft>, o: Origin, clock: real, minBytes: nat)
    returns (found: seq<Sighting>)
    requires minBytes >= 1
    ensures found == SightingsOf(stream, soft, o, clock, minBytes)
  {
    hide Normalised, Offsets, Negated, PacketFor, SightingAt;
    var bits, offsets := FindHeaders(stream);
    var conf: Option<Soft> := None;
    if soft.Some? && |soft.value| >= |stream| {
      conf := Some(soft.value[..|stream|]);
      if bits != stream {
        conf := Some(Negated(conf.value));
      }
    }
    found := [];
    for k := 0 to |offsets|
      invariant found == SightingsAt(bits, conf, offsets[..k], o, clock, minBytes)
    {
      assert offsets[..k + 1][..k] == offsets[..k];
      var s := OneSighting(bits, conf, offsets[k], o, clock, minBytes);
      if s.Some? {
        found := found + [s.value];
      }
    }
    assert offsets[..|offsets|] == offsets;
  }

  method HardPacket(bits: Bits, pos: nat, when: Option<real>, minBytes: nat) returns (pkt: Option<Packet>)
    requires minBytes >= 1
    ensures pkt == HardAt(bits, pos, when, minBytes)
  {
    hide Frames, IndexesOk;
    var frames := DecodeFrames(bits, pos + MARKER_OFFSET);
    pkt := None;
    if |frames| >= minBytes {
      FramesEnd(bits, pos + MARKER_OFFSET);
      var end := pos + MARKER_OFFSET + FRAME_BITS * |frames|;
      pkt := Some(Packet(FrameBytes(frames), bits[pos..end], when, frames[|frames| - 1].index == 0, 0, Some(IndexesOk(frames))));
    }
  }

  /** One turn of the loop over headers. */
  method OneSighting(bits: Bits, conf: Option<Soft>, pos: nat, o: Origin, clock: real, minBytes: nat) returns (r: Option<Sighting>)
    requires minBytes >= 1 && (conf.Some? ==> |conf.value| == |bits|)
    ensures r == SightingAt(bits, conf, pos, o, clock, minBytes)
  {
    hide HardAt, Recovery, SoftFor, PacketCrc, HasExt, MakeSighting;
    var when := SentAt(o, pos);
    var pkt := HardPacket(bits, pos, when, minBytes);
    if pkt.None? || pkt.value.CrcOk() != Some(true) || pkt.value.indexOk == Some(false) {
      var rec := RecoverAt(bits, SoftFor(bits, conf), pos, when, COPY_LIMITS);
      if rec.Some? {
        pkt := Some(rec.value.packet);
      }
    }
    if pkt.None? || pos > |bits| {
      return None;
    }
    r := Some(MakeSighting(pkt.value, o.receiver, o.rssi, if when.Some? then when.value else clock, bits[pos..],
                           if conf.None? then None else Some(conf.value[pos..])));
  }

  // ------------------------------------------------------------------ a whole burst

  predicate Seen(found: seq<Recovered>, data: Wire) { exists i | 0 <= i < |found| :: found[i].packet.data == data }

  function AddNew(found: seq<Recovered>, r: Option<Recovered>): seq<Recovered> {
    if r.None? || Seen(found, r.value.packet.data) then found else found + [r.value]
  }

  function RecoverEach(bits: Bits, sym: Soft, offsets: seq<nat>, timestamp: Option<real>, limits: Limits): seq<Recovered>
    requires |sym| == |bits|
  {
    if offsets == [] then []
    else AddNew(RecoverEach(bits, sym, offsets[..|offsets| - 1], timestamp, limits),
                Recovery(bits, sym, offsets[|offsets| - 1], timestamp, limits))
  }

  /** The correlator's header first, if the search did not find it. */
  function Places(offsets: seq<nat>, header: Option<nat>): seq<nat> {
    if header.Some? && header.value !in offsets then [header.value] + offsets else offsets
  }

  method RecoverPackets(line: Bits, soft: Option<Soft>, timestamp: Option<real>, header: Option<nat>, limits: Limits)
    returns (found: seq<Recovered>)
    ensures var norm := Normalised(line);
            var sym := SoftFor(line, soft);
            found == RecoverEach(norm, if norm != line then Negated(sym) else sym, Places(Offsets(norm, 0), header), timestamp, limits)
  {
    hide Normalised, Offsets, Recovery, Negated, SoftFor;
    var sym := SoftFor(line, soft);
    var norm, offsets := FindHeaders(line);
    if norm != line {
      sym := Negated(sym);
    }
    if header.Some? && header.value !in offsets {
      offsets := [header.value] + offsets;
    }
    found := [];
    for k := 0 to |offsets|
      invariant found == RecoverEach(norm, sym, offsets[..k], timestamp, limits)
    {
      assert offsets[..k + 1][..k] == offsets[..k];
      var rec := RecoverAt(norm, sym, offsets[k], timestamp, limits);
      found := AddNew(found, rec);
    }
    assert offsets[..|offsets|] == offsets;
  }

  predicate RecoveredAt(bits: Bits, sym: Soft, pos: nat, timestamp: Option<real>, limits: Limits, r: Recovered)
    requires |sym| == |bits|
  {
    Recovery(bits, sym, pos, timestamp, limits) == Some(r)
  }

  lemma {:induction false} ComesFrom(bits: Bits, sym: Soft, offsets: seq<nat>, timestamp: Option<real>,
                                     limits: Limits, i: nat) returns (k: nat)
    requires |sym| == |bits| && i < |RecoverEach(bits, sym, offsets, timestamp, limits)|
    ensures k < |offsets| && RecoveredAt(bits, sym, offsets[k], timestamp, limits, RecoverEach(bits, sym, offsets, timestamp, limits)[i])
  {
    hide Recovery;
    var n := |offsets| - 1;
    if i < |RecoverEach(bits, sym, offsets[..n], timestamp, limits)| {
      k := ComesFrom(bits, sym, offsets[..n], timestamp, limits, i);
    } else {
      k := n;
    }
  }

  /** No packet twice, each recovered at one of the places, and every place's packet among them. */
  lemma {:induction false} RecoveredOnce(bits: Bits, sym: Soft, offsets: seq<nat>, timestamp: Option<real>, limits: Limits)
    requires |sym| == |bits|
    ensures var found := RecoverEach(bits, sym, offsets, timestamp, limits);
            (forall i, j :: 0 <= i < j < |found| ==> found[i].packet.data != found[j].packet.data) &&
            (forall i :: 0 <= i < |found| ==>
               exists k :: 0 <= k < |offsets| && RecoveredAt(bits, sym, offsets[k], timestamp, limits, found[i])) &&
            (forall k :: 0 <= k < |offsets| && Recovery(bits, sym, offsets[k], timestamp, limits).Some? ==>
               Seen(found, Recovery(bits, sym, offsets[k], timestamp, limits).value.packet.data))
  {
    hide Recovery;
    if offsets != [] {
      var n := |offsets| - 1;
      var front := offsets[..n];
      RecoveredOnce(bits, sym, front, timestamp, limits);
      var before, r := RecoverEach(bits, sym, front, timestamp, limits), Recovery(bits, sym, offsets[n], timestamp, limits);
      var found := AddNew(before, r);
      assert before <= found;
      assert r.Some? && !Seen(before, r.value.packet.data) ==> found[|before|] == r.value;
      forall i | 0 <= i < |found|
        ensures exists k :: 0 <= k < |offsets| && RecoveredAt(bits, sym, offsets[k], timestamp, limits, found[i])
      {
        var k := ComesFrom(bits, sym, offsets, timestamp, limits, i);
      }
      forall k | 0 <= k < |offsets| && Recovery(bits, sym, offsets[k], timestamp, limits).Some?
        ensures Seen(found, Recovery(bits, sym, offsets[k], timestamp, limits).value.packet.data)
      {
        if k < n {
          assert offsets[k] == front[k];
          SeenLater(before, found, Recovery(bits, sym, offsets[k], timestamp, limits).value.packet.data);
        }
      }
    }
  }

  lemma SeenLater(before: seq<Recovered>, found: seq<Recovered>, data: Wire)
    requires before <= found && Seen(before, data)
    ensures Seen(found, data)
  {
    var i :| 0 <= i < |before| && before[i].packet.data == data;
    assert found[i].packet.data == data;
  }

  // ------------------------------------------------------------------ what a capture gives

  /** A packet every check passes, long enough to be kept. */
  ghost predicate SoundWire(data: Wire, minBytes: nat) {
    Encodable(data) && |data| >= minBytes && |data| > CrcIndex(data) && data[CrcIndex(data)] == PacketCrc(data)
  }

  lemma {:induction false} OffsetsCount(ps: seq<Wire>)
    requires AllEncodable(ps)
    ensures |Offsets(Stream(ps), 0)| == |ps|
  {
    hide Offsets, PacketBits, Stream;
    OffsetsOfStream(ps);
    if ps != [] {
      OffsetsCount(ps[1..]);
    }
  }

  /** When no packet was left out, the k-th is the one at the k-th header. */
  lemma {:induction false} AllKept(bits: Bits, offsets: seq<nat>, timestamp: Option<real>, k: nat)
    requires |PacketsAt(bits, offsets, timestamp, 1)| >= |offsets| && k < |offsets|
    ensures |PacketsAt(bits, offsets, timestamp, 1)| == |offsets| && Frames(bits, offsets[k] + MARKER_OFFSET) != []
    ensures PacketsAt(bits, offsets, timestamp, 1)[k] == PacketAt(bits, offsets[k], timestamp)
  {
    hide Frames, PacketAt;
    AtMostOneEach(bits, offsets[1..], timestamp);
    if k > 0 {
      AllKept(bits, offsets[1..], timestamp, k - 1);
    }
  }

  lemma {:induction false} AtMostOneEach(bits: Bits, offsets: seq<nat>, timestamp: Option<real>)
    ensures |PacketsAt(bits, offsets, timestamp, 1)| <= |offsets|
  {
    hide Frames, PacketAt;
    if offsets != [] {
      AtMostOneEach(bits, offsets[1..], timestamp);
    }
  }

  lemma {:induction false} ExpectedAllAt(ps: seq<Wire>, timestamp: Option<real>, k: nat)
    requires AllEncodable(ps) && k < |ps|
    ensures |ExpectedAll(ps, timestamp, 1)| == |ps| && ExpectedAll(ps, timestamp, 1)[k] == Expected(ps[k], timestamp)
  {
    hide Expected;
    if |ps| > 1 {
      ExpectedAllAt(ps[1..], timestamp, if k > 0 then k - 1 else 0);
    }
  }

  lemma PacketAtHeader(ps: seq<Wire>, k: nat, timestamp: Option<real>)
    requires AllEncodable(ps) && k < |ps|
    ensures var offsets := Offsets(Stream(ps), 0);
            |offsets| == |ps| && Frames(Stream(ps), offsets[k] + MARKER_OFFSET) != [] && offsets[k] <= |Stream(ps)| &&
            PacketAt(Stream(ps), offsets[k], timestamp) == Expected(ps[k], timestamp)
  {
    hide Stream, Offsets, PacketsAt, PacketAt, Expected, ExpectedAll, Frames;
    OffsetsCount(ps);
    ParseStream(ps, timestamp, 1);
    ExpectedAllAt(ps, timestamp, k);
    AllKept(Stream(ps), Offsets(Stream(ps), 0), timestamp, k);
    FramesEnd(Stream(ps), Offsets(Stream(ps), 0)[k] + MARKER_OFFSET);
  }

  /** A packet heard intact is its own sighting: nothing is recovered, and its bits run from its header to the end. */
  lemma IntactSighting(ps: seq<Wire>, k: nat, conf: Option<Soft>, o: Origin, clock: real, minBytes: nat)
    requires AllEncodable(ps) && k < |ps| && SoundWire(ps[k], minBytes) && minBytes >= 1
    requires conf.Some? ==> |conf.value| == |Stream(ps)|
    ensures |Offsets(Stream(ps), 0)| == |ps|
    ensures var pos := Offsets(Stream(ps), 0)[k];
            var s := SightingAt(Stream(ps), conf, pos, o, clock, minBytes);
            pos <= |Stream(ps)| && s.Some? && s.value.packet == Expected(ps[k], SentAt(o, pos)) && s.value.receiver == o.receiver &&
            s.value.bits == Stream(ps)[pos..] && (conf.Some? ==> s.value.soft == Some(conf.value[pos..]))
  {
    hide Stream, Offsets, Recovery, PacketCrc, SoftFor, PacketBits, Frames, IndexesOk;
    OffsetsCount(ps);
    var pos := Offsets(Stream(ps), 0)[k];
    PacketAtHeader(ps, k, SentAt(o, pos));
    LongEnough(ps, k, pos, SentAt(o, pos));
  }

  lemma LongEnough(ps: seq<Wire>, k: nat, pos: nat, when: Option<real>)
    requires AllEncodable(ps) && k < |ps| && Frames(Stream(ps), pos + MARKER_OFFSET) != []
    requires PacketAt(Stream(ps), pos, when) == Expected(ps[k], when)
    ensures |Frames(Stream(ps), pos + MARKER_OFFSET)| == |ps[k]| && pos < |Stream(ps)|
  {
    hide Stream, Frames, IndexesOk, PacketBits;
    FramesEnd(Stream(ps), pos + MARKER_OFFSET);
    assert |FrameBytes(Frames(Stream(ps), pos + MARKER_OFFSET))| == |ps[k]|;
  }

  lemma {:induction false} AllGiveSightings(bits: Bits, conf: Option<Soft>, offsets: seq<nat>, o: Origin,
                                            clock: real, minBytes: nat)
    requires minBytes >= 1 && (conf.Some? ==> |conf.value| == |bits|)
    requires forall k :: 0 <= k < |offsets| ==> SightingAt(bits, conf, offsets[k], o, clock, minBytes).Some?
    ensures var found := SightingsAt(bits, conf, offsets, o, clock, minBytes);
            |found| == |offsets| &&
            forall k :: 0 <= k < |offsets| ==> SightingAt(bits, conf, offsets[k], o, clock, minBytes) == Some(found[k])
  {
    hide SightingAt;
    if offsets != [] {
      AllGiveSightings(bits, conf, offsets[..|offsets| - 1], o, clock, minBytes);
    }
  }

  /**
   * A capture of any sound packets sent one after the other, in either polarity, gives one sighting per packet, in order:
   * the packet that was sent, stamped with when it was, and its bits from its own header on.
   */
  lemma CaptureGivesPackets(ps: seq<Wire>, inverted: bool, soft: Option<Soft>, o: Origin, clock: real, minBytes: nat,
                            k: nat)
    requires AllEncodable(ps) && minBytes >= 1 && (forall i :: 0 <= i < |ps| ==> SoundWire(ps[i], minBytes)) && k < |ps|
    ensures var found := SightingsOf(if inverted then Invert(Stream(ps)) else Stream(ps), soft, o, clock, minBytes);
            var offsets := Offsets(Stream(ps), 0);
            |found| == |ps| == |offsets| && offsets[k] <= |Stream(ps)| &&
            found[k].packet == Expected(ps[k], SentAt(o, offsets[k])) && found[k].bits == Stream(ps)[offsets[k]..]
  {
    hide Stream, Offsets, Normalised, SightingAt, Confidence, SoundWire, PacketBits, Expected;
    var sent := if inverted then Invert(Stream(ps)) else Stream(ps);
    NormalisedStream(ps, inverted);
    var conf, offsets := Confidence(sent, soft), Offsets(Stream(ps), 0);
    OffsetsCount(ps);
    forall i | 0 <= i < |offsets| ensures SightingAt(Stream(ps), conf, offsets[i], o, clock, minBytes).Some? {
      IntactSighting(ps, i, conf, o, clock, minBytes);
    }
    AllGiveSightings(Stream(ps), conf, offsets, o, clock, minBytes);
    IntactSighting(ps, k, conf, o, clock, minBytes);
  }

  /** Confidence follows polarity: a capture and its inverse, signs flipped with it, give the same sightings. */
  lemma PolarityBlind(ps: seq<Wire>, soft: Soft, o: Origin, clock: real, minBytes: nat)
    requires AllEncodable(ps) && ps != [] && minBytes >= 1 && |soft| >= |Stream(ps)|
    ensures SightingsOf(Invert(Stream(ps)), Some(Negated(soft)), o, clock, minBytes)
         == SightingsOf(Stream(ps), Some(soft), o, clock, minBytes)
  {
    hide Stream, Offsets, Normalised, SightingsAt, PacketBits, Invert;
    NormalisedStream(ps, true);
    NormalisedStream(ps, false);
    SomeSymbol(ps);
    var c := soft[..|Stream(ps)|];
    assert Negated(soft)[..|Stream(ps)|] == Negated(c);
    assert Negated(Negated(c)) == c;
  }

  lemma SomeSymbol(ps: seq<Wire>)
    requires AllEncodable(ps) && ps != []
    ensures Invert(Stream(ps)) != Stream(ps)
  {
    HeaderOfPacket(ps[0], Stream(ps[1..]));
    hide PacketBits;
    assert Invert(Stream(ps))[0] == !Stream(ps)[0];
  }
}
