/** What the packet of a sighting is: heard sound, repaired within the limits for copies, or kept as it was heard. */
module SightingProofs {
  import opened Common
  import opened Manchester
  import opened Packets
  import opened Framing
  import opened Recover
  import opened RecoverProofs
  import opened Sightings
  import Damage

  /** Confidence is used when there is one for every symbol, and changes sign exactly where the stream was inverted. */
  lemma ConfidenceFollows(stream: Bits, soft: Option<Soft>, i: nat)
    requires i < |stream|
    ensures var c, norm := Confidence(stream, soft), Normalised(stream);
            (c.Some? <==> soft.Some? && |soft.value| >= |stream|) && |norm| == |stream| &&
            (c.Some? ==> c.value[i] == if norm[i] == stream[i] then soft.value[i] else -soft.value[i])
  {
    assert Invert(stream)[i] != stream[i];
    hide Find, HeaderAt;
  }

  /** The hard decode at a header is sound: long enough, every counter the mandated one, and its CRC byte right. */
  ghost predicate HeardSound(bits: Bits, pos: nat, minBytes: nat) {
    var frames := Frames(bits, pos + MARKER_OFFSET);
    |frames| >= minBytes && frames != [] &&
    var data := FrameBytes(frames);
    CrcIndex(data) < |data| <= FullLength(data) && data[CrcIndex(data)] == PacketCrc(data) &&
    forall f :: 0 <= f < |frames| ==> frames[f].index == ExpectedIndex(Extended(data), f)
  }

  lemma HeardSoundExactly(bits: Bits, pos: nat, when: Option<real>, minBytes: nat)
    requires minBytes >= 1
    ensures HeardSound(bits, pos, minBytes) <==>
              HardAt(bits, pos, when, minBytes).Some? && var p := HardAt(bits, pos, when, minBytes).value;
              p.Verified() && p.indexOk != Some(false)
  {
    hide Frames, PacketCrc, HasExt;
  }

  /** A recovered copy has passing CRCs and possible hops, at most one bit corrected and at most one counter wrong. */
  ghost predicate WithinCopyLimits(r: Recovered) {
    r.packet.HopsOk() && (CrcsPass(r.packet.data, false) || CrcsPass(r.packet.data, true)) &&
    r.packet.corrected <= 1 && r.indexErrors <= 1 && (r.packet.corrected == 1 ==> r.indexErrors == 0)
  }

  /** Which packet it is, given what the header was stamped with. */
  lemma PacketDecides(bits: Bits, conf: Option<Soft>, pos: nat, sent: Option<real>, minBytes: nat)
    requires minBytes >= 1
    ensures var pkt := PacketFor(bits, conf, pos, sent, minBytes);
            var heard := |Frames(bits, pos + MARKER_OFFSET)| >= minBytes;
            var rec := Recovery(bits, SoftFor(bits, conf), pos, sent, COPY_LIMITS);
            (pkt.Some? <==> heard || rec.Some?) && (rec.Some? ==> WithinCopyLimits(rec.value)) &&
            (pkt.Some? ==> pkt.value.timestamp == sent) &&
            (HeardSound(bits, pos, minBytes) ==> pkt.Some? && pkt.value == PacketAt(bits, pos, sent)) &&
            (!HeardSound(bits, pos, minBytes) && rec.Some? ==> pkt == Some(rec.value.packet)) &&
            (!HeardSound(bits, pos, minBytes) && rec.None? && heard ==> pkt == Some(PacketAt(bits, pos, sent)))
  {
    hide Recovery, HeardSound, SoftFor, PacketCrc, HasExt, CrcsPass, WithinCopyLimits;
    HeardSoundExactly(bits, pos, sent, minBytes);
    if Recovery(bits, SoftFor(bits, conf), pos, sent, COPY_LIMITS).Some? {
      RecoveredStamp(bits, SoftFor(bits, conf), pos, sent, COPY_LIMITS);
      RecoveredWithinLimits(bits, SoftFor(bits, conf), pos, sent);
    }
  }

  /**
   * A sighting's packet is the hard decode when that is sound, whatever recovery would say; else the recovered packet, if
   * there is one; else the hard decode as it is. It is stamped with when its header went out, at 9124 symbols a second.
   */
  lemma SightingDecides(bits: Bits, conf: Option<Soft>, pos: nat, o: Origin, clock: real, minBytes: nat)
    requires minBytes >= 1 && pos <= |bits| && (conf.Some? ==> |conf.value| == |bits|)
    ensures var s := SightingAt(bits, conf, pos, o, clock, minBytes);
            var sent := if o.timestamp.None? then None else Some(o.timestamp.value + pos as real / 9124.0);
            var heard := |Frames(bits, pos + MARKER_OFFSET)| >= minBytes;
            var rec := Recovery(bits, SoftFor(bits, conf), pos, sent, COPY_LIMITS);
            (s.Some? <==> heard || rec.Some?) && (rec.Some? ==> WithinCopyLimits(rec.value)) &&
            (s.Some? ==> s.value.when == (if sent.Some? then sent.value else clock) && s.value.packet.timestamp == sent &&
                         s.value.receiver == o.receiver && s.value.rssi == o.rssi) &&
            (HeardSound(bits, pos, minBytes) ==> s.Some? && s.value.packet == PacketAt(bits, pos, sent)) &&
            (!HeardSound(bits, pos, minBytes) && rec.Some? ==> s.Some? && s.value.packet == rec.value.packet) &&
            (!HeardSound(bits, pos, minBytes) && rec.None? && heard ==> s.Some? && s.value.packet == PacketAt(bits, pos, sent))
  {
    hide Recovery, HeardSound, SoftFor, WithinCopyLimits, Frames, PacketFor, PacketAt;
    PacketDecides(bits, conf, pos, SentAt(o, pos), minBytes);
  }

  lemma RecoveredStamp(bits: Bits, sym: Soft, pos: nat, when: Option<real>, limits: Limits)
    requires |sym| == |bits| && Recovery(bits, sym, pos, when, limits).Some?
    ensures Recovery(bits, sym, pos, when, limits).value.packet.timestamp == when
  {
    hide CrcsPass, AllValues, AllConf, WrongCounters, Repair, HopsLegal, ReadsExtended, BytesFrom, Suspects, AllIllegal;
  }

  lemma RecoveredWithinLimits(bits: Bits, sym: Soft, pos: nat, when: Option<real>)
    requires |sym| == |bits| && Recovery(bits, sym, pos, when, COPY_LIMITS).Some?
    ensures WithinCopyLimits(Recovery(bits, sym, pos, when, COPY_LIMITS).value)
  {
    hide Recovery, CrcsPass, AllValues, WrongCounters, HopsLegal, ReadsExtended, BytesFrom;
    RecoverySound(bits, sym, pos, when, COPY_LIMITS);
  }

  /**
   * A sound packet heard with one wrong symbol, no further on than its CRC byte, is sighted as the packet that was sent,
   * unless the symbol hides the EXT flag: the decoder alone would keep the frames before the wrong one.
   */
  lemma DamagedSighting(bits: Bits, pos: nat, data: Wire, f: nat, b: nat, second: bool, o: Origin, clock: real, minBytes: nat)
    requires Damage.OneWrong(bits, pos, data, f, b, second) && f < |data| && b < 8 && Damage.Passes(data)
    requires !Damage.LosesKind(data, f, b) && f <= CrcIndex(data) && minBytes >= 1
    ensures var s := SightingAt(bits, None, pos, o, clock, minBytes);
            pos <= |bits| && s.Some? && s.value.packet.data == data && |Frames(bits, pos + MARKER_OFFSET)| == f
  {
    hide Recovery, Damage.OneWrong, Damage.Passes, PacketCrc, HasExt, Frames, Damage.FramesStand;
    var when := SentAt(o, pos);
    Damage.OneWrongSymbol(bits, pos, data, f, b, second, when, COPY_LIMITS);
    Damage.FramesInside(bits, pos, data, f, b, second);
    Damage.WrongSymbolBreaks(bits, pos, data, f, b, second);
    Damage.BreakAt(bits, pos + MARKER_OFFSET, data, f);
    Damage.ReadsToTheBreak(bits, pos + MARKER_OFFSET, data, f, 0);
    if 0 < f {
      Damage.PacketToTheBreak(bits, pos, data, f, when);
    }
  }

  /** In a whole burst the correlator's header is tried before those the search found, and only if it is not one of them. */
  lemma CorrelatorFirst(bits: Bits, sym: Soft, offsets: seq<nat>, header: Option<nat>, timestamp: Option<real>, limits: Limits)
    requires |sym| == |bits|
    ensures var found := RecoverEach(bits, sym, Places(offsets, header), timestamp, limits);
            (header.Some? && header.value !in offsets && Recovery(bits, sym, header.value, timestamp, limits).Some? ==>
               found != [] && found[0] == Recovery(bits, sym, header.value, timestamp, limits).value) &&
            (header.Some? && header.value in offsets ==> found == RecoverEach(bits, sym, offsets, timestamp, limits))
  {
    hide Recovery;
    if header.Some? && header.value !in offsets && Recovery(bits, sym, header.value, timestamp, limits).Some? {
      FirstStays(bits, sym, header.value, offsets, timestamp, limits);
    }
  }

  lemma {:induction false} FirstStays(bits: Bits, sym: Soft, first: nat, rest: seq<nat>, timestamp: Option<real>, limits: Limits)
    requires |sym| == |bits| && Recovery(bits, sym, first, timestamp, limits).Some?
    ensures var found := RecoverEach(bits, sym, [first] + rest, timestamp, limits);
            found != [] && found[0] == Recovery(bits, sym, first, timestamp, limits).value
  {
    hide Recovery;
    var all := [first] + rest;
    var n := |all| - 1;
    if rest == [] {
      assert all[..n] == [];
      assert RecoverEach(bits, sym, [], timestamp, limits) == [];
    } else {
      FirstStays(bits, sym, first, rest[..n - 1], timestamp, limits);
      assert all[..n] == [first] + rest[..n - 1];
    }
  }
}
