/** The miss table: per device how often RF heard what the modem did not, per receiver what it heard of the whole. */
module Misses {
  import opened Common
  import opened Packets
  import opened Plm
  import opened Inject
  import opened Sums
  import F = Fusion

  datatype DeviceMisses = DeviceMisses(heardByRf: nat, plmAlso: nat, plmMissed: nat, injected: nat,
                                       bestRssi: Option<real>, receivers: set<string>)

  datatype MissConfig = MissConfig(plmAddr: Option<Address>, known: Option<set<Address>>)

  datatype MissState = MissState(undecodable: nat, ownTransmissions: nat, unknownSenders: nat, messages: nat,
                                 heard: map<string, nat>, sole: map<string, nat>, devices: map<Address, DeviceMisses>)

  const NO_MISSES: MissState := MissState(0, 0, 0, 0, map[], map[], map[])

  /** One event as the table is told of it: the modem's answer may be missing. */
  datatype Noted = Noted(event: F.FusedEvent, saw: Option<bool>, injected: bool)

  datatype Kind = Undecodable | Nameless | Own | Unknown | Device(who: Address)

  function KindOf(cfg: MissConfig, pkt: Packet): Kind {
    var who := SenderOf(pkt);
    if !pkt.Verified() || !pkt.HopsOk() then Undecodable
    else if who.None? then Nameless
    else if cfg.plmAddr == who then Own
    else if cfg.known.Some? && who.value !in cfg.known.value then Unknown
    else Device(who.value)
  }

  /** A dictionary of receivers has each name once. */
  ghost predicate DistinctNames(views: seq<F.ReceiverView>) {
    forall i, j :: 0 <= i < j < |views| ==> views[i].name != views[j].name
  }

  /** Whose address a packet shows, in its own sender bytes. */
  ghost predicate Shows(pkt: Packet, who: Address) {
    var s := SenderPlace(pkt.data);
    |pkt.data| >= s + 3 && who == Address(pkt.data[s + 2], pkt.data[s + 1], pkt.data[s])
  }

  /**
   * What an event is filed under: undecodable unless its packet verifies and its hops add up; then the modem's own, an
   * unknown sender's or a device's, by the address in the packet's sender bytes.
   */
  lemma KindExactly(cfg: MissConfig, pkt: Packet, who: Address)
    ensures var good := pkt.Verified() && NumberFor(pkt.HopsLeft()) <= NumberFor(pkt.MaxHops());
            (KindOf(cfg, pkt) == Undecodable <==> !good) && KindOf(cfg, pkt) != Nameless &&
            (Shows(pkt, who) && good ==>
               KindOf(cfg, pkt) == if cfg.plmAddr == Some(who) then Own
                                   else if cfg.known.Some? && who !in cfg.known.value then Unknown else Device(who)) &&
            (KindOf(cfg, pkt) == Device(who) ==> Shows(pkt, who))
  {
    FlagsLayout(pkt);
    SenderFromBytes(pkt);
    hide NumberFor, PacketCrc, HasExt, SenderOf, SenderPlace, HopsLegal;
    SenderPlaces(pkt.data);
  }

  lemma SenderPlaces(data: Wire)
    ensures SenderPlace(data) <= 4
  {
  }

  function NamesOf(views: seq<F.ReceiverView>): set<string> {
    set i | 0 <= i < |views| :: views[i].name
  }

  function CountOfName(m: map<string, nat>, r: string): nat { if r in m then m[r] else 0 }

  function CountName(m: map<string, nat>, r: string): map<string, nat> { m[r := CountOfName(m, r) + 1] }

  function CountNames(m: map<string, nat>, views: seq<F.ReceiverView>): map<string, nat> {
    if views == [] then m else CountName(CountNames(m, views[..|views| - 1]), views[|views| - 1].name)
  }

  function LoudestOf(best: Option<real>, views: seq<F.ReceiverView>): Option<real> {
    if views == [] then best else F.BestRssi(LoudestOf(best, views[..|views| - 1]), views[|views| - 1].rssi)
  }

  function DeviceOf(devices: map<Address, DeviceMisses>, who: Address): DeviceMisses {
    if who in devices then devices[who] else DeviceMisses(0, 0, 0, 0, None, {})
  }

  function Score(d: DeviceMisses, n: Noted): DeviceMisses {
    DeviceMisses(d.heardByRf + 1, d.plmAlso + (if n.saw == Some(true) then 1 else 0),
                 d.plmMissed + (if n.saw == Some(false) then 1 else 0), d.injected + (if n.injected then 1 else 0),
                 LoudestOf(d.bestRssi, n.event.receivers), d.receivers + NamesOf(n.event.receivers))
  }

  /** MissTable.note */
  function NoteStep(cfg: MissConfig, st: MissState, n: Noted): MissState {
    var views := n.event.receivers;
    match KindOf(cfg, n.event.packet)
    case Undecodable => st.(undecodable := st.undecodable + 1)
    case Nameless => st
    case Own => st.(ownTransmissions := st.ownTransmissions + 1)
    case Unknown => st.(unknownSenders := st.unknownSenders + 1)
    case Device(who) =>
      st.(messages := st.messages + 1, heard := CountNames(st.heard, views),
          sole := if |views| == 1 then CountName(st.sole, views[0].name) else st.sole,
          devices := st.devices[who := Score(DeviceOf(st.devices, who), n)])
  }

  class MissTable {
    const cfg: MissConfig
    var undecodable: nat
    var ownTransmissions: nat
    var unknownSenders: nat
    var messages: nat
    var heard: map<string, nat>
    var sole: map<string, nat>
    var devices: map<Address, DeviceMisses>

    ghost function State(): MissState
      reads this
    {
      MissState(undecodable, ownTransmissions, unknownSenders, messages, heard, sole, devices)
    }

    constructor (cfg: MissConfig)
      ensures this.cfg == cfg && State() == NO_MISSES
    {
      this.cfg := cfg;
      undecodable, ownTransmissions, unknownSenders, messages := 0, 0, 0, 0;
      heard, sole, devices := map[], map[], map[];
    }

    method Note(event: F.FusedEvent, saw: Option<bool>, injected: bool)
      modifies this
      ensures State() == NoteStep(cfg, old(State()), Noted(event, saw, injected))
    {
      hide CountNames, CountName, Score, DeviceOf;
      var pkt, views := event.packet, event.receivers;
      if pkt.CrcOk() != Some(true) || !pkt.HopsOk() {
        undecodable := undecodable + 1;
        return;
      }
      var who := SenderOf(pkt);
      if who.None? {
        return;
      }
      if cfg.plmAddr.Some? && who.value == cfg.plmAddr.value {
        ownTransmissions := ownTransmissions + 1;
        return;
      }
      if cfg.known.Some? && who.value !in cfg.known.value {
        unknownSenders := unknownSenders + 1;
        return;
      }
      messages := messages + 1;
      CountReceivers(views);
      ScoreDevice(who.value, event, saw, injected);
    }

    method CountReceivers(views: seq<F.ReceiverView>)
      modifies this`heard, this`sole
      ensures heard == CountNames(old(heard), views)
      ensures sole == if |views| == 1 then CountName(old(sole), views[0].name) else old(sole)
    {
      hide CountName;
      for i := 0 to |views|
        invariant heard == CountNames(old(heard), views[..i]) && sole == old(sole)
      {
        assert views[..i + 1][..i] == views[..i];
        heard := CountName(heard, views[i].name);
      }
      assert views[..|views|] == views;
      if |views| == 1 {
        sole := CountName(sole, views[0].name);
      }
    }

    method ScoreDevice(who: Address, event: F.FusedEvent, saw: Option<bool>, injected: bool)
      modifies this`devices
      ensures devices == old(devices)[who := Score(DeviceOf(old(devices), who), Noted(event, saw, injected))]
    {
      hide NamesOf, LoudestOf;
      var d := DeviceOf(devices, who);
      d := d.(heardByRf := d.heardByRf + 1);
      if saw == Some(true) {
        d := d.(plmAlso := d.plmAlso + 1);
      } else if saw == Some(false) {
        d := d.(plmMissed := d.plmMissed + 1);
      }
      if injected {
        d := d.(injected := d.injected + 1);
      }
      d := d.(receivers := d.receivers + NamesOf(event.receivers));
      var best := Loudest(d.bestRssi, event.receivers);
      devices := devices[who := d.(bestRssi := best)];
    }
  }

  method Loudest(start: Option<real>, views: seq<F.ReceiverView>) returns (best: Option<real>)
    ensures best == LoudestOf(start, views)
  {
    best := start;
    for i := 0 to |views|
      invariant best == LoudestOf(start, views[..i])
    {
      assert views[..i + 1][..i] == views[..i];
      var rssi := views[i].rssi;
      if rssi.Some? && (best.None? || rssi.value > best.value) {
        best := rssi;
      }
    }
    assert views[..|views|] == views;
  }

  // ------------------------------------------------------------------ what the counters mean

  ghost function Count(notes: seq<Noted>, p: Noted -> bool): nat {
    if notes == [] then 0
    else Count(notes[..|notes| - 1], p) + if p(notes[|notes| - 1]) then 1 else 0
  }

  lemma {:induction false} CountWithin(notes: seq<Noted>, p: Noted -> bool, q: Noted -> bool)
    requires forall n :: p(n) ==> q(n)
    ensures Count(notes, p) <= Count(notes, q)
  {
    if notes != [] {
      CountWithin(notes[..|notes| - 1], p, q);
    }
  }

  lemma {:induction false} CountSplits(notes: seq<Noted>, p: Noted -> bool, q: Noted -> bool, all: Noted -> bool)
    requires forall n :: all(n) <==> p(n) || q(n)
    requires forall n :: !(p(n) && q(n))
    ensures Count(notes, all) == Count(notes, p) + Count(notes, q)
  {
    if notes != [] {
      CountSplits(notes[..|notes| - 1], p, q, all);
    }
  }

  function OfKind(cfg: MissConfig, k: Kind): Noted -> bool { (n: Noted) => KindOf(cfg, n.event.packet) == k }

  /** A decodable message from a device. */
  function Message(cfg: MissConfig): Noted -> bool { (n: Noted) => KindOf(cfg, n.event.packet).Device? }

  function HeardFrom(cfg: MissConfig, r: string): Noted -> bool {
    (n: Noted) => KindOf(cfg, n.event.packet).Device? && r in NamesOf(n.event.receivers)
  }

  function HeardOnlyFrom(cfg: MissConfig, r: string): Noted -> bool {
    (n: Noted) => KindOf(cfg, n.event.packet).Device? && r in NamesOf(n.event.receivers) && NamesOf(n.event.receivers) == {r}
  }

  function SawIs(cfg: MissConfig, who: Address, saw: bool): Noted -> bool {
    (n: Noted) => KindOf(cfg, n.event.packet) == Device(who) && n.saw == Some(saw)
  }

  function InjectedFor(cfg: MissConfig, who: Address): Noted -> bool {
    (n: Noted) => KindOf(cfg, n.event.packet) == Device(who) && n.injected
  }

  ghost function NoteAll(cfg: MissConfig, notes: seq<Noted>): MissState {
    if notes == [] then NO_MISSES else NoteStep(cfg, NoteAll(cfg, notes[..|notes| - 1]), notes[|notes| - 1])
  }

  ghost predicate AllDistinct(notes: seq<Noted>) {
    forall i :: 0 <= i < |notes| ==> DistinctNames(notes[i].event.receivers)
  }

  lemma {:induction false} CountNamesExact(m: map<string, nat>, views: seq<F.ReceiverView>, r: string)
    requires DistinctNames(views)
    ensures CountOfName(CountNames(m, views), r) == CountOfName(m, r) + if r in NamesOf(views) then 1 else 0
  {
    if views != [] {
      var n := |views| - 1;
      CountNamesExact(m, views[..n], r);
      NamesAppend(views[..n], views[n], r);
      assert views == views[..n] + [views[n]];
      hide NamesOf, CountNames;
      assert CountNames(m, views) == CountName(CountNames(m, views[..n]), views[n].name) by { CountNamesLast(m, views); }
    }
  }

  lemma CountNamesLast(m: map<string, nat>, views: seq<F.ReceiverView>)
    requires views != []
    ensures CountNames(m, views) == CountName(CountNames(m, views[..|views| - 1]), views[|views| - 1].name)
  {
  }

  lemma NamesAppend(views: seq<F.ReceiverView>, v: F.ReceiverView, r: string)
    requires DistinctNames(views + [v])
    ensures r in NamesOf(views + [v]) <==> r in NamesOf(views) || r == v.name
    ensures v.name !in NamesOf(views)
  {
    var all := views + [v];
    assert all[|views|] == v;
    assert forall i :: 0 <= i < |views| ==> all[i] == views[i];
    assert forall i :: 0 <= i < |views| ==> all[i].name != all[|views|].name;
  }

  lemma SingleName(views: seq<F.ReceiverView>, r: string)
    requires DistinctNames(views)
    ensures NamesOf(views) == {r} <==> |views| == 1 && views[0].name == r
  {
    if |views| == 0 {
      assert r !in NamesOf(views);
    } else if |views| > 1 {
      assert views[0].name in NamesOf(views) && views[1].name in NamesOf(views);
      assert views[0].name != views[1].name;
    } else {
      assert views[0].name in NamesOf(views);
    }
  }

  /** Every counter is the number of noted events it is about. */
  ghost predicate Exact(cfg: MissConfig, st: MissState, notes: seq<Noted>) {
    st.undecodable == Count(notes, OfKind(cfg, Undecodable)) && st.ownTransmissions == Count(notes, OfKind(cfg, Own)) &&
    st.unknownSenders == Count(notes, OfKind(cfg, Unknown)) && st.messages == Count(notes, Message(cfg))
  }

  ghost predicate ReceiversExact(cfg: MissConfig, st: MissState, notes: seq<Noted>, r: string) {
    CountOfName(st.heard, r) == Count(notes, HeardFrom(cfg, r)) && CountOfName(st.sole, r) == Count(notes, HeardOnlyFrom(cfg, r))
  }

  ghost predicate DeviceExact(cfg: MissConfig, st: MissState, notes: seq<Noted>, who: Address) {
    var d := DeviceOf(st.devices, who);
    d.heardByRf == Count(notes, OfKind(cfg, Device(who))) && d.plmAlso == Count(notes, SawIs(cfg, who, true)) &&
    d.plmMissed == Count(notes, SawIs(cfg, who, false)) && d.injected == Count(notes, InjectedFor(cfg, who))
  }

  lemma CountLast(notes: seq<Noted>, p: Noted -> bool)
    requires notes != []
    ensures Count(notes, p) == Count(notes[..|notes| - 1], p) + if p(notes[|notes| - 1]) then 1 else 0
  {
  }

  lemma {:induction false} CountersExact(cfg: MissConfig, notes: seq<Noted>)
    ensures Exact(cfg, NoteAll(cfg, notes), notes)
  {
    if notes != [] {
      CountersExact(cfg, notes[..|notes| - 1]);
      hide KindOf, CountNames, CountName, Score, DeviceOf;
    }
  }

  lemma {:induction false} ReceiverCountersExact(cfg: MissConfig, notes: seq<Noted>, r: string)
    requires AllDistinct(notes)
    ensures ReceiversExact(cfg, NoteAll(cfg, notes), notes, r)
  {
    hide KindOf, NamesOf, CountNames, DistinctNames, Score, DeviceOf;
    if notes != [] {
      var last := notes[|notes| - 1];
      ReceiverCountersExact(cfg, notes[..|notes| - 1], r);
      CountNamesExact(NoteAll(cfg, notes[..|notes| - 1]).heard, last.event.receivers, r);
      SingleName(last.event.receivers, r);
    }
  }

  lemma {:induction false} DeviceCountersExact(cfg: MissConfig, notes: seq<Noted>, who: Address)
    ensures DeviceExact(cfg, NoteAll(cfg, notes), notes, who)
  {
    hide KindOf, NamesOf, CountNames, CountName, LoudestOf, Count;
    if notes == [] {
      NothingCounted(cfg, who);
    } else {
      DeviceCountersExact(cfg, notes[..|notes| - 1], who);
      CountLast(notes, OfKind(cfg, Device(who)));
      CountLast(notes, SawIs(cfg, who, true));
      CountLast(notes, SawIs(cfg, who, false));
      CountLast(notes, InjectedFor(cfg, who));
    }
  }

  lemma NothingCounted(cfg: MissConfig, who: Address)
    ensures DeviceExact(cfg, NO_MISSES, [], who)
  {
  }

  /** The totals balance: every event is in exactly one. */
  lemma {:induction false} TotalsBalance(cfg: MissConfig, notes: seq<Noted>)
    ensures var st := NoteAll(cfg, notes);
            st.undecodable + st.ownTransmissions + st.unknownSenders + st.messages == |notes|
  {
    if notes != [] {
      TotalsBalance(cfg, notes[..|notes| - 1]);
      VerifiedHasSender(cfg, notes[|notes| - 1].event.packet);
      hide KindOf, CountNames, CountName, Score;
    }
  }

  ghost function Sightings(devices: map<Address, DeviceMisses>): map<Address, nat> {
    map who | who in devices :: devices[who].heardByRf
  }

  /** The messages are the devices' sightings added up. */
  lemma {:induction false} MessagesAreSightings(cfg: MissConfig, notes: seq<Noted>)
    ensures NoteAll(cfg, notes).messages == MapSum(Sightings(NoteAll(cfg, notes).devices))
  {
    hide MapSum;
    if notes == [] {
      assert Sightings(NO_MISSES.devices) == map[];
      assert MapSum<Address>(map[]) == 0 by { EmptySum(); }
    } else {
      var last := notes[|notes| - 1];
      MessagesAreSightings(cfg, notes[..|notes| - 1]);
      var before := NoteAll(cfg, notes[..|notes| - 1]);
      var kind := KindOf(cfg, last.event.packet);
      hide KindOf, CountNames, CountName, LoudestOf, NamesOf;
      if kind.Device? {
        var d := Score(DeviceOf(before.devices, kind.who), last);
        MapSumUpdate(Sightings(before.devices), kind.who, d.heardByRf);
        assert Sightings(before.devices[kind.who := d]) == Sightings(before.devices)[kind.who := d.heardByRf];
      }
    }
  }

  lemma EmptySum()
    ensures MapSum<Address>(map[]) == 0
  {
  }

  /** A packet long enough to verify names its sender. */
  lemma VerifiedHasSender(cfg: MissConfig, pkt: Packet)
    ensures KindOf(cfg, pkt) != Nameless
  {
    hide PacketCrc, HasExt, IsGroupBroadcast, HopsLegal;
  }

  /**
   * The coverage figures share one denominator: a receiver was alone no more often than it heard, and heard no more than
   * there were messages; a device's misses and hits, and its injections, never exceed how often it was heard.
   */
  lemma CoverageBounds(cfg: MissConfig, notes: seq<Noted>, r: string, who: Address)
    requires AllDistinct(notes)
    ensures var st := NoteAll(cfg, notes);
            var d := DeviceOf(st.devices, who);
            CountOfName(st.sole, r) <= CountOfName(st.heard, r) <= st.messages &&
            d.plmAlso + d.plmMissed <= d.heardByRf <= st.messages && d.injected <= d.heardByRf
  {
    hide KindOf, NamesOf, Count, NoteAll;
    CountersExact(cfg, notes);
    ReceiverCountersExact(cfg, notes, r);
    DeviceCountersExact(cfg, notes, who);
    CountWithin(notes, HeardOnlyFrom(cfg, r), HeardFrom(cfg, r));
    CountWithin(notes, HeardFrom(cfg, r), Message(cfg));
    CountWithin(notes, OfKind(cfg, Device(who)), Message(cfg));
    CountWithin(notes, InjectedFor(cfg, who), OfKind(cfg, Device(who)));
    var answered := (n: Noted) => KindOf(cfg, n.event.packet) == Device(who) && (n.saw == Some(true) || n.saw == Some(false));
    CountSplits(notes, SawIs(cfg, who, true), SawIs(cfg, who, false), answered);
    CountWithin(notes, answered, OfKind(cfg, Device(who)));
  }

  // ------------------------------------------------------------------ what a device's row remembers

  /** Some message of this device was heard by this receiver. */
  ghost predicate EverHeard(cfg: MissConfig, notes: seq<Noted>, who: Address, r: string) {
    exists i :: 0 <= i < |notes| && KindOf(cfg, notes[i].event.packet) == Device(who) && r in NamesOf(notes[i].event.receivers)
  }

  /** A signal strength some receiver reported for a message of this device. */
  ghost predicate Reported(cfg: MissConfig, notes: seq<Noted>, who: Address, x: real) {
    exists i, j :: 0 <= i < |notes| && 0 <= j < |notes[i].event.receivers| &&
                   KindOf(cfg, notes[i].event.packet) == Device(who) && notes[i].event.receivers[j].rssi == Some(x)
  }

  lemma EverHeardLast(cfg: MissConfig, notes: seq<Noted>, n: Noted, who: Address, r: string)
    ensures EverHeard(cfg, notes + [n], who, r) <==>
            (EverHeard(cfg, notes, who, r) || (KindOf(cfg, n.event.packet) == Device(who) && r in NamesOf(n.event.receivers)))
  {
    hide KindOf, NamesOf;
    var all := notes + [n];
    assert all[|notes|] == n;
    assert forall i :: 0 <= i < |notes| ==> all[i] == notes[i];
  }

  lemma ReportedLast(cfg: MissConfig, notes: seq<Noted>, n: Noted, who: Address, x: real)
    ensures Reported(cfg, notes + [n], who, x) <==>
            (Reported(cfg, notes, who, x) ||
             (KindOf(cfg, n.event.packet) == Device(who) &&
              exists j :: 0 <= j < |n.event.receivers| && n.event.receivers[j].rssi == Some(x)))
  {
    hide KindOf;
    var all := notes + [n];
    assert all[|notes|] == n;
    assert forall i :: 0 <= i < |notes| ==> all[i] == notes[i];
  }

  /** A device's receivers are exactly those that ever heard it. */
  lemma {:induction false} DeviceReceivers(cfg: MissConfig, notes: seq<Noted>, who: Address, r: string)
    ensures r in DeviceOf(NoteAll(cfg, notes).devices, who).receivers <==> EverHeard(cfg, notes, who, r)
  {
    hide KindOf, NamesOf, LoudestOf, CountNames, CountName, EverHeard;
    if notes == [] {
      NothingHeard(cfg, who, r, 0.0);
    } else {
      var front, last := notes[..|notes| - 1], notes[|notes| - 1];
      DeviceReceivers(cfg, front, who, r);
      EverHeardLast(cfg, front, last, who, r);
      assert notes == front + [last];
    }
  }

  lemma NothingHeard(cfg: MissConfig, who: Address, r: string, x: real)
    ensures !EverHeard(cfg, [], who, r) && !Reported(cfg, [], who, x)
  {
  }

  /** The loudest of a start value and the views: one of them, and none is louder. */
  lemma {:induction false} LoudestIsLoudest(start: Option<real>, views: seq<F.ReceiverView>)
    ensures var best := LoudestOf(start, views);
            (best == start || exists j :: 0 <= j < |views| && views[j].rssi.Some? && best == views[j].rssi) &&
            (start.Some? ==> best.Some? && start.value <= best.value) &&
            forall j :: 0 <= j < |views| && views[j].rssi.Some? ==> best.Some? && views[j].rssi.value <= best.value
  {
    if views != [] {
      var front := views[..|views| - 1];
      LoudestIsLoudest(start, front);
      assert forall j :: 0 <= j < |front| ==> front[j] == views[j];
    }
  }

  /** A device's best signal is the loudest ever reported for it, if one ever was. */
  lemma {:induction false} DeviceLoudest(cfg: MissConfig, notes: seq<Noted>, who: Address)
    ensures var best := DeviceOf(NoteAll(cfg, notes).devices, who).bestRssi;
            (best.Some? ==> Reported(cfg, notes, who, best.value)) &&
            forall x :: Reported(cfg, notes, who, x) ==> best.Some? && x <= best.value
  {
    hide KindOf, NamesOf, LoudestOf, CountNames, CountName, Reported;
    if notes == [] {
      forall x: real ensures !Reported(cfg, notes, who, x) {
        NothingHeard(cfg, who, "", x);
      }
    } else {
      var front, last := notes[..|notes| - 1], notes[|notes| - 1];
      var before := DeviceOf(NoteAll(cfg, front).devices, who).bestRssi;
      var best := DeviceOf(NoteAll(cfg, notes).devices, who).bestRssi;
      DeviceLoudest(cfg, front, who);
      LoudestIsLoudest(before, last.event.receivers);
      assert notes == front + [last];
      forall x
        ensures Reported(cfg, notes, who, x) <==>
                (Reported(cfg, front, who, x) ||
                 (KindOf(cfg, last.event.packet) == Device(who) &&
                  exists j :: 0 <= j < |last.event.receivers| && last.event.receivers[j].rssi == Some(x)))
      {
        ReportedLast(cfg, front, last, who, x);
      }
    }
  }
}
