/** The injection decision: what one call does, on values, and the objects that hold the state. */
module Inject {
  import opened Common
  import opened Packets
  import opened Plm
  import F = Fusion

  datatype Tier = Battery | Group | DeviceState

  /** Why an event was not injected; refusals are counted by these. */
  datatype Reason =
    | KillSwitch | Reply | NoSender | OwnTransmission | UnknownSender | UnhandledType(msgType: byte) | TierOff(tier: Tier)
    | BadCrc | BadCounters | BadHops | BadDataCrc | Repaired(flips: nat) | TooFewReceivers(combinedFrom: nat)
    | AlreadyHeard | DeviceLimit | GlobalLimit | Unrenderable(error: PlmFormatError)

  datatype Verdict =
    | Refused(reason: Reason)
    | WouldInject(tier: Tier, frame: seq<byte>)
    | Injected(tier: Tier, frame: seq<byte>)

  /** `window` is the modem memory's. */
  datatype Config = Config(plmAddr: Option<Address>, battery: set<Address>, known: Option<set<Address>>, allow: set<Tier>,
                           shadow: bool, perDevice: real, perMinute: int, minReceivers: int, window: real)

  datatype Counters = Counters(considered: nat, injected: nat, wouldInject: nat, refused: map<Reason, nat>)

  datatype InjectorState = InjectorState(counters: Counters, lastPerDevice: map<Address, real>, recent: seq<real>,
                                         seen: map<Wire, real>)

  const FRESH: InjectorState := InjectorState(Counters(0, 0, 0, map[]), map[], [], map[])

  const MINUTE: real := 60.0
  const LEAST_MEMORY: real := 10.0

  // ------------------------------------------------------------------ what the modem heard

  function KeptFor(window: real): real { if window >= LEAST_MEMORY then window else LEAST_MEMORY }

  /** PlmMemory.forget_old */
  function Kept(seen: map<Wire, real>, window: real, now: real): map<Wire, real> {
    map k | k in seen && now - seen[k] <= KeptFor(window) :: seen[k]
  }

  predicate Near(a: real, b: real, window: real) { -window <= a - b <= window }

  /** PlmMemory.heard */
  predicate HeardIn(seen: map<Wire, real>, window: real, key: Wire, at: real) {
    key in seen && Near(at, seen[key], window)
  }

  /** PlmMemory.note */
  function NoteIn(seen: map<Wire, real>, raw: seq<byte>, now: real): map<Wire, real> {
    var pkt := FromPlm(raw);
    if pkt.Ok? then seen[MessageKey(pkt.value) := now] else seen
  }

  class PlmMemory {
    const window: real
    var frames: nat
    var seen: map<Wire, real>

    constructor (window: real)
      ensures this.window == window && frames == 0 && seen == map[]
    {
      this.window := window;
      frames, seen := 0, map[];
    }

    method Note(raw: seq<byte>, now: real) returns (ok: bool)
      modifies this
      ensures ok <==> FromPlm(raw).Ok?
      ensures seen == NoteIn(old(seen), raw, now) && frames == old(frames) + if ok then 1 else 0
    {
      hide FromPlm;
      var pkt := FromPlm(raw);
      if pkt.Err? {
        return false;
      }
      seen := seen[MessageKey(pkt.value) := now];
      frames := frames + 1;
      ok := true;
    }

    predicate Heard(key: Wire, at: real)
      reads this
      ensures Heard(key, at) == HeardIn(seen, window, key, at)
    {
      key in seen && (if at >= seen[key] then at - seen[key] else seen[key] - at) <= window
    }

    method ForgetOld(now: real)
      modifies this`seen
      ensures seen == Kept(old(seen), window, now)
    {
      var keys := seen.Keys;
      while keys != {}
        invariant keys <= seen.Keys <= old(seen).Keys
        invariant forall k :: k in seen ==> seen[k] == old(seen)[k]
        invariant forall k :: k in old(seen) && k !in keys ==> (k in seen <==> now - old(seen)[k] <= KeptFor(window))
        decreases |keys|
      {
        var key :| key in keys;
        keys := keys - {key};
        if now - seen[key] > KeptFor(window) {
          seen := seen - {key};
        }
      }
    }
  }

  // ------------------------------------------------------------------ classification

  predicate IsReply(pkt: Packet) { pkt.MsgType() == 1 || pkt.MsgType() == 3 || pkt.MsgType() == 5 || pkt.MsgType() == 7 }

  /** sender_of: a group broadcast has its sender in the other slot. */
  function SenderOf(pkt: Packet): Option<Address> {
    if pkt.GroupBroadcast() then pkt.ToAddr() else pkt.FromAddr()
  }

  /** The sender is read off the packet's own bytes, low byte first; a packet too short for its address slot has none. */
  lemma SenderFromBytes(pkt: Packet)
    ensures var s := SenderPlace(pkt.data);
            SenderOf(pkt) == if |pkt.data| >= s + 3 then Some(Address(pkt.data[s + 2], pkt.data[s + 1], pkt.data[s])) else None
  {
    GroupByNumber(pkt.data[0]);
    hide IsGroupBroadcast, NumberFor;
  }

  function Classify(cfg: Config, pkt: Packet): (r: Result<Tier, Reason>)
    ensures r.Ok? ==> SenderOf(pkt).Some?
  {
    var sender := SenderOf(pkt);
    if IsReply(pkt) then Err(Reply)
    else if sender.None? then Err(NoSender)
    else if cfg.plmAddr == sender then Err(OwnTransmission)
    else if cfg.known.Some? && sender.value !in cfg.known.value then Err(UnknownSender)
    else if sender.value in cfg.battery then Ok(Battery)
    else if pkt.GroupBroadcast() || pkt.MsgType() == 2 then Ok(Group)
    else if pkt.MsgType() == 0 then Ok(DeviceState)
    else Err(UnhandledType(pkt.MsgType()))
  }

  // ------------------------------------------------------------------ the decision

  /** The checks that depend on the event alone, worst risk first. */
  function Screen(cfg: Config, event: F.FusedEvent, enabled: bool): (r: Result<Tier, Reason>)
    ensures r.Ok? ==> SenderOf(event.packet).Some?
  {
    var pkt := event.packet;
    var tier := Classify(cfg, pkt);
    if !enabled then Err(KillSwitch)
    else if tier.Err? then tier
    else if tier.value !in cfg.allow then Err(TierOff(tier.value))
    else if !pkt.Verified() then Err(BadCrc)
    else if pkt.indexOk == Some(false) then Err(BadCounters)
    else if !pkt.HopsOk() then Err(BadHops)
    else if pkt.Ext() && pkt.ExtCrcOk() == Some(false) then Err(BadDataCrc)
    else if pkt.corrected > 0 then Err(Repaired(pkt.corrected))
    else if event.combined && event.combinedFrom < cfg.minReceivers then Err(TooFewReceivers(event.combinedFrom))
    else tier
  }

  predicate DeviceBusy(cfg: Config, last: map<Address, real>, sender: Address, now: real) {
    sender in last && now - last[sender] < cfg.perDevice
  }

  /** The two rate limits: the sender's, then everyone's. */
  function LimitOf(cfg: Config, last: map<Address, real>, recent: seq<real>, sender: Address, now: real): Option<Reason> {
    if DeviceBusy(cfg, last, sender, now) then Some(DeviceLimit)
    else if |recent| >= cfg.perMinute then Some(GlobalLimit)
    else None
  }

  /** The verdict, given the state after old entries are forgotten. */
  function Judge(cfg: Config, st: InjectorState, event: F.FusedEvent, enabled: bool, now: real): Verdict {
    var tier := Screen(cfg, event, enabled);
    if tier.Err? then Refused(tier.error)
    else if HeardIn(st.seen, cfg.window, event.key, event.lastSeen) then Refused(AlreadyHeard)
    else
      var limit := LimitOf(cfg, st.lastPerDevice, st.recent, SenderOf(event.packet).value, now);
      if limit.Some? then Refused(limit.value) else
      var frame := ToPlm(event.packet, true);
      if frame.Err? then Refused(Unrenderable(frame.error))
      else if cfg.shadow then WouldInject(tier.value, frame.value)
      else Injected(tier.value, frame.value)
  }

  function Recent(recent: seq<real>, now: real): seq<real> {
    if recent == [] then []
    else Recent(recent[..|recent| - 1], now) + if now - recent[|recent| - 1] < MINUTE then [recent[|recent| - 1]] else []
  }

  /** _forget_old */
  function Forget(cfg: Config, st: InjectorState, now: real): InjectorState {
    st.(seen := Kept(st.seen, cfg.window, now), recent := Recent(st.recent, now))
  }

  function CountOf(refused: map<Reason, nat>, r: Reason): nat { if r in refused then refused[r] else 0 }

  function Tallied(c: Counters, v: Verdict): Counters {
    match v
    case Refused(r) => c.(considered := c.considered + 1, refused := c.refused[r := CountOf(c.refused, r) + 1])
    case WouldInject(_, _) => c.(considered := c.considered + 1, wouldInject := c.wouldInject + 1)
    case Injected(_, _) => c.(considered := c.considered + 1, injected := c.injected + 1)
  }

  function VerdictOf(cfg: Config, st: InjectorState, event: F.FusedEvent, enabled: bool, now: real): (v: Verdict)
    ensures v.Injected? ==> SenderOf(event.packet).Some?
  {
    Judge(cfg, Forget(cfg, st, now), event, enabled, now)
  }

  /** Injector.consider */
  function ConsiderStep(cfg: Config, st: InjectorState, event: F.FusedEvent, enabled: bool, now: real): InjectorState {
    var kept := Forget(cfg, st, now);
    var v := VerdictOf(cfg, st, event, enabled, now);
    var tallied := kept.(counters := Tallied(st.counters, v));
    if v.Injected? then
      tallied.(lastPerDevice := st.lastPerDevice[SenderOf(event.packet).value := now], recent := kept.recent + [now])
    else tallied
  }

  /** What the call leaves in the event's `plm_saw_it`; None when it got no answer. */
  function PlmSawIt(cfg: Config, st: InjectorState, event: F.FusedEvent, enabled: bool, now: real): Option<bool> {
    if Screen(cfg, event, enabled).Err? then None
    else Some(HeardIn(Kept(st.seen, cfg.window, now), cfg.window, event.key, event.lastSeen))
  }

  class Injector {
    const cfg: Config
    const memory: PlmMemory
    var considered: nat
    var injected: nat
    var wouldInject: nat
    var refused: map<Reason, nat>
    var lastPerDevice: map<Address, real>
    var recentInjections: seq<real>

    ghost function State(): InjectorState
      reads this, memory
    {
      InjectorState(Counters(considered, injected, wouldInject, refused), lastPerDevice, recentInjections, memory.seen)
    }

    constructor (cfg: Config, memory: PlmMemory)
      ensures this.cfg == cfg && this.memory == memory
      ensures State() == FRESH.(seen := memory.seen)
    {
      this.cfg, this.memory := cfg, memory;
      considered, injected, wouldInject, refused := 0, 0, 0, map[];
      lastPerDevice, recentInjections := map[], [];
    }

    method ForgetOld(now: real)
      requires memory.window == cfg.window
      modifies this`recentInjections, memory`seen
      ensures recentInjections == Recent(old(recentInjections), now) && memory.seen == Kept(old(memory.seen), cfg.window, now)
    {
      hide Kept;
      memory.ForgetOld(now);
      var kept: seq<real> := [];
      for i := 0 to |recentInjections|
        invariant kept == Recent(recentInjections[..i], now)
      {
        var t := recentInjections[i];
        assert recentInjections[..i + 1][..i] == recentInjections[..i];
        if now - t < MINUTE {
          kept := kept + [t];
        }
      }
      assert recentInjections[..|recentInjections|] == recentInjections;
      recentInjections := kept;
    }

    /** The checks on the event alone, in order. */
    method Refusal(event: F.FusedEvent, enabled: bool) returns (why: Result<Tier, Reason>)
      ensures why == Screen(cfg, event, enabled)
    {
      hide Classify;
      if !enabled {
        return Err(KillSwitch);
      }
      var pkt := event.packet;
      why := Classify(cfg, pkt);
      if why.Err? {
        return;
      }
      if why.value !in cfg.allow {
        return Err(TierOff(why.value));
      }
      if pkt.CrcOk() != Some(true) {
        return Err(BadCrc);
      }
      if pkt.indexOk == Some(false) {
        return Err(BadCounters);
      }
      if !pkt.HopsOk() {
        return Err(BadHops);
      }
      if pkt.Ext() && pkt.ExtCrcOk() == Some(false) {
        return Err(BadDataCrc);
      }
      if pkt.corrected != 0 {
        return Err(Repaired(pkt.corrected));
      }
      if event.combined && event.combinedFrom < cfg.minReceivers {
        return Err(TooFewReceivers(event.combinedFrom));
      }
    }

    method Limited(sender: Address, now: real) returns (why: Option<Reason>)
      ensures why == LimitOf(cfg, lastPerDevice, recentInjections, sender, now)
    {
      why := None;
      if sender in lastPerDevice && now - lastPerDevice[sender] < cfg.perDevice {
        why := Some(DeviceLimit);
      } else if |recentInjections| >= cfg.perMinute {
        why := Some(GlobalLimit);
      }
    }

    /** The chain of checks, and what it leaves in the event's `plm_saw_it`. */
    method Decide(event: F.FusedEvent, enabled: bool, now: real) returns (v: Verdict, plmSawIt: Option<bool>)
      requires memory.window == cfg.window
      ensures v == Judge(cfg, State(), event, enabled, now)
      ensures plmSawIt == if Screen(cfg, event, enabled).Err? then None
                          else Some(HeardIn(memory.seen, cfg.window, event.key, event.lastSeen))
    {
      hide Screen, ToPlm, HeardIn, SenderOf, LimitOf;
      plmSawIt := None;
      var tier := Refusal(event, enabled);
      if tier.Err? {
        return Refused(tier.error), None;
      }
      plmSawIt := Some(memory.Heard(event.key, event.lastSeen));
      if plmSawIt.value {
        return Refused(AlreadyHeard), plmSawIt;
      }
      var limit := Limited(SenderOf(event.packet).value, now);
      if limit.Some? {
        return Refused(limit.value), plmSawIt;
      }
      var frame := ToPlm(event.packet, true);
      if frame.Err? {
        return Refused(Unrenderable(frame.error)), plmSawIt;
      }
      v := if cfg.shadow then WouldInject(tier.value, frame.value) else Injected(tier.value, frame.value);
    }

    /** consider: decide, and count the outcome; an `Injected` verdict carries the frame handed to `publish`. */
    method Consider(event: F.FusedEvent, enabled: bool, now: real) returns (v: Verdict, plmSawIt: Option<bool>)
      requires memory.window == cfg.window
      modifies this, memory`seen
      ensures State() == ConsiderStep(cfg, old(State()), event, enabled, now)
      ensures v == VerdictOf(cfg, old(State()), event, enabled, now)
      ensures plmSawIt == PlmSawIt(cfg, old(State()), event, enabled, now)
    {
      hide Screen, Kept, Recent, HeardIn, SenderOf, CountOf, Judge;
      ForgetOld(now);
      v, plmSawIt := Decide(event, enabled, now);
      InjectedHasSender(cfg, State(), event, enabled, now);
      considered := considered + 1;
      match v {
        case Refused(reason) => refused := refused[reason := CountOf(refused, reason) + 1];
        case WouldInject(_, _) => wouldInject := wouldInject + 1;
        case Injected(_, _) =>
          lastPerDevice := lastPerDevice[SenderOf(event.packet).value := now];
          recentInjections := recentInjections + [now];
          injected := injected + 1;
      }
    }
  }

  /** Whoever is injected for has a name. */
  lemma InjectedHasSender(cfg: Config, st: InjectorState, event: F.FusedEvent, enabled: bool, now: real)
    ensures Judge(cfg, st, event, enabled, now).Injected? ==> SenderOf(event.packet).Some?
  {
    hide HeardIn, LimitOf, ToPlm, SenderOf;
  }
}
