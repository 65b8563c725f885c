/** What the injection decision guarantees, per event and over whole runs. */
module InjectProofs {
  import opened Common
  import opened Packets
  import opened Plm
  import opened Sums
  import opened Inject
  import F = Fusion

  // ------------------------------------------------------------------ one event

  /** What the bytes of an injectable event look like. */
  ghost predicate Trustworthy(cfg: Config, event: F.FusedEvent) {
    var pkt := event.packet;
    Sound(pkt) && pkt.corrected == 0 && (pkt.Ext() ==> SumsRight(pkt.data)) &&
    (event.combined ==> event.combinedFrom >= cfg.minReceivers)
  }

  /** Who may be spoken for: never a reply, never the modem, only this network's devices, in a tier that is on. */
  ghost predicate Admissible(cfg: Config, pkt: Packet) {
    !pkt.Ack() && SenderOf(pkt).Some? && cfg.plmAddr != SenderOf(pkt) &&
    (cfg.known.Some? ==> SenderOf(pkt).value in cfg.known.value) &&
    (if SenderOf(pkt).value in cfg.battery then Battery in cfg.allow
     else if pkt.GroupBroadcast() || pkt.MsgType() == 2 then Group in cfg.allow
     else pkt.MsgType() == 0 && DeviceState in cfg.allow)
  }

  lemma RepliesHaveAckBit(pkt: Packet)
    ensures IsReply(pkt) <==> pkt.Ack()
  {
    OddType(pkt.Flags());
  }

  lemma OddType(flags: byte)
    ensures (flags >> 5 == 1 || flags >> 5 == 3 || flags >> 5 == 5 || flags >> 5 == 7) <==> flags & 0x20 != 0
  {
  }

  lemma ScreenExact(cfg: Config, event: F.FusedEvent, enabled: bool)
    ensures Screen(cfg, event, enabled).Ok? <==> enabled && Admissible(cfg, event.packet) && Trustworthy(cfg, event)
  {
    hide IsReply, HasExt, PacketCrc, ExtCrc, HopsLegal, IsGroupBroadcast, SumsRight;
    RepliesHaveAckBit(event.packet);
    ExtCrcOkExactly(event.packet);
  }

  /** A screened packet can always be rendered: the last refusal is never the reason. */
  lemma AlwaysRenderable(cfg: Config, event: F.FusedEvent, enabled: bool)
    requires Screen(cfg, event, enabled).Ok?
    ensures ToPlm(event.packet, true).Ok?
  {
    ScreenExact(cfg, event, enabled);
    ToPlmAccepts(event.packet);
    hide Screen, ToPlm;
  }

  /**
   * A frame is published exactly when injection is on and not shadowed, the event may be spoken for and can be trusted,
   * the modem has not reported it, and neither rate limit is reached. Shadow mode changes nothing else.
   */
  lemma InjectsExactlyWhen(cfg: Config, st: InjectorState, event: F.FusedEvent, enabled: bool, now: real)
    ensures var v := VerdictOf(cfg, st, event, enabled, now);
            var wanted := enabled && Admissible(cfg, event.packet) && Trustworthy(cfg, event) &&
                          !HeardIn(Kept(st.seen, cfg.window, now), cfg.window, event.key, event.lastSeen) &&
                          !DeviceBusy(cfg, st.lastPerDevice, SenderOf(event.packet).value, now) &&
                          |Recent(st.recent, now)| < cfg.perMinute;
            (v.Injected? <==> wanted && !cfg.shadow) && (v.WouldInject? <==> wanted && cfg.shadow)
  {
    ScreenExact(cfg, event, enabled);
    if Screen(cfg, event, enabled).Ok? {
      AlwaysRenderable(cfg, event, enabled);
    }
    hide Screen, ToPlm, Kept, Recent, HeardIn, SenderOf, DeviceBusy, Admissible, Trustworthy;
  }

  // ------------------------------------------------------------------ why not

  /** The tier an admissible sender's message is of. */
  ghost predicate OfTier(cfg: Config, pkt: Packet, tier: Tier) {
    SenderOf(pkt).Some? &&
    match tier
    case Battery => SenderOf(pkt).value in cfg.battery
    case Group => SenderOf(pkt).value !in cfg.battery && (NumberFor(pkt.MsgType()) == 2 || NumberFor(pkt.MsgType()) >= 6)
    case DeviceState => SenderOf(pkt).value !in cfg.battery && NumberFor(pkt.MsgType()) == 0
  }

  /** What there is to say against an event, whatever else there is. */
  ghost predicate Objection(cfg: Config, event: F.FusedEvent, enabled: bool, r: Reason) {
    var pkt := event.packet;
    var sender, kind := SenderOf(pkt), NumberFor(pkt.MsgType());
    match r
    case KillSwitch => !enabled
    case Reply => kind % 2 == 1
    case NoSender => sender.None?
    case OwnTransmission => sender.Some? && cfg.plmAddr == sender
    case UnknownSender => sender.Some? && cfg.known.Some? && sender.value !in cfg.known.value
    case UnhandledType(t) => t == pkt.MsgType() && forall tier :: !OfTier(cfg, pkt, tier)
    case TierOff(tier) => OfTier(cfg, pkt, tier) && tier !in cfg.allow
    case BadCrc => !pkt.Verified()
    case BadCounters => pkt.indexOk == Some(false)
    case BadHops => NumberFor(pkt.HopsLeft()) > NumberFor(pkt.MaxHops())
    case BadDataCrc => pkt.Ext() && |pkt.data| > EXT_DATA_CRC_INDEX && !SumsRight(pkt.data)
    case Repaired(flips) => flips == pkt.corrected > 0
    case TooFewReceivers(from) => event.combined && from == event.combinedFrom < cfg.minReceivers
    case _ => false
  }

  /** The order the objections are raised in. */
  function Rank(r: Reason): nat {
    match r
    case KillSwitch => 0 case Reply => 1 case NoSender => 2 case OwnTransmission => 3 case UnknownSender => 4
    case UnhandledType(_) => 5 case TierOff(_) => 6 case BadCrc => 7 case BadCounters => 8 case BadHops => 9
    case BadDataCrc => 10 case Repaired(_) => 11 case TooFewReceivers(_) => 12 case _ => 13
  }

  lemma ClassifyExactly(cfg: Config, pkt: Packet)
    ensures var c, sender, kind := Classify(cfg, pkt), SenderOf(pkt), NumberFor(pkt.MsgType());
            c == if kind % 2 == 1 then Err(Reply) else if sender.None? then Err(NoSender)
                 else if cfg.plmAddr == sender then Err(OwnTransmission)
                 else if cfg.known.Some? && sender.value !in cfg.known.value then Err(UnknownSender)
                 else if sender.value in cfg.battery then Ok(Battery)
                 else if kind >= 6 || kind == 2 then Ok(Group)
                 else if kind == 0 then Ok(DeviceState)
                 else Err(UnhandledType(pkt.MsgType()))
  {
    FlagsLayout(pkt);
    RepliesHaveAckBit(pkt);
    KindNumbers(pkt.MsgType());
    hide IsReply, NumberFor, SenderOf, IsGroupBroadcast;
  }

  lemma KindNumbers(kind: byte)
    ensures (kind == 2 <==> NumberFor(kind) == 2) && (kind == 0 <==> NumberFor(kind) == 0)
  {
  }

  /** A message that classifies has that tier and no other, and nothing is to be said against who sent it; one that does not, has none. */
  lemma TierExactly(cfg: Config, event: F.FusedEvent)
    ensures var c := Classify(cfg, event.packet);
            (c.Ok? ==> (forall tier :: OfTier(cfg, event.packet, tier) <==> tier == c.value) &&
                       forall q :: 1 <= Rank(q) <= 5 ==> !Objection(cfg, event, true, q)) &&
            (c.Err? ==> 1 <= Rank(c.error) <= 5 && Objection(cfg, event, true, c.error) &&
                        forall q :: 1 <= Rank(q) < Rank(c.error) ==> !Objection(cfg, event, true, q))
  {
    hide Classify, NumberFor, SenderOf, SumsRight, HasExt, PacketCrc;
    ClassifyExactly(cfg, event.packet);
    var c := Classify(cfg, event.packet);
    if c.Ok? {
      assert OfTier(cfg, event.packet, c.value);
    } else if c.error.UnhandledType? {
      assert forall tier :: !OfTier(cfg, event.packet, tier);
    }
  }

  lemma LaterObjections(cfg: Config, event: F.FusedEvent, enabled: bool)
    ensures var c, r := Classify(cfg, event.packet), Screen(cfg, event, enabled);
            enabled && c.Ok? && c.value in cfg.allow ==>
              if r.Err? then Rank(r.error) >= 7 && Objection(cfg, event, enabled, r.error) &&
                             forall q :: 7 <= Rank(q) < Rank(r.error) ==> !Objection(cfg, event, enabled, q)
              else r == c && forall q :: Rank(q) >= 7 ==> !Objection(cfg, event, enabled, q)
  {
    hide Classify, NumberFor, SenderOf, SumsRight, HasExt, PacketCrc, HopsLegal, ExtCrc, OfTier;
    FlagsLayout(event.packet);
    ExtCrcOkExactly(event.packet);
  }

  /** An event is refused on sight for the first objection there is to it, and for none when there is none. */
  lemma FirstObjection(cfg: Config, event: F.FusedEvent, enabled: bool)
    ensures var r := Screen(cfg, event, enabled);
            if r.Ok? then OfTier(cfg, event.packet, r.value) && forall q :: !Objection(cfg, event, enabled, q)
            else Objection(cfg, event, enabled, r.error) && forall q :: Rank(q) < Rank(r.error) ==> !Objection(cfg, event, enabled, q)
  {
    var c, r := Classify(cfg, event.packet), Screen(cfg, event, enabled);
    ScreenStarts(cfg, event, enabled);
    hide Classify, Screen, OfTier, Objection;
    if enabled {
      TierExactly(cfg, event);
      LaterObjections(cfg, event, enabled);
      forall q | r.Ok? || Rank(q) < Rank(r.error) ensures !Objection(cfg, event, enabled, q) {
        ObjectionMeaning(cfg, event, enabled, q);
      }
      if r.Err? {
        ObjectionMeaning(cfg, event, enabled, r.error);
      }
    } else {
      ObjectionMeaning(cfg, event, enabled, KillSwitch);
    }
  }

  lemma ScreenStarts(cfg: Config, event: F.FusedEvent, enabled: bool)
    ensures var c, r := Classify(cfg, event.packet), Screen(cfg, event, enabled);
            (!enabled ==> r == Err(KillSwitch)) && (enabled && c.Err? ==> r == c) &&
            (enabled && c.Ok? && c.value !in cfg.allow ==> r == Err(TierOff(c.value)))
  {
    hide Classify;
  }

  lemma ObjectionMeaning(cfg: Config, event: F.FusedEvent, enabled: bool, q: Reason)
    ensures Rank(q) == 0 <==> q == KillSwitch
    ensures Objection(cfg, event, enabled, KillSwitch) <==> !enabled
    ensures q.TierOff? ==> (Objection(cfg, event, enabled, q) <==> OfTier(cfg, event.packet, q.tier) && q.tier !in cfg.allow)
    ensures Rank(q) == 6 <==> q.TierOff?
  {
    hide NumberFor, SenderOf, SumsRight, HasExt, PacketCrc, OfTier;
  }

  /** What else may stand in the way of an event that passes: the modem's own report, then its sender's limit, then the minute's. */
  lemma RefusedExactly(cfg: Config, st: InjectorState, event: F.FusedEvent, enabled: bool, now: real)
    ensures var v := VerdictOf(cfg, st, event, enabled, now);
            if Screen(cfg, event, enabled).Err? then v == Refused(Screen(cfg, event, enabled).error)
            else
              var heard := HeardIn(Kept(st.seen, cfg.window, now), cfg.window, event.key, event.lastSeen);
              var busy := DeviceBusy(cfg, st.lastPerDevice, SenderOf(event.packet).value, now);
              (v == Refused(AlreadyHeard) <==> heard) && (v == Refused(DeviceLimit) <==> !heard && busy) &&
              (v == Refused(GlobalLimit) <==> !heard && !busy && |Recent(st.recent, now)| >= cfg.perMinute) &&
              (v.Refused? <==> heard || busy || |Recent(st.recent, now)| >= cfg.perMinute)
  {
    if Screen(cfg, event, enabled).Ok? {
      AlwaysRenderable(cfg, event, enabled);
    }
    hide Screen, ToPlm, Kept, Recent, HeardIn, SenderOf, DeviceBusy;
  }

  /** What goes out is the modem's frame for this very message. */
  lemma FrameSpeaksForEvent(cfg: Config, st: InjectorState, event: F.FusedEvent, enabled: bool, now: real)
    requires VerdictOf(cfg, st, event, enabled, now).Injected?
    ensures var frame := VerdictOf(cfg, st, event, enabled, now).frame;
            FromPlm(frame).Ok? && MessageKey(FromPlm(frame).value) == MessageKey(event.packet) && FromPlm(frame).value.Verified()
  {
    InjectsExactlyWhen(cfg, st, event, enabled, now);
    FromInvertsTo(event.packet);
    hide Screen, ToPlm, FromPlm, Kept, Recent, HeardIn, LimitOf, MessageKey;
  }

  // ------------------------------------------------------------------ runs

  datatype Step = Note(raw: seq<byte>, at: real) | Consider(event: F.FusedEvent, enabled: bool, at: real)

  datatype Publication = Publication(at: real, sender: Address, event: F.FusedEvent, frame: seq<byte>)

  /** `heard` holds every message the modem ever reported, in order. */
  datatype Run = Run(st: InjectorState, log: seq<Publication>, verdicts: seq<Verdict>, heard: seq<(Wire, real)>)

  ghost predicate InOrder(steps: seq<Step>) {
    forall i, j :: 0 <= i < j < |steps| ==> steps[i].at <= steps[j].at
  }

  ghost function Do(cfg: Config, run: Run, step: Step): Run {
    match step
    case Note(raw, at) =>
      var pkt := FromPlm(raw);
      run.(st := run.st.(seen := NoteIn(run.st.seen, raw, at)),
           heard := run.heard + if pkt.Ok? then [(MessageKey(pkt.value), at)] else [])
    case Consider(event, enabled, at) =>
      var v := VerdictOf(cfg, run.st, event, enabled, at);
      run.(st := ConsiderStep(cfg, run.st, event, enabled, at), verdicts := run.verdicts + [v],
           log := run.log + if v.Injected? then [Publication(at, SenderOf(event.packet).value, event, v.frame)] else [])
  }

  ghost function Exec(cfg: Config, steps: seq<Step>): Run {
    if steps == [] then Run(FRESH, [], [], []) else Do(cfg, Exec(cfg, steps[..|steps| - 1]), steps[|steps| - 1])
  }

  /** The time of the last step, if there was one. */
  ghost predicate LastAt(steps: seq<Step>, now: real) { steps != [] ==> steps[|steps| - 1].at <= now }

  // ------------------------------------------------------------------ rate limits

  ghost predicate LogInOrder(log: seq<Publication>, now: real) {
    (forall i, j :: 0 <= i < j < |log| ==> log[i].at <= log[j].at) && forall i :: 0 <= i < |log| ==> log[i].at <= now
  }

  /** `recent` is the tail of the log, and what it leaves out is at least a minute old. */
  ghost predicate RecentIsTail(recent: seq<real>, log: seq<Publication>, now: real) {
    |recent| <= |log| &&
    (forall i :: 0 <= i < |recent| ==> recent[i] == log[|log| - |recent| + i].at) &&
    forall i :: 0 <= i < |log| - |recent| ==> now - log[i].at >= MINUTE
  }

  /** No more than the ceiling between any two injections less than a minute apart. */
  ghost predicate Spaced(cfg: Config, log: seq<Publication>) {
    forall i, j :: 0 <= i <= j < |log| && log[j].at - log[i].at < MINUTE ==> j - i + 1 <= cfg.perMinute
  }

  ghost predicate DevicesSpaced(cfg: Config, log: seq<Publication>) {
    forall i, j :: 0 <= i < j < |log| && log[i].sender == log[j].sender ==> log[j].at - log[i].at >= cfg.perDevice
  }

  /** The table holds each sender's latest injection. */
  ghost predicate LastIsLatest(last: map<Address, real>, log: seq<Publication>) {
    forall i :: 0 <= i < |log| ==> log[i].sender in last && log[i].at <= last[log[i].sender]
  }

  ghost predicate Limited(cfg: Config, run: Run, now: real) {
    LogInOrder(run.log, now) && RecentIsTail(run.st.recent, run.log, now) && Spaced(cfg, run.log) &&
    DevicesSpaced(cfg, run.log) && LastIsLatest(run.st.lastPerDevice, run.log)
  }

  lemma {:induction false} RecentKeepsTail(recent: seq<real>, log: seq<Publication>, was: real, now: real)
    requires was <= now && LogInOrder(log, was) && RecentIsTail(recent, log, was)
    ensures RecentIsTail(Recent(recent, now), log, now)
    ensures forall i :: 0 <= i < |log| && now - log[i].at < MINUTE ==> i >= |log| - |Recent(recent, now)|
  {
    RecentIsSuffix(recent, now);
    var k := |recent| - |Recent(recent, now)|;
    forall i | 0 <= i < |log| - |recent| + k ensures now - log[i].at >= MINUTE {
      if i >= |log| - |recent| {
        assert recent[i - (|log| - |recent|)] == log[i].at;
      }
    }
  }

  /** In ascending order, forgetting keeps a suffix. */
  lemma {:induction false} RecentIsSuffix(recent: seq<real>, now: real)
    requires forall i, j :: 0 <= i < j < |recent| ==> recent[i] <= recent[j]
    ensures |Recent(recent, now)| <= |recent| && Recent(recent, now) == recent[|recent| - |Recent(recent, now)|..]
    ensures forall i :: 0 <= i < |recent| - |Recent(recent, now)| ==> now - recent[i] >= MINUTE
  {
    hide Recent;
    if recent == [] {
      NoneRecent(now);
    } else {
      var n := |recent| - 1;
      if now - recent[n] >= MINUTE {
        assert forall i :: 0 <= i <= n ==> recent[i] <= recent[n];
        OldGone(recent, now);
      } else {
        RecentIsSuffix(recent[..n], now);
        LatestKept(recent, now);
        SuffixGrows(recent, n - |Recent(recent[..n], now)|);
      }
    }
  }

  lemma NoneRecent(now: real)
    ensures Recent([], now) == []
  {
  }

  lemma LatestKept(recent: seq<real>, now: real)
    requires recent != []
    ensures var n := |recent| - 1;
            Recent(recent, now) == if now - recent[n] < MINUTE then Recent(recent[..n], now) + [recent[n]] else Recent(recent[..n], now)
  {
    var n := |recent| - 1;
    assert Recent(recent[..n], now) + [] == Recent(recent[..n], now);
  }

  lemma SuffixGrows(xs: seq<real>, k: int)
    requires xs != [] && 0 <= k <= |xs| - 1
    ensures xs[..|xs| - 1][k..] + [xs[|xs| - 1]] == xs[k..]
  {
  }

  lemma {:induction false} OldGone(recent: seq<real>, now: real)
    requires forall i :: 0 <= i < |recent| ==> now - recent[i] >= MINUTE
    ensures Recent(recent, now) == []
  {
    if recent != [] {
      OldGone(recent[..|recent| - 1], now);
    }
  }

  lemma ConsiderLimited(cfg: Config, run: Run, event: F.FusedEvent, enabled: bool, was: real, now: real)
    requires was <= now && Limited(cfg, run, was)
    ensures Limited(cfg, Do(cfg, run, Consider(event, enabled, now)), now)
  {
    hide Screen, ToPlm, Kept, Recent, HeardIn, Admissible, Trustworthy, Judge, VerdictOf, SenderOf, Tallied,
         RecentIsTail, LogInOrder, Spaced, DevicesSpaced, LastIsLatest;
    RecentKeepsTail(run.st.recent, run.log, was, now);
    InjectsExactlyWhen(cfg, run.st, event, enabled, now);
    Later(run.log, was, now);
    var v := VerdictOf(cfg, run.st, event, enabled, now);
    if v.Injected? {
      PublishKeepsPace(cfg, run.log, Recent(run.st.recent, now), Publication(now, SenderOf(event.packet).value, event, v.frame), now);
      PublishKeepsDevices(cfg, run.log, run.st.lastPerDevice, Publication(now, SenderOf(event.packet).value, event, v.frame), now);
    } else {
      assert run.log + [] == run.log;
    }
  }

  lemma Later(log: seq<Publication>, was: real, now: real)
    requires was <= now && LogInOrder(log, was)
    ensures LogInOrder(log, now)
  {
  }

  lemma PublishKeepsPace(cfg: Config, log: seq<Publication>, recent: seq<real>, p: Publication, now: real)
    requires p.at == now && LogInOrder(log, now) && RecentIsTail(recent, log, now) && Spaced(cfg, log) && |recent| < cfg.perMinute
    ensures LogInOrder(log + [p], now) && RecentIsTail(recent + [now], log + [p], now) && Spaced(cfg, log + [p])
  {
  }

  lemma PublishKeepsDevices(cfg: Config, log: seq<Publication>, last: map<Address, real>, p: Publication, now: real)
    requires p.at == now && LogInOrder(log, now) && DevicesSpaced(cfg, log) && LastIsLatest(last, log)
    requires !DeviceBusy(cfg, last, p.sender, now)
    ensures DevicesSpaced(cfg, log + [p]) && LastIsLatest(last[p.sender := now], log + [p])
  {
  }

  /**
   * Over any run whose clock does not go back: within any span shorter than a minute at most the ceiling is published,
   * and two publications naming one sender are at least the per-device interval apart.
   */
  lemma {:induction false} RateLimits(cfg: Config, steps: seq<Step>, now: real)
    requires InOrder(steps) && LastAt(steps, now)
    ensures Limited(cfg, Exec(cfg, steps), now)
  {
    if steps != [] {
      var n := |steps| - 1;
      var was := steps[n].at;
      RateLimits(cfg, steps[..n], was);
      match steps[n] {
        case Note(_, _) =>
        case Consider(event, enabled, _) => ConsiderLimited(cfg, Exec(cfg, steps[..n]), event, enabled, was, was);
      }
      hide Do;
      LaterStillLimited(cfg, Exec(cfg, steps), was, now);
    }
  }

  lemma LaterStillLimited(cfg: Config, run: Run, was: real, now: real)
    requires was <= now && Limited(cfg, run, was)
    ensures Limited(cfg, run, now)
  {
  }

  // ------------------------------------------------------------------ the limits read off the log

  /** Something was published in this sender's name less than the per-device interval ago. */
  ghost predicate SpokenForLately(cfg: Config, log: seq<Publication>, sender: Address, now: real) {
    exists i :: 0 <= i < |log| && log[i].sender == sender && now - log[i].at < cfg.perDevice
  }

  /** Publications less than a minute ago. */
  ghost function InLastMinute(log: seq<Publication>, now: real): nat {
    if log == [] then 0
    else InLastMinute(log[..|log| - 1], now) + if now - log[|log| - 1].at < MINUTE then 1 else 0
  }

  /** Every time in the table is a publication's. */
  ghost predicate LastIsLogged(last: map<Address, real>, log: seq<Publication>) {
    forall sender :: sender in last ==> exists i :: 0 <= i < |log| && log[i].sender == sender && log[i].at == last[sender]
  }

  lemma PublishLogged(last: map<Address, real>, log: seq<Publication>, p: Publication)
    requires LastIsLogged(last, log)
    ensures LastIsLogged(last[p.sender := p.at], log + [p])
  {
    var more, after := log + [p], last[p.sender := p.at];
    forall sender | sender in after ensures exists i :: 0 <= i < |more| && more[i].sender == sender && more[i].at == after[sender] {
      if sender == p.sender {
        assert more[|log|] == p;
      } else {
        var i :| 0 <= i < |log| && log[i].sender == sender && log[i].at == last[sender];
        assert more[i] == log[i];
      }
    }
  }

  lemma {:induction false} TableIsLogged(cfg: Config, steps: seq<Step>)
    ensures LastIsLogged(Exec(cfg, steps).st.lastPerDevice, Exec(cfg, steps).log)
  {
    hide Screen, ToPlm, Kept, Recent, HeardIn, Judge, VerdictOf, SenderOf, Tallied, FromPlm, MessageKey, LastIsLogged;
    if steps == [] {
      NothingLogged();
    } else {
      var before := Exec(cfg, steps[..|steps| - 1]);
      TableIsLogged(cfg, steps[..|steps| - 1]);
      match steps[|steps| - 1] {
        case Note(raw, at) =>
        case Consider(event, enabled, at) =>
          var v := VerdictOf(cfg, before.st, event, enabled, at);
          if v.Injected? {
            PublishLogged(before.st.lastPerDevice, before.log, Publication(at, SenderOf(event.packet).value, event, v.frame));
          } else {
            assert before.log + [] == before.log;
          }
      }
    }
  }

  lemma NothingLogged()
    ensures LastIsLogged(map[], [])
  {
  }

  lemma {:induction false} TailCounts(log: seq<Publication>, now: real, n: nat)
    requires n <= |log| && (forall i :: 0 <= i < n ==> now - log[i].at >= MINUTE)
    requires forall i :: n <= i < |log| ==> now - log[i].at < MINUTE
    ensures InLastMinute(log, now) == |log| - n
  {
    if log != [] {
      TailCounts(log[..|log| - 1], now, if n == |log| then n - 1 else n);
    }
  }

  lemma {:induction false} RecentAreRecent(recent: seq<real>, now: real)
    ensures forall x :: x in Recent(recent, now) ==> now - x < MINUTE
  {
    hide Recent;
    if recent == [] {
      NoneRecent(now);
    } else {
      RecentAreRecent(recent[..|recent| - 1], now);
      LatestKept(recent, now);
    }
  }

  /**
   * The two rate limits, read off what was published: a sender is refused exactly when it was spoken for less than the
   * interval ago, and otherwise everyone is exactly when the last minute already holds the ceiling.
   */
  lemma LimitsAreTheLog(cfg: Config, steps: seq<Step>, sender: Address, now: real)
    requires InOrder(steps) && LastAt(steps, now)
    ensures var run := Exec(cfg, steps);
            LimitOf(cfg, run.st.lastPerDevice, Recent(run.st.recent, now), sender, now)
            == if SpokenForLately(cfg, run.log, sender, now) then Some(DeviceLimit)
               else if InLastMinute(run.log, now) >= cfg.perMinute then Some(GlobalLimit)
               else None
  {
    hide Exec, Recent, RecentIsTail, Spaced, LogInOrder, SpokenForLately, InLastMinute, DeviceBusy, InOrder, LastAt;
    var run := Exec(cfg, steps);
    RateLimits(cfg, steps, now);
    TableIsLogged(cfg, steps);
    BusyIsSpokenFor(cfg, run, sender, now);
    MinuteIsRecent(run.st.recent, run.log, now);
  }

  lemma BusyIsSpokenFor(cfg: Config, run: Run, sender: Address, now: real)
    requires Limited(cfg, run, now) && LastIsLogged(run.st.lastPerDevice, run.log)
    ensures DeviceBusy(cfg, run.st.lastPerDevice, sender, now) <==> SpokenForLately(cfg, run.log, sender, now)
  {
    hide RecentIsTail, Spaced;
  }

  lemma MinuteIsRecent(recent: seq<real>, log: seq<Publication>, now: real)
    requires LogInOrder(log, now) && RecentIsTail(recent, log, now)
    ensures InLastMinute(log, now) == |Recent(recent, now)|
  {
    hide Recent, InLastMinute;
    RecentKeepsTail(recent, log, now, now);
    RecentAreRecent(recent, now);
    var n := |log| - |Recent(recent, now)|;
    forall i | n <= i < |log| ensures now - log[i].at < MINUTE {
      assert Recent(recent, now)[i - n] == log[i].at;
      assert log[i].at in Recent(recent, now);
    }
    TailCounts(log, now, n);
  }

  /** Publications in the minute that starts at `from`. */
  ghost function Within(log: seq<Publication>, from: real): nat {
    if log == [] then 0
    else Within(log[..|log| - 1], from) + if from <= log[|log| - 1].at < from + MINUTE then 1 else 0
  }

  lemma {:induction false} WithinSpan(log: seq<Publication>, from: real) returns (i: nat, j: nat)
    requires Within(log, from) > 0
    ensures i <= j < |log| && from <= log[i].at < from + MINUTE && from <= log[j].at < from + MINUTE
    ensures Within(log, from) <= j - i + 1
  {
    var n := |log| - 1;
    if Within(log[..n], from) == 0 {
      i, j := n, n;
    } else {
      i, j := WithinSpan(log[..n], from);
      if from <= log[n].at < from + MINUTE {
        j := n;
      }
    }
  }

  /** The ceiling, counted: no minute of any run holds more publications than allowed. */
  lemma NoMinuteOverfull(cfg: Config, steps: seq<Step>, from: real)
    requires InOrder(steps)
    ensures Within(Exec(cfg, steps).log, from) <= Max(cfg.perMinute, 0)
  {
    var log := Exec(cfg, steps).log;
    if Within(log, from) > 0 {
      RateLimits(cfg, steps, if steps == [] then 0.0 else steps[|steps| - 1].at);
      var i, j := WithinSpan(log, from);
      assert log[j].at - log[i].at < MINUTE;
    }
  }

  // ------------------------------------------------------------------ accounting

  ghost function RefusedFor(verdicts: seq<Verdict>, r: Reason): nat {
    if verdicts == [] then 0
    else RefusedFor(verdicts[..|verdicts| - 1], r) + if verdicts[|verdicts| - 1] == Refused(r) then 1 else 0
  }

  /** Every refusal is filed once under its own reason, and every event is in exactly one of the three totals. */
  ghost predicate Accounted(cfg: Config, run: Run) {
    var c := run.st.counters;
    c.considered == |run.verdicts| == c.injected + c.wouldInject + MapSum(c.refused) && c.injected == |run.log| &&
    (forall r :: CountOf(c.refused, r) == RefusedFor(run.verdicts, r)) &&
    (if cfg.shadow then run.log == [] else c.wouldInject == 0)
  }

  lemma {:induction false} Accounting(cfg: Config, steps: seq<Step>)
    ensures Accounted(cfg, Exec(cfg, steps))
  {
    if steps == [] {
      assert MapSum<Reason>(map[]) == 0;
    } else {
      var before := Exec(cfg, steps[..|steps| - 1]);
      Accounting(cfg, steps[..|steps| - 1]);
      match steps[|steps| - 1] {
        case Note(raw, at) =>
        case Consider(event, enabled, at) => ConsiderAccounted(cfg, before, event, enabled, at);
      }
    }
  }

  lemma ConsiderAccounted(cfg: Config, run: Run, event: F.FusedEvent, enabled: bool, at: real)
    requires Accounted(cfg, run)
    ensures Accounted(cfg, Do(cfg, run, Consider(event, enabled, at)))
  {
    hide Screen, ToPlm, Kept, Recent, HeardIn, Judge, Admissible, Trustworthy, MapSum, VerdictOf, SenderOf;
    InjectsExactlyWhen(cfg, run.st, event, enabled, at);
    var v := VerdictOf(cfg, run.st, event, enabled, at);
    forall r ensures RefusedFor(run.verdicts + [v], r) == RefusedFor(run.verdicts, r) + if v == Refused(r) then 1 else 0 {
      assert (run.verdicts + [v])[..|run.verdicts|] == run.verdicts;
    }
    hide RefusedFor;
    if v.Refused? {
      MapSumUpdate(run.st.counters.refused, v.reason, CountOf(run.st.counters.refused, v.reason) + 1);
    }
  }

  /** Every frame ever published is the frame of a sound, unrepaired, admissible packet, and reads back as its message. */
  lemma {:induction false} PublishedIsSound(cfg: Config, steps: seq<Step>, i: nat)
    requires i < |Exec(cfg, steps).log|
    ensures var p := Exec(cfg, steps).log[i];
            Admissible(cfg, p.event.packet) && Trustworthy(cfg, p.event) && SenderOf(p.event.packet) == Some(p.sender) &&
            FromPlm(p.frame).Ok? && MessageKey(FromPlm(p.frame).value) == MessageKey(p.event.packet)
  {
    var before := Exec(cfg, steps[..|steps| - 1]);
    if i < |before.log| {
      PublishedIsSound(cfg, steps[..|steps| - 1], i);
    } else {
      var step := steps[|steps| - 1];
      InjectsExactlyWhen(cfg, before.st, step.event, step.enabled, step.at);
      FrameSpeaksForEvent(cfg, before.st, step.event, step.enabled, step.at);
    }
    hide FromPlm, MessageKey, Admissible, Trustworthy, VerdictOf, SenderOf, ConsiderStep;
  }

  // ------------------------------------------------------------------ in whose name

  /** The sender's address as a modem frame shows it. */
  ghost predicate NamesSender(frame: seq<byte>, sender: Address) {
    |frame| >= 5 && frame[2] == sender.hi && frame[3] == sender.mid && frame[4] == sender.lo
  }

  /**
   * Every frame ever published names, in its sender bytes, the very device whose limits it was counted under: the one in
   * the packet's own sender slot, which is never the modem. The rest of it is the packet's target, flags, commands and data.
   */
  lemma PublishedFrame(cfg: Config, steps: seq<Step>, i: nat)
    requires i < |Exec(cfg, steps).log|
    ensures var p := Exec(cfg, steps).log[i];
            var data, f := p.event.packet.data, p.frame;
            var s, t := SenderPlace(data), 5 - SenderPlace(data);
            |data| > CrcIndex(data) && p.sender == Address(data[s + 2], data[s + 1], data[s]) &&
            NamesSender(f, p.sender) && cfg.plmAddr != Some(p.sender) &&
            |f| == (if Extended(data) then 25 else 11) && f[0] == 0x02 && f[1] == (if Extended(data) then 0x51 else 0x50) &&
            f[5] == data[t + 2] && f[6] == data[t + 1] && f[7] == data[t] && f[8] == data[0] && f[9] == data[7] && f[10] == data[8] &&
            (Extended(data) ==> f[11..] == data[9..23])
  {
    hide Exec, Admissible, Trustworthy, FromPlm, MessageKey, SenderPlace, SenderOf, FrameFor;
    PublishedIsSound(cfg, steps, i);
    PublishedRendered(cfg, steps, i);
    var data := Exec(cfg, steps).log[i].event.packet.data;
    SenderFromBytes(Exec(cfg, steps).log[i].event.packet);
    AdmissibleSender(cfg, Exec(cfg, steps).log[i].event.packet);
    FrameLayout(data);
  }

  lemma AdmissibleSender(cfg: Config, pkt: Packet)
    requires Admissible(cfg, pkt)
    ensures SenderOf(pkt).Some? && cfg.plmAddr != SenderOf(pkt)
  {
    hide SenderOf;
  }

  lemma {:induction false} PublishedRendered(cfg: Config, steps: seq<Step>, i: nat)
    requires i < |Exec(cfg, steps).log|
    ensures var p := Exec(cfg, steps).log[i];
            |p.event.packet.data| > CrcIndex(p.event.packet.data) && p.frame == FrameFor(p.event.packet.data)
  {
    hide ConsiderStep, FrameFor, Screen, HeardIn, LimitOf, SenderOf;
    var before := Exec(cfg, steps[..|steps| - 1]);
    if i < |before.log| {
      PublishedRendered(cfg, steps[..|steps| - 1], i);
    }
  }

  /** Two frames that name the same sender go out at least the per-device interval apart. */
  lemma SendersPaced(cfg: Config, steps: seq<Step>, i: nat, j: nat)
    requires InOrder(steps) && i < j < |Exec(cfg, steps).log|
    ensures var p, q := Exec(cfg, steps).log[i], Exec(cfg, steps).log[j];
            |p.frame| >= 5 && |q.frame| >= 5 && (p.frame[2..5] == q.frame[2..5] ==> q.at - p.at >= cfg.perDevice)
  {
    hide Exec, SenderPlace, CrcIndex;
    PublishedFrame(cfg, steps, i);
    PublishedFrame(cfg, steps, j);
    var p, q := Exec(cfg, steps).log[i], Exec(cfg, steps).log[j];
    RateLimits(cfg, steps, if steps == [] then 0.0 else steps[|steps| - 1].at);
    if p.frame[2..5] == q.frame[2..5] {
      assert forall k :: 0 <= k < 3 ==> p.frame[2..5][k] == p.frame[2 + k] && q.frame[2..5][k] == q.frame[2 + k];
      assert p.frame[2..5][0] == p.frame[2] && p.frame[2..5][1] == p.frame[3] && p.frame[2..5][2] == p.frame[4];
      assert q.frame[2..5][0] == q.frame[2] && q.frame[2..5][1] == q.frame[3] && q.frame[2..5][2] == q.frame[4];
      assert p.sender == q.sender;
    }
  }

  // ------------------------------------------------------------------ suppression

  /** When the modem last reported this message, over the whole run. */
  ghost function LatestReport(heard: seq<(Wire, real)>, key: Wire): Option<real> {
    if heard == [] then None
    else if heard[|heard| - 1].0 == key then Some(heard[|heard| - 1].1)
    else LatestReport(heard[..|heard| - 1], key)
  }

  /** The memory holds each message's latest report, or that report is too old to keep. */
  ghost predicate Remembers(cfg: Config, run: Run, now: real) {
    forall key :: match LatestReport(run.heard, key)
      case None => key !in run.st.seen
      case Some(at) => at <= now && (if key in run.st.seen then run.st.seen[key] == at else now - at > KeptFor(cfg.window))
  }

  lemma {:induction false} MemoryIsHistory(cfg: Config, steps: seq<Step>, now: real)
    requires InOrder(steps) && LastAt(steps, now)
    ensures Remembers(cfg, Exec(cfg, steps), now)
  {
    if steps != [] {
      var n := |steps| - 1;
      MemoryIsHistory(cfg, steps[..n], steps[n].at);
      match steps[n] {
        case Note(raw, at) => NoteRemembers(cfg, Exec(cfg, steps[..n]), raw, at);
        case Consider(event, enabled, at) => ConsiderRemembers(cfg, Exec(cfg, steps[..n]), event, enabled, at);
      }
    }
    hide Do;
  }

  lemma NoteRemembers(cfg: Config, run: Run, raw: seq<byte>, at: real)
    requires Remembers(cfg, run, at)
    ensures Remembers(cfg, Do(cfg, run, Note(raw, at)), at)
  {
    hide FromPlm, MessageKey;
    var pkt := FromPlm(raw);
    if pkt.Ok? {
      var key := MessageKey(pkt.value);
      forall k ensures LatestReport(run.heard + [(key, at)], k) == if k == key then Some(at) else LatestReport(run.heard, k) {
        assert (run.heard + [(key, at)])[..|run.heard|] == run.heard;
      }
    } else {
      assert run.heard + [] == run.heard;
    }
  }

  lemma ConsiderRemembers(cfg: Config, run: Run, event: F.FusedEvent, enabled: bool, at: real)
    requires Remembers(cfg, run, at)
    ensures Remembers(cfg, Do(cfg, run, Consider(event, enabled, at)), at)
  {
    hide LatestReport, Screen, VerdictOf, Recent;
  }

  /**
   * Suppression consults the whole history: an event is found heard exactly when the modem's latest report of it is
   * within the window and not older, at the decision, than the memory keeps.
   */
  lemma SuppressionIsExact(cfg: Config, steps: seq<Step>, key: Wire, lastSeen: real, now: real)
    requires InOrder(steps) && LastAt(steps, now)
    ensures var run := Exec(cfg, steps);
            var report := LatestReport(run.heard, key);
            HeardIn(Kept(run.st.seen, cfg.window, now), cfg.window, key, lastSeen) <==>
            report.Some? && -cfg.window <= lastSeen - report.value <= cfg.window &&
            (now - report.value <= cfg.window || now - report.value <= 10.0)
  {
    MemoryIsHistory(cfg, steps, now);
    hide LatestReport, Exec;
  }

  /** For an event decided soon enough, the age of the report never matters. */
  lemma PromptEventsSuppressed(cfg: Config, steps: seq<Step>, key: Wire, lastSeen: real, now: real)
    requires InOrder(steps) && LastAt(steps, now)
    requires now <= lastSeen || now - lastSeen <= 10.0 - cfg.window
    ensures var run := Exec(cfg, steps);
            var report := LatestReport(run.heard, key);
            HeardIn(Kept(run.st.seen, cfg.window, now), cfg.window, key, lastSeen) <==>
            report.Some? && -cfg.window <= lastSeen - report.value <= cfg.window
  {
    SuppressionIsExact(cfg, steps, key, lastSeen, now);
    hide LatestReport, Exec, HeardIn, Kept;
  }

  /** After a decision `plm_saw_it` says just that, for an event that passed the checks on itself; for any other it says nothing. */
  lemma SawItExactly(cfg: Config, steps: seq<Step>, event: F.FusedEvent, enabled: bool, now: real)
    requires InOrder(steps) && LastAt(steps, now)
    ensures var run := Exec(cfg, steps);
            var saw, report := PlmSawIt(cfg, run.st, event, enabled, now), LatestReport(run.heard, event.key);
            (saw.Some? <==> enabled && Admissible(cfg, event.packet) && Trustworthy(cfg, event)) &&
            (saw.Some? ==> (saw.value <==>
               report.Some? && -cfg.window <= event.lastSeen - report.value <= cfg.window &&
               (now - report.value <= cfg.window || now - report.value <= 10.0)))
  {
    hide Exec, LatestReport, HeardIn, Kept, Screen, Admissible, Trustworthy, InOrder;
    ScreenExact(cfg, event, enabled);
    SuppressionIsExact(cfg, steps, event.key, event.lastSeen, now);
  }

  /** Past that age a report can be forgotten first, and the event is then taken for one the modem missed. */
  lemma OldReportForgotten(key: Wire)
    ensures !HeardIn(Kept(map[key := 0.0], 2.0, 10.5), 2.0, key, 0.5)
    ensures HeardIn(map[key := 0.0], 2.0, key, 0.5)
  {
  }
}
