/** The mesh service: events wait out a grace period for the modem's copy, then are settled once, in order. */
module Mesh {
  import opened Common
  import opened Inject
  import opened Misses
  import F = Fusion
  import FS = FusionService

  /** `needsLink`: the service must see a healthy modem link to inject, and has one to ask. */
  datatype MeshConfig = MeshConfig(fusion: F.Config, grace: real, injector: Option<Inject.Config>, window: real,
                                   needsLink: bool, misses: MissConfig)

  /** What the service asks its surroundings while it settles. */
  datatype Env = Env(enabled: bool, linkHealthy: bool)

  datatype Held = Held(deadline: real, event: F.FusedEvent)

  /** `saw` is what `plm_saw_it` ends up as. */
  datatype Settled = Settled(held: Held, at: real, saw: bool, injected: bool)

  datatype MeshState = MeshState(holding: seq<Held>, events: nat, misses: MissState, injector: InjectorState)

  predicate Asks(cfg: MeshConfig, env: Env) { cfg.injector.Some? && (cfg.needsLink ==> env.linkHealthy) }

  /** _finish, as seen from outside. */
  function Settling(cfg: MeshConfig, st: MeshState, h: Held, env: Env, now: real): Settled {
    var saw := HeardIn(st.injector.seen, cfg.window, h.event.key, h.event.lastSeen);
    if Asks(cfg, env) then
      var again := PlmSawIt(cfg.injector.value, st.injector, h.event, env.enabled, now);
      Settled(h, now, if again.Some? then again.value else saw,
              VerdictOf(cfg.injector.value, st.injector, h.event, env.enabled, now).Injected?)
    else Settled(h, now, saw, false)
  }

  /** _finish, as it leaves the tables. */
  function SettleStep(cfg: MeshConfig, st: MeshState, h: Held, env: Env, now: real): MeshState {
    var s := Settling(cfg, st, h, env, now);
    st.(injector := if Asks(cfg, env) then ConsiderStep(cfg.injector.value, st.injector, h.event, env.enabled, now) else st.injector,
        misses := NoteStep(cfg.misses, st.misses, Noted(h.event, Some(s.saw), s.injected)))
  }

  datatype Drained = Drained(st: MeshState, out: seq<Settled>)

  /** The queue from the front: up to the first deadline still to come, or, when `all`, to the end. */
  function SettleQueue(cfg: MeshConfig, st: MeshState, env: Env, now: real, all: bool): Drained
    decreases |st.holding|
  {
    if st.holding == [] || (!all && st.holding[0].deadline > now) then Drained(st, [])
    else
      var h, rest := st.holding[0], st.(holding := st.holding[1..]);
      var more := SettleQueue(cfg, SettleStep(cfg, rest, h, env, now), env, now, all);
      Drained(more.st, [Settling(cfg, rest, h, env, now)] + more.out)
  }

  function Hold(popped: seq<F.FusedEvent>, deadline: real): (r: seq<Held>)
    ensures |r| == |popped|
    ensures forall i :: 0 <= i < |r| ==> r[i] == Held(deadline, popped[i])
  {
    seq(|popped|, i requires 0 <= i < |popped| => Held(deadline, popped[i]))
  }

  function HoldStep(st: MeshState, popped: seq<F.FusedEvent>, deadline: real): MeshState {
    st.(events := st.events + |popped|, holding := st.holding + Hold(popped, deadline))
  }

  /** drain, given what fusion had ready. */
  function DrainStep(cfg: MeshConfig, st: MeshState, popped: seq<F.FusedEvent>, env: Env, now: real): Drained {
    SettleQueue(cfg, HoldStep(st, popped, now + cfg.grace), env, now, false)
  }

  /** The end of run: what fusion still held is due at once, and everything is settled. */
  function ShutdownStep(cfg: MeshConfig, st: MeshState, popped: seq<F.FusedEvent>, env: Env, now: real): Drained {
    SettleQueue(cfg, HoldStep(st, popped, now), env, now, true)
  }

  class MeshService {
    const cfg: MeshConfig
    const fusion: FS.Fusion
    const injector: Option<Injector>
    const memory: PlmMemory
    const misses: MissTable
    var holding: seq<Held>
    var events: nat

    ghost function Injectors(): set<Injector> { if injector.Some? then {injector.value} else {} }

    ghost function State(): MeshState
      reads this, memory, misses, Injectors()
    {
      MeshState(holding, events, misses.State(),
                if injector.Some? then InjectorOf(injector.value).(seen := memory.seen) else FRESH.(seen := memory.seen))
    }

    static ghost function InjectorOf(i: Injector): InjectorState
      reads i
    {
      InjectorState(Counters(i.considered, i.injected, i.wouldInject, i.refused), i.lastPerDevice, i.recentInjections, map[])
    }

    /** How the parts are wired; nothing here ever changes. */
    ghost predicate Wired() {
      memory.window == cfg.window && misses.cfg == cfg.misses && fusion.cfg == cfg.fusion &&
      (injector.Some? <==> cfg.injector.Some?) &&
      (injector.Some? ==> injector.value.cfg == cfg.injector.value && injector.value.cfg.window == cfg.window &&
                          injector.value.memory == memory)
    }

    constructor (cfg: MeshConfig, fusion: FS.Fusion, injector: Option<Injector>, memory: PlmMemory)
      requires memory.window == cfg.window && fusion.cfg == cfg.fusion
      requires (injector.Some? <==> cfg.injector.Some?) &&
               (injector.Some? ==> injector.value.cfg == cfg.injector.value && injector.value.cfg.window == cfg.window &&
                                   injector.value.memory == memory)
      ensures Wired() && this.cfg == cfg && this.fusion == fusion && this.injector == injector && this.memory == memory
      ensures holding == [] && events == 0 && fresh(misses) && misses.State() == NO_MISSES
    {
      this.cfg, this.fusion, this.injector, this.memory := cfg, fusion, injector, memory;
      misses := new MissTable(cfg.misses);
      holding, events := [], 0;
    }

    method Finish(h: Held, env: Env, now: real) returns (s: Settled)
      requires Wired()
      modifies memory, misses, Injectors()
      ensures s == Settling(cfg, old(State()), h, env, now)
      ensures State() == SettleStep(cfg, old(State()), h, env, now)
    {
      hide HeardIn, VerdictOf, ConsiderStep, NoteStep, PlmSawIt;
      var saw, injected := memory.Heard(h.event.key, h.event.lastSeen), false;
      if injector.Some? && (!cfg.needsLink || env.linkHealthy) {
        var v, again := injector.value.Consider(h.event, env.enabled, now);
        injected := v.Injected?;
        if again.Some? {
          saw := again.value;
        }
      }
      misses.Note(h.event, Some(saw), injected);
      s := Settled(h, now, saw, injected);
    }

    /** Settle from the front while the front one is due. */
    method SettleFront(env: Env, now: real) returns (out: seq<Settled>)
      requires Wired()
      modifies this`holding, memory, misses, Injectors()
      ensures var d := SettleQueue(cfg, old(State()), env, now, false);
              State() == d.st && out == d.out
    {
      hide Settling, SettleStep;
      out := [];
      while holding != [] && holding[0].deadline <= now
        invariant var d := SettleQueue(cfg, State(), env, now, false);
                  SettleQueue(cfg, old(State()), env, now, false) == Drained(d.st, out + d.out)
        decreases |holding|
      {
        var h := holding[0];
        holding := holding[1..];
        var s := Finish(h, env, now);
        out := out + [s];
      }
    }

    /** drain: only what fusion has finished is held, only what is due is settled. */
    method Drain(env: Env, now: real) returns (out: seq<Settled>)
      requires Wired() && fusion.Valid()
      modifies this`holding, this`events, memory, misses, Injectors(), fusion, fusion.Footprint()
      ensures fusion.Valid() && F.Sane(old(fusion.State()))
      ensures var em := F.PopStep(cfg.fusion, old(fusion.State()), now);
              var d := DrainStep(cfg, old(State()), F.Events(em.out), env, now);
              fusion.State() == em.st && State() == d.st && out == d.out
    {
      hide F.PopStep, F.Events, SettleQueue, F.Sane, FS.Fusion.Valid, FS.Fusion.State;
      var popped := fusion.PopReady(now);
      HoldEach(popped, now + cfg.grace);
      out := SettleFront(env, now);
    }

    method HoldEach(popped: seq<F.FusedEvent>, deadline: real)
      modifies this`holding, this`events
      ensures State() == HoldStep(old(State()), popped, deadline)
    {
      for i := 0 to |popped|
        invariant holding == old(holding) + Hold(popped[..i], deadline) && events == old(events) + i
      {
        events := events + 1;
        holding := holding + [Held(deadline, popped[i])];
      }
      assert popped[..|popped|] == popped;
    }

    /** The end of run: flush the fusion stage, hold what it gives with no grace, settle everything. */
    method Shutdown(env: Env, now: real) returns (out: seq<Settled>)
      requires Wired() && fusion.Valid()
      modifies this`holding, this`events, memory, misses, Injectors(), fusion, fusion.Footprint()
      ensures fusion.Valid() && F.Sane(old(fusion.State()))
      ensures var em := F.FlushStep(cfg.fusion, old(fusion.State()), now);
              var d := ShutdownStep(cfg, old(State()), F.Events(em.out), env, now);
              fusion.State() == em.st && State() == d.st && out == d.out
    {
      hide F.FlushStep, F.Events, SettleQueue, F.Sane, FS.Fusion.Valid, FS.Fusion.State;
      var popped := fusion.Flush(now);
      HoldEach(popped, now);
      out := Flush(env, now);
    }

    /** flush */
    method Flush(env: Env, now: real) returns (out: seq<Settled>)
      requires Wired()
      modifies this`holding, memory, misses, Injectors()
      ensures var d := SettleQueue(cfg, old(State()), env, now, true);
              State() == d.st && out == d.out
    {
      hide Settling, SettleStep;
      out := [];
      ghost var start := State();
      var held := holding;
      holding := [];
      for i := 0 to |held|
        invariant holding == []
        invariant var d := SettleQueue(cfg, State().(holding := held[i..]), env, now, true);
                  SettleQueue(cfg, start, env, now, true) == Drained(d.st, out + d.out)
      {
        QueueHead(cfg, State().(holding := held[i..]), env, now);
        assert held[i..][1..] == held[i + 1..];
        FinishIgnoresQueue(cfg, State(), held[i], held[i + 1..], env, now);
        var s := Finish(held[i], env, now);
        out := out + [s];
      }
    }
  }

  lemma QueueHead(cfg: MeshConfig, st: MeshState, env: Env, now: real)
    requires st.holding != []
    ensures var h, rest := st.holding[0], st.(holding := st.holding[1..]);
            var more := SettleQueue(cfg, SettleStep(cfg, rest, h, env, now), env, now, true);
            SettleQueue(cfg, st, env, now, true) == Drained(more.st, [Settling(cfg, rest, h, env, now)] + more.out)
  {
    hide Settling, SettleStep;
  }

  /** Settling one event neither reads nor changes the queue. */
  lemma FinishIgnoresQueue(cfg: MeshConfig, st: MeshState, h: Held, queue: seq<Held>, env: Env, now: real)
    ensures Settling(cfg, st.(holding := queue), h, env, now) == Settling(cfg, st, h, env, now)
    ensures SettleStep(cfg, st.(holding := queue), h, env, now) == SettleStep(cfg, st, h, env, now).(holding := queue)
  {
    hide HeardIn, VerdictOf, ConsiderStep, NoteStep, PlmSawIt;
  }
}
