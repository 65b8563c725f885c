/** Whole runs of the mesh service: fusion, the hold queue, the injector and the miss table together. */
module MeshProofs {
  import opened Common
  import opened Packets
  import opened Plm
  import opened Sorting
  import opened Sums
  import opened Combine
  import opened Inject
  import opened Misses
  import opened Mesh
  import IP = InjectProofs
  import F = Fusion
  import FP = FusionProofs
  import FR = FusionRuns

  datatype Op =
    | Capture(s: Sighting)
    | PlmFrame(raw: seq<byte>, now: real)
    | Drain(env: Env, now: real)
    | Shutdown(env: Env, now: real)

  /**
   * The service, with everything that went through it: the calls made on fusion and on the injector, the events fusion
   * handed over, and the events settled, each in order.
   */
  datatype Run = Run(st: MeshState, calls: seq<FR.Op>, steps: seq<IP.Step>, popped: seq<F.FusedEvent>, settled: seq<Settled>)

  ghost function FusionOf(cfg: MeshConfig, run: Run): FR.Run { FR.Exec(cfg.fusion, run.calls) }

  /** The questions put to the injector while these were settled. */
  ghost function StepsOf(cfg: MeshConfig, out: seq<Settled>, env: Env): seq<IP.Step> {
    if !Asks(cfg, env) then []
    else seq(|out|, i requires 0 <= i < |out| => IP.Consider(out[i].held.event, env.enabled, out[i].at))
  }

  /** A call that takes finished events from fusion and settles. */
  predicate Collects(op: Op) { op.Drain? || op.Shutdown? }

  function CallOf(op: Op): FR.Op
    requires Collects(op)
  {
    if op.Drain? then FR.Pop(op.now) else FR.Flush(op.now)
  }

  /** What fusion hands over. */
  ghost function PoppedBy(cfg: MeshConfig, run: Run, op: Op): seq<F.FusedEvent>
    requires Collects(op)
  {
    var st := FusionOf(cfg, run).st;
    FP.InvSane(st);
    F.Events(if op.Drain? then F.PopStep(cfg.fusion, st, op.now).out else F.FlushStep(cfg.fusion, st, op.now).out)
  }

  function DeadlineOf(cfg: MeshConfig, op: Op): real
    requires Collects(op)
  {
    if op.Drain? then op.now + cfg.grace else op.now
  }

  /** The queue to settle from. */
  ghost function QueueOf(cfg: MeshConfig, run: Run, op: Op): MeshState
    requires Collects(op)
  {
    HoldStep(run.st, PoppedBy(cfg, run, op), DeadlineOf(cfg, op))
  }

  /** drain, or the end of run. */
  ghost function DrainedBy(cfg: MeshConfig, run: Run, op: Op): Drained
    requires Collects(op)
  {
    if op.Drain? then DrainStep(cfg, run.st, PoppedBy(cfg, run, op), op.env, op.now)
    else ShutdownStep(cfg, run.st, PoppedBy(cfg, run, op), op.env, op.now)
  }

  ghost function Do(cfg: MeshConfig, run: Run, op: Op): Run {
    match op
    case Capture(s) => run.(calls := run.calls + [FR.Add(s)])
    case PlmFrame(raw, now) =>
      run.(st := run.st.(injector := run.st.injector.(seen := NoteIn(run.st.injector.seen, raw, now))),
           steps := run.steps + [IP.Note(raw, now)])
    case _ =>
      var d := DrainedBy(cfg, run, op);
      Run(d.st, run.calls + [CallOf(op)], run.steps + StepsOf(cfg, d.out, op.env), run.popped + PoppedBy(cfg, run, op),
          run.settled + d.out)
  }

  ghost function Exec(cfg: MeshConfig, ops: seq<Op>): Run {
    if ops == [] then Run(MeshState([], 0, NO_MISSES, FRESH), [], [], [], [])
    else Do(cfg, Exec(cfg, ops[..|ops| - 1]), ops[|ops| - 1])
  }

  lemma ExecStep(cfg: MeshConfig, ops: seq<Op>, op: Op)
    ensures Exec(cfg, ops + [op]) == Do(cfg, Exec(cfg, ops), op)
  {
    hide Do;
    assert (ops + [op])[..|ops|] == ops;
  }

  // ------------------------------------------------------------------ settled once, in order

  ghost function SettledEvents(out: seq<Settled>): (r: seq<F.FusedEvent>)
    ensures |r| == |out|
  {
    seq(|out|, i requires 0 <= i < |out| => out[i].held.event)
  }

  ghost function HeldEvents(holding: seq<Held>): (r: seq<F.FusedEvent>)
    ensures |r| == |holding|
  {
    seq(|holding|, i requires 0 <= i < |holding| => holding[i].event)
  }

  /** Everything popped has been settled, in order, but for what is still held, in order. */
  ghost predicate Settles(run: Run) {
    run.popped == SettledEvents(run.settled) + HeldEvents(run.st.holding) && run.st.events == |run.popped|
  }

  /** What settling a queue takes from it is exactly what comes out, from the front. */
  lemma {:induction false} QueueSettles(cfg: MeshConfig, st: MeshState, env: Env, now: real, all: bool)
    ensures var d := SettleQueue(cfg, st, env, now, all);
            |d.out| <= |st.holding| && d.st.holding == st.holding[|d.out|..] && d.st.events == st.events &&
            forall i :: 0 <= i < |d.out| ==> d.out[i].held == st.holding[i] && d.out[i].at == now &&
                                             (all || d.out[i].held.deadline <= now)
    ensures var d := SettleQueue(cfg, st, env, now, all);
            d.st.holding != [] ==> !all && d.st.holding[0].deadline > now
    decreases |st.holding|
  {
    if st.holding != [] && (all || st.holding[0].deadline <= now) {
      var rest := st.(holding := st.holding[1..]);
      QueueSettles(cfg, SettleStep(cfg, rest, st.holding[0], env, now), env, now, all);
    }
    hide Mesh.Settling, SettleStep;
  }

  lemma StepSettles(cfg: MeshConfig, run: Run, op: Op)
    requires Settles(run)
    ensures Settles(Do(cfg, run, op))
  {
    hide SettleQueue, StepsOf, PoppedBy, NoteIn;
    if Collects(op) {
      var d := DrainedBy(cfg, run, op);
      QueueSettles(cfg, QueueOf(cfg, run, op), op.env, op.now, op.Shutdown?);
      TakenFromFront(run, PoppedBy(cfg, run, op), DeadlineOf(cfg, op), d.out);
    }
  }

  lemma TakenFromFront(run: Run, popped: seq<F.FusedEvent>, deadline: real, out: seq<Settled>)
    requires Settles(run)
    requires var queue := run.st.holding + Hold(popped, deadline);
             |out| <= |queue| && forall i :: 0 <= i < |out| ==> out[i].held == queue[i]
    ensures var queue := run.st.holding + Hold(popped, deadline);
            run.popped + popped == SettledEvents(run.settled + out) + HeldEvents(queue[|out|..])
  {
    var queue := run.st.holding + Hold(popped, deadline);
    HeldConcat(run.st.holding, popped, deadline);
    SettledConcat(run.settled, out);
    FrontTaken(queue, out);
    hide HeldEvents, SettledEvents, Hold;
    assert SettledEvents(run.settled) + (SettledEvents(out) + HeldEvents(queue[|out|..]))
        == SettledEvents(run.settled) + SettledEvents(out) + HeldEvents(queue[|out|..]);
  }

  lemma HeldConcat(holding: seq<Held>, popped: seq<F.FusedEvent>, deadline: real)
    ensures HeldEvents(holding + Hold(popped, deadline)) == HeldEvents(holding) + popped
  {
  }

  lemma SettledConcat(a: seq<Settled>, b: seq<Settled>)
    ensures SettledEvents(a + b) == SettledEvents(a) + SettledEvents(b)
  {
  }

  lemma FrontTaken(queue: seq<Held>, out: seq<Settled>)
    requires |out| <= |queue| && forall i :: 0 <= i < |out| ==> out[i].held == queue[i]
    ensures HeldEvents(queue) == SettledEvents(out) + HeldEvents(queue[|out|..])
  {
    var rest := queue[|out|..];
    forall i | 0 <= i < |queue| ensures HeldEvents(queue)[i] == (SettledEvents(out) + HeldEvents(rest))[i] {
      if i >= |out| {
        assert rest[i - |out|] == queue[i];
      }
    }
  }

  /** Every event fusion hands over is settled exactly once, in the order handed over, and counted. */
  lemma {:induction false} SettledExactlyOnce(cfg: MeshConfig, ops: seq<Op>)
    ensures Settles(Exec(cfg, ops))
  {
    hide Do, Settles;
    if ops == [] {
      NothingYet(cfg);
    } else {
      SettledExactlyOnce(cfg, ops[..|ops| - 1]);
      StepSettles(cfg, Exec(cfg, ops[..|ops| - 1]), ops[|ops| - 1]);
    }
  }

  lemma NothingYet(cfg: MeshConfig)
    ensures Settles(Exec(cfg, []))
  {
  }

  // ------------------------------------------------------------------ the grace period

  ghost predicate ClockOf(op: Op, now: real) { op.Capture? || op.now <= now }

  /** The clock never goes back between calls that read it, and has not passed `now`. */
  ghost predicate InOrder(ops: seq<Op>, now: real) {
    (forall i, j :: 0 <= i < j < |ops| && !ops[j].Capture? ==> ClockOf(ops[i], ops[j].now)) &&
    forall i :: 0 <= i < |ops| ==> ClockOf(ops[i], now)
  }

  /** The queue is in deadline order and nothing in it waits longer than the grace period. */
  ghost predicate Queued(cfg: MeshConfig, st: MeshState, now: real) {
    (forall i, j :: 0 <= i < j < |st.holding| ==> st.holding[i].deadline <= st.holding[j].deadline) &&
    forall i :: 0 <= i < |st.holding| ==> st.holding[i].deadline <= now + cfg.grace
  }

  lemma StepQueued(cfg: MeshConfig, run: Run, op: Op)
    requires !op.Capture? && Queued(cfg, run.st, op.now)
    ensures Queued(cfg, Do(cfg, run, op).st, op.now)
    ensures op.Drain? ==> forall i :: 0 <= i < |Do(cfg, run, op).st.holding| ==> Do(cfg, run, op).st.holding[i].deadline > op.now
    ensures op.Shutdown? ==> Do(cfg, run, op).st.holding == []
  {
    hide SettleQueue, StepsOf, PoppedBy, NoteIn;
    if Collects(op) {
      var st, d := QueueOf(cfg, run, op), DrainedBy(cfg, run, op);
      QueueSettles(cfg, st, op.env, op.now, op.Shutdown?);
      assert op.Drain? ==> Queued(cfg, st, op.now);
      assert forall i :: 0 <= i < |d.st.holding| ==> d.st.holding[i] == st.holding[i + |d.out|];
    }
  }

  lemma {:induction false} QueueInOrder(cfg: MeshConfig, ops: seq<Op>, now: real)
    requires InOrder(ops, now)
    ensures Queued(cfg, Exec(cfg, ops).st, now)
  {
    hide Do;
    if ops != [] {
      var op, front := ops[|ops| - 1], ops[..|ops| - 1];
      QueueInOrder(cfg, front, if op.Capture? then now else op.now);
      if op.Capture? {
        CaptureOnly(cfg, Exec(cfg, front), op);
      } else {
        StepQueued(cfg, Exec(cfg, front), op);
      }
    }
  }

  /** A capture touches fusion alone. */
  lemma CaptureOnly(cfg: MeshConfig, run: Run, op: Op)
    requires op.Capture?
    ensures Do(cfg, run, op).st == run.st && Do(cfg, run, op).steps == run.steps
  {
  }

  /**
   * The grace period, both ways: a drain settles nothing before its deadline, and, with a clock that does not go back,
   * leaves nothing held whose deadline has come.
   */
  lemma GraceKept(cfg: MeshConfig, ops: seq<Op>, env: Env, now: real)
    requires InOrder(ops, now)
    ensures var before, after := Exec(cfg, ops), Exec(cfg, ops + [Drain(env, now)]);
            |before.settled| <= |after.settled| &&
            (forall i :: |before.settled| <= i < |after.settled| ==>
               after.settled[i].held.deadline <= now && after.settled[i].at == now) &&
            forall i :: 0 <= i < |after.st.holding| ==> now < after.st.holding[i].deadline <= now + cfg.grace
  {
    hide Exec, Do, SettleQueue;
    var run := Exec(cfg, ops);
    ExecStep(cfg, ops, Drain(env, now));
    QueueInOrder(cfg, ops, now);
    StepQueued(cfg, run, Drain(env, now));
    SettlesInTime(cfg, run, Drain(env, now));
  }

  lemma SettlesInTime(cfg: MeshConfig, run: Run, op: Op)
    requires op.Drain?
    ensures var after := Do(cfg, run, op);
            |run.settled| <= |after.settled| &&
            forall i :: |run.settled| <= i < |after.settled| ==>
              after.settled[i].held.deadline <= op.now && after.settled[i].at == op.now
  {
    hide SettleQueue, StepsOf, PoppedBy;
    QueueSettles(cfg, QueueOf(cfg, run, op), op.env, op.now, false);
  }

  /** After a shutdown nothing is held: every event ever handed over has been settled. */
  lemma ShutdownSettlesAll(cfg: MeshConfig, ops: seq<Op>, env: Env, now: real)
    ensures var run := Exec(cfg, ops + [Shutdown(env, now)]);
            run.st.holding == [] && SettledEvents(run.settled) == run.popped
  {
    hide Exec, Do;
    var all := ops + [Shutdown(env, now)];
    ExecStep(cfg, ops, Shutdown(env, now));
    SettledExactlyOnce(cfg, all);
    NothingHeld(cfg, Exec(cfg, ops), Shutdown(env, now));
    assert HeldEvents([]) == [];
  }

  lemma NothingHeld(cfg: MeshConfig, run: Run, op: Op)
    requires op.Shutdown?
    ensures Do(cfg, run, op).st.holding == []
  {
    hide SettleQueue, StepsOf, PoppedBy;
    QueueSettles(cfg, QueueOf(cfg, run, op), op.env, op.now, true);
  }

  // ------------------------------------------------------------------ one event settled

  /** The injector is asked: there is one, and the modem's mirror is alive or not required to be. */
  ghost predicate Asked(cfg: MeshConfig, env: Env) {
    cfg.injector.Some? && !(cfg.needsLink && !env.linkHealthy)
  }

  /** The modem's last report of the message that is still remembered is within the window of its last copy. */
  ghost predicate ReportedAround(st: MeshState, key: Wire, lastSeen: real, window: real) {
    key in st.injector.seen && -window <= lastSeen - st.injector.seen[key] <= window
  }

  /**
   * What settling an event finds: it is injected exactly when the injector is asked and says so; the modem saw it exactly
   * when its report is near enough, and also recent enough to survive the sweep if the injector swept the memory first and
   * then looked. The injector is not touched unless it is asked, and counts the event if it is.
   */
  lemma SettlingExactly(cfg: MeshConfig, st: MeshState, h: Held, env: Env, now: real)
    requires cfg.injector.Some? ==> cfg.injector.value.window == cfg.window
    ensures var s, after, asked := Mesh.Settling(cfg, st, h, env, now), SettleStep(cfg, st, h, env, now).injector, Asked(cfg, env);
            var near := ReportedAround(st, h.event.key, h.event.lastSeen, cfg.window);
            s.held == h && s.at == now &&
            (s.injected <==> asked && VerdictOf(cfg.injector.value, st.injector, h.event, env.enabled, now).Injected?) &&
            (s.saw <==> near && (asked && Screen(cfg.injector.value, h.event, env.enabled).Ok? ==>
                                   now - st.injector.seen[h.event.key] <= cfg.window || now - st.injector.seen[h.event.key] <= 10.0)) &&
            (if asked then after.counters.considered == st.injector.counters.considered + 1 else after == st.injector)
  {
    hide Screen, Judge, Recent, NoteStep;
  }

  // ------------------------------------------------------------------ the injector inside the service

  /** One event settled is at most one question to the injector. */
  lemma SettleConsiders(cfg: MeshConfig, st: MeshState, h: Held, env: Env, now: real, steps: seq<IP.Step>)
    requires cfg.injector.Some? && st.injector == IP.Exec(cfg.injector.value, steps).st
    ensures SettleStep(cfg, st, h, env, now).injector
         == IP.Exec(cfg.injector.value, steps + StepsOf(cfg, [Mesh.Settling(cfg, st, h, env, now)], env)).st
  {
    hide NoteStep, ConsiderStep, VerdictOf, PlmSawIt, HeardIn;
    var asked := StepsOf(cfg, [Mesh.Settling(cfg, st, h, env, now)], env);
    if Asks(cfg, env) {
      var step := IP.Consider(h.event, env.enabled, now);
      assert asked == [step];
      assert (steps + [step])[..|steps|] == steps;
    } else {
      assert steps + asked == steps;
    }
  }

  lemma {:induction false} QueueConsiders(cfg: MeshConfig, st: MeshState, env: Env, now: real, all: bool, steps: seq<IP.Step>)
    requires cfg.injector.Some? && st.injector == IP.Exec(cfg.injector.value, steps).st
    ensures var d := SettleQueue(cfg, st, env, now, all);
            d.st.injector == IP.Exec(cfg.injector.value, steps + StepsOf(cfg, d.out, env)).st
    decreases |st.holding|
  {
    hide SettleStep, Mesh.Settling, IP.Exec;
    var d := SettleQueue(cfg, st, env, now, all);
    if st.holding != [] && (all || st.holding[0].deadline <= now) {
      var h, rest := st.holding[0], st.(holding := st.holding[1..]);
      var one, next := Mesh.Settling(cfg, rest, h, env, now), SettleStep(cfg, rest, h, env, now);
      SettleConsiders(cfg, rest, h, env, now, steps);
      StepKeepsQueue(cfg, rest, h, env, now);
      QueueConsiders(cfg, next, env, now, all, steps + StepsOf(cfg, [one], env));
      var more := SettleQueue(cfg, next, env, now, all).out;
      assert d.out == [one] + more;
      assert steps + StepsOf(cfg, d.out, env) == steps + StepsOf(cfg, [one], env) + StepsOf(cfg, more, env);
    } else {
      assert steps + StepsOf(cfg, [], env) == steps;
    }
  }

  lemma StepKeepsQueue(cfg: MeshConfig, st: MeshState, h: Held, env: Env, now: real)
    ensures SettleStep(cfg, st, h, env, now).holding == st.holding
  {
    hide Mesh.Settling, ConsiderStep, NoteStep;
  }

  lemma StepEmbedded(cfg: MeshConfig, run: Run, op: Op)
    requires cfg.injector.Some? && run.st.injector == IP.Exec(cfg.injector.value, run.steps).st
    ensures Do(cfg, run, op).st.injector == IP.Exec(cfg.injector.value, Do(cfg, run, op).steps).st
  {
    hide SettleQueue, PoppedBy, StepsOf, NoteIn, ConsiderStep;
    match op {
      case Capture(_) =>
      case PlmFrame(raw, now) =>
        assert (run.steps + [IP.Note(raw, now)])[..|run.steps|] == run.steps;
      case _ =>
        QueueConsiders(cfg, QueueOf(cfg, run, op), op.env, op.now, op.Shutdown?, run.steps);
    }
  }

  /** Inside the service the injector goes through a run of its own, so everything proved of its runs holds here. */
  lemma {:induction false} InjectorEmbedded(cfg: MeshConfig, ops: seq<Op>)
    requires cfg.injector.Some?
    ensures Exec(cfg, ops).st.injector == IP.Exec(cfg.injector.value, Exec(cfg, ops).steps).st
  {
    hide Do;
    if ops != [] {
      InjectorEmbedded(cfg, ops[..|ops| - 1]);
      StepEmbedded(cfg, Exec(cfg, ops[..|ops| - 1]), ops[|ops| - 1]);
    }
  }

  ghost predicate StepsInOrder(steps: seq<IP.Step>, now: real) { IP.InOrder(steps) && IP.LastAt(steps, now) }

  lemma AppendInOrder(steps: seq<IP.Step>, more: seq<IP.Step>, at: real, now: real)
    requires StepsInOrder(steps, at) && at <= now && forall i :: 0 <= i < |more| ==> more[i].at == at
    ensures StepsInOrder(steps + more, now)
  {
    if steps != [] {
      assert forall i :: 0 <= i < |steps| ==> steps[i].at <= steps[|steps| - 1].at;
    }
  }

  /** What a call asks the injector, it asks at the time of the call. */
  lemma StepAddsNow(cfg: MeshConfig, run: Run, op: Op) returns (more: seq<IP.Step>)
    requires !op.Capture?
    ensures Do(cfg, run, op).steps == run.steps + more && forall i :: 0 <= i < |more| ==> more[i].at == op.now
  {
    hide SettleQueue, PoppedBy, NoteIn;
    if op.PlmFrame? {
      more := [IP.Note(op.raw, op.now)];
    } else {
      QueueSettles(cfg, QueueOf(cfg, run, op), op.env, op.now, op.Shutdown?);
      more := StepsOf(cfg, DrainedBy(cfg, run, op).out, op.env);
    }
  }

  lemma {:induction false} StepsKeepTime(cfg: MeshConfig, ops: seq<Op>, now: real)
    requires InOrder(ops, now)
    ensures StepsInOrder(Exec(cfg, ops).steps, now)
  {
    hide Do, StepsInOrder;
    if ops == [] {
      NoSteps(now);
    } else {
      var op, front := ops[|ops| - 1], ops[..|ops| - 1];
      var run := Exec(cfg, front);
      StepsKeepTime(cfg, front, if op.Capture? then now else op.now);
      if op.Capture? {
        CaptureOnly(cfg, run, op);
      } else {
        var more := StepAddsNow(cfg, run, op);
        AppendInOrder(run.steps, more, op.now, now);
      }
    }
  }

  lemma StepsInOrderMeans(steps: seq<IP.Step>, now: real)
    requires StepsInOrder(steps, now)
    ensures IP.InOrder(steps) && IP.LastAt(steps, now)
  {
  }

  lemma NoSteps(now: real)
    ensures StepsInOrder([], now)
  {
  }

  /** The limits hold for what the whole service publishes, whatever it hears, as long as its clock does not go back. */
  lemma ServiceKeepsRateLimits(cfg: MeshConfig, ops: seq<Op>, now: real, from: real)
    requires cfg.injector.Some? && InOrder(ops, now)
    ensures var inj := cfg.injector.value;
            var run := IP.Exec(inj, Exec(cfg, ops).steps);
            run.st == Exec(cfg, ops).st.injector && IP.Limited(inj, run, now) &&
            IP.Within(run.log, from) <= Max(inj.perMinute, 0) && IP.Accounted(inj, run)
  {
    hide IP.Exec, IP.Limited, IP.Accounted, IP.Within, Exec, StepsInOrder;
    InjectorEmbedded(cfg, ops);
    StepsKeepTime(cfg, ops, now);
    StepsInOrderMeans(Exec(cfg, ops).steps, now);
    IP.RateLimits(cfg.injector.value, Exec(cfg, ops).steps, now);
    IP.NoMinuteOverfull(cfg.injector.value, Exec(cfg, ops).steps, from);
    IP.Accounting(cfg.injector.value, Exec(cfg, ops).steps);
  }

  // ------------------------------------------------------------------ end to end

  function ViewsOf(r: string): F.FusedEvent -> int { (e: F.FusedEvent) => Sum(e.receivers, FR.Named(r)) }

  function ViewsOfEmission(r: string): F.Emission -> int { (e: F.Emission) => Sum(e.event.receivers, FR.Named(r)) }

  lemma {:induction false} EventsSum(sorted: seq<F.Emission>, r: string)
    ensures Sum(seq(|sorted|, i requires 0 <= i < |sorted| => sorted[i].event), ViewsOf(r)) == Sum(sorted, ViewsOfEmission(r))
  {
    if sorted != [] {
      var front := sorted[..|sorted| - 1];
      EventsSum(front, r);
      var events := seq(|sorted|, i requires 0 <= i < |sorted| => sorted[i].event);
      assert events[..|events| - 1] == seq(|front|, i requires 0 <= i < |front| => front[i].event);
    } else {
      assert seq(0, i requires 0 <= i < |sorted| => sorted[i].event) == [];
    }
  }

  lemma {:induction false} EntriesViews(op: nat, at: real, out: seq<F.Emission>, r: string)
    ensures Sum(FR.Entries(op, at, out), FR.InViews(r)) == Sum(out, ViewsOfEmission(r))
  {
    if out != [] {
      var n := |out| - 1;
      EntriesViews(op, at, out[..n], r);
      assert FR.Entries(op, at, out)[..n] == FR.Entries(op, at, out[..n]);
    }
  }

  /** Ordering the events does not change what they add up to. */
  lemma HandedOverSum(out: seq<F.Emission>, n: nat, at: real, r: string)
    ensures Sum(F.Events(out), ViewsOf(r)) == Sum(FR.Entries(n, at, out), FR.InViews(r))
  {
    hide Sum;
    SumSort(out, F.FirstSeen(), ViewsOfEmission(r));
    EventsSum(SortBy(out, F.FirstSeen()), r);
    EntriesViews(n, at, out, r);
    assert F.Events(out) == seq(|SortBy(out, F.FirstSeen())|, i requires 0 <= i < |SortBy(out, F.FirstSeen())| =>
                                SortBy(out, F.FirstSeen())[i].event);
  }

  lemma StepLogged(cfg: MeshConfig, run: Run, op: Op, r: string)
    requires Sum(FusionOf(cfg, run).log, FR.InViews(r)) == Sum(run.popped, ViewsOf(r))
    ensures Sum(FusionOf(cfg, Do(cfg, run, op)).log, FR.InViews(r)) == Sum(Do(cfg, run, op).popped, ViewsOf(r))
  {
    hide Sum, DrainStep, ShutdownStep, StepsOf, NoteIn, F.PopStep, F.FlushStep, F.Events, F.AddStep, FR.AddDrops, FP.Inv, F.Sane, FR.Entries;
    var fusion, n := FusionOf(cfg, run), |run.calls|;
    if op.Capture? {
      assert (run.calls + [FR.Add(op.s)])[..n] == run.calls;
    } else if Collects(op) {
      FP.InvSane(fusion.st);
      assert (run.calls + [CallOf(op)])[..n] == run.calls;
      var out := if op.Drain? then F.PopStep(cfg.fusion, fusion.st, op.now).out else F.FlushStep(cfg.fusion, fusion.st, op.now).out;
      HandedOverSum(out, n, op.now, r);
      SumConcat(fusion.log, FR.Entries(n, op.now, out), FR.InViews(r));
      SumConcat(run.popped, F.Events(out), ViewsOf(r));
    }
  }

  lemma {:induction false} PoppedIsLogged(cfg: MeshConfig, ops: seq<Op>, r: string)
    ensures Sum(FusionOf(cfg, Exec(cfg, ops)).log, FR.InViews(r)) == Sum(Exec(cfg, ops).popped, ViewsOf(r))
  {
    hide Do, Sum, FP.Inv;
    if ops == [] {
      NothingLogged(cfg, r);
    } else {
      PoppedIsLogged(cfg, ops[..|ops| - 1], r);
      StepLogged(cfg, Exec(cfg, ops[..|ops| - 1]), ops[|ops| - 1], r);
    }
  }

  lemma NothingLogged(cfg: MeshConfig, r: string)
    ensures Sum(FR.Exec(cfg.fusion, []).log, FR.InViews(r)) == 0 && Sum([], ViewsOf(r)) == 0
  {
  }

  /**
   * Nothing a receiver delivers is lost anywhere in the service: its copies are in settled events, in events waiting for
   * the modem, in fusion's buckets, or counted late, and in only one of these.
   */
  lemma EndToEnd(cfg: MeshConfig, ops: seq<Op>, r: string)
    ensures var run := Exec(cfg, ops);
            var fusion := FusionOf(cfg, run);
            FR.Copies(fusion.adds, FR.From(r))
            == Sum(SettledEvents(run.settled), ViewsOf(r)) + Sum(HeldEvents(run.st.holding), ViewsOf(r)) +
               FR.Held(fusion.st, FR.From(r)) + F.LateOf(fusion.st.late, r)
  {
    hide Exec, Sum, FR.Copies, FR.Held, F.LateOf, FP.Inv;
    var run := Exec(cfg, ops);
    SettledExactlyOnce(cfg, ops);
    PoppedIsLogged(cfg, ops, r);
    FR.ReceiverConservation(cfg.fusion, run.calls, r);
    SumConcat(SettledEvents(run.settled), HeldEvents(run.st.holding), ViewsOf(r));
  }

  // ------------------------------------------------------------------ the miss table inside the service

  ghost function NotesOf(settled: seq<Settled>): (r: seq<Noted>)
    ensures |r| == |settled|
  {
    seq(|settled|, i requires 0 <= i < |settled| => Noted(settled[i].held.event, Some(settled[i].saw), settled[i].injected))
  }

  lemma {:induction false} QueueNotes(cfg: MeshConfig, st: MeshState, env: Env, now: real, all: bool, notes: seq<Noted>)
    requires st.misses == NoteAll(cfg.misses, notes)
    ensures var d := SettleQueue(cfg, st, env, now, all);
            d.st.misses == NoteAll(cfg.misses, notes + NotesOf(d.out))
    decreases |st.holding|
  {
    hide SettleStep, Mesh.Settling, NoteAll, NotesOf;
    var d := SettleQueue(cfg, st, env, now, all);
    if st.holding != [] && (all || st.holding[0].deadline <= now) {
      var h, rest := st.holding[0], st.(holding := st.holding[1..]);
      var s := Mesh.Settling(cfg, rest, h, env, now);
      SettleNotes(cfg, rest, h, env, now, notes);
      StepKeepsQueue(cfg, rest, h, env, now);
      QueueNotes(cfg, SettleStep(cfg, rest, h, env, now), env, now, all, notes + NotesOf([s]));
      NotesConcat([s], d.out[1..], notes);
      assert d.out == [s] + d.out[1..];
    } else {
      NotesConcat([], [], notes);
      assert d.out == [] + [];
    }
  }

  /** One event settled is one note. */
  lemma SettleNotes(cfg: MeshConfig, st: MeshState, h: Held, env: Env, now: real, notes: seq<Noted>)
    requires st.misses == NoteAll(cfg.misses, notes)
    ensures SettleStep(cfg, st, h, env, now).misses
         == NoteAll(cfg.misses, notes + NotesOf([Mesh.Settling(cfg, st, h, env, now)]))
  {
    hide NoteStep, Mesh.Settling, ConsiderStep;
    var s := Mesh.Settling(cfg, st, h, env, now);
    SettlingNamesEvent(cfg, st, h, env, now);
    var note := Noted(h.event, Some(s.saw), s.injected);
    assert NotesOf([s]) == [note];
    assert (notes + [note])[..|notes|] == notes;
  }

  lemma NotesConcat(a: seq<Settled>, b: seq<Settled>, notes: seq<Noted>)
    ensures notes + NotesOf(a + b) == notes + NotesOf(a) + NotesOf(b) && (a == b == [] ==> notes + NotesOf(a + b) == notes)
  {
    assert NotesOf(a + b) == NotesOf(a) + NotesOf(b);
  }

  lemma SettlingNamesEvent(cfg: MeshConfig, st: MeshState, h: Held, env: Env, now: real)
    ensures Mesh.Settling(cfg, st, h, env, now).held == h
  {
  }

  lemma StepNotes(cfg: MeshConfig, run: Run, op: Op)
    requires run.st.misses == NoteAll(cfg.misses, NotesOf(run.settled))
    ensures Do(cfg, run, op).st.misses == NoteAll(cfg.misses, NotesOf(Do(cfg, run, op).settled))
  {
    hide SettleQueue, PoppedBy, StepsOf, NoteIn, NoteAll;
    if Collects(op) {
      var d := DrainedBy(cfg, run, op);
      QueueNotes(cfg, QueueOf(cfg, run, op), op.env, op.now, op.Shutdown?, NotesOf(run.settled));
      assert NotesOf(run.settled + d.out) == NotesOf(run.settled) + NotesOf(d.out);
    }
  }

  /** The table is told of each settled event once, in order. */
  lemma {:induction false} TableIsHistory(cfg: MeshConfig, ops: seq<Op>)
    ensures Exec(cfg, ops).st.misses == NoteAll(cfg.misses, NotesOf(Exec(cfg, ops).settled))
  {
    hide Do, NoteStep;
    if ops != [] {
      TableIsHistory(cfg, ops[..|ops| - 1]);
      StepNotes(cfg, Exec(cfg, ops[..|ops| - 1]), ops[|ops| - 1]);
    }
  }

  lemma {:induction false} IntoViewsDistinct(views: seq<F.ReceiverView>, s: Sighting)
    requires DistinctNames(views)
    ensures var after := F.IntoViews(views, s);
            DistinctNames(after) &&
            forall i :: 0 <= i < |after| ==> after[i].name == s.receiver || exists j :: 0 <= j < |views| && views[j].name == after[i].name
  {
    hide F.GoodCopy, F.BestRssi;
    if views != [] && views[0].name != s.receiver {
      var rest := views[1..];
      assert forall i :: 0 <= i < |rest| ==> rest[i] == views[i + 1];
      IntoViewsDistinct(rest, s);
      var tail := F.IntoViews(rest, s);
      assert forall i :: 0 <= i < |tail| ==> tail[i].name != views[0].name;
    }
  }

  lemma {:induction false} ViewsDistinct(ss: seq<Sighting>)
    ensures DistinctNames(F.Views(ss))
  {
    if ss != [] {
      ViewsDistinct(ss[..|ss| - 1]);
      IntoViewsDistinct(F.Views(ss[..|ss| - 1]), ss[|ss| - 1]);
    }
    hide DistinctNames, F.IntoViews;
  }

  ghost predicate NamesDistinct(events: seq<F.FusedEvent>) {
    forall i :: 0 <= i < |events| ==> DistinctNames(events[i].receivers)
  }

  lemma EventsDistinct(cfg: F.Config, out: seq<F.Emission>)
    requires FR.AllFaithful(cfg, out)
    ensures NamesDistinct(F.Events(out))
  {
    var sorted := SortBy(out, F.FirstSeen());
    SameElements(out, F.FirstSeen());
    hide DistinctNames, F.Views, FP.GoodBucket, SortBy;
    forall i | 0 <= i < |sorted| ensures DistinctNames(sorted[i].event.receivers) {
      assert sorted[i] in out;
      var j :| 0 <= j < |out| && out[j] == sorted[i];
      assert FR.Faithful(cfg, out[j]);
      EventReceivers(cfg, out[j]);
      ViewsDistinct(out[j].bucket.sightings);
    }
  }

  lemma EventReceivers(cfg: F.Config, e: F.Emission)
    requires FR.Faithful(cfg, e)
    ensures e.event.receivers == F.Views(e.bucket.sightings)
  {
    hide F.Views, F.BestGood, F.Closest, F.HopsMin, F.HopsMax, CombineOf;
  }

  lemma StepDistinct(cfg: MeshConfig, run: Run, op: Op)
    requires NamesDistinct(run.popped)
    ensures NamesDistinct(Do(cfg, run, op).popped)
  {
    hide DrainStep, ShutdownStep, StepsOf, NoteIn, F.PopStep, F.FlushStep, F.Events, FP.Inv, FR.AllFaithful, DistinctNames;
    if Collects(op) {
      var fusion := FusionOf(cfg, run);
      FR.EmitFactsOfStep(cfg.fusion, fusion, CallOf(op));
      EventsDistinct(cfg.fusion, if op.Drain? then F.PopStep(cfg.fusion, fusion.st, op.now).out
                                 else F.FlushStep(cfg.fusion, fusion.st, op.now).out);
    }
  }

  lemma {:induction false} PoppedDistinct(cfg: MeshConfig, ops: seq<Op>)
    ensures NamesDistinct(Exec(cfg, ops).popped)
  {
    hide Do, DistinctNames;
    if ops != [] {
      PoppedDistinct(cfg, ops[..|ops| - 1]);
      StepDistinct(cfg, Exec(cfg, ops[..|ops| - 1]), ops[|ops| - 1]);
    }
  }

  /**
   * Coverage in the running service: every settled event is in exactly one total; each receiver is scored against the
   * same message count; each device's messages are split exactly into those the modem had and those it missed.
   */
  lemma ServiceCoverage(cfg: MeshConfig, ops: seq<Op>, r: string, who: Address)
    ensures var run := Exec(cfg, ops);
            var m := run.st.misses;
            var d := DeviceOf(m.devices, who);
            m.undecodable + m.ownTransmissions + m.unknownSenders + m.messages == |run.settled| &&
            m.messages == MapSum(Sightings(m.devices)) &&
            CountOfName(m.sole, r) <= CountOfName(m.heard, r) <= m.messages &&
            d.plmAlso + d.plmMissed == d.heardByRf <= m.messages && d.injected <= d.heardByRf
  {
    hide Exec, NoteAll, CountOfName, DeviceOf, DistinctNames, MapSum, Sightings;
    var run := Exec(cfg, ops);
    var notes := NotesOf(run.settled);
    TableIsHistory(cfg, ops);
    SettledExactlyOnce(cfg, ops);
    PoppedDistinct(cfg, ops);
    assert forall i :: 0 <= i < |notes| ==> notes[i].event == run.popped[i];
    TotalsBalance(cfg.misses, notes);
    MessagesAreSightings(cfg.misses, notes);
    CoverageBounds(cfg.misses, notes, r, who);
    AlwaysAnswered(cfg.misses, notes, who);
  }

  /** When every event carries the modem's answer, hits and misses are all there is. */
  lemma {:induction false} AlwaysAnswered(cfg: MissConfig, notes: seq<Noted>, who: Address)
    requires forall i :: 0 <= i < |notes| ==> notes[i].saw.Some?
    ensures var d := DeviceOf(NoteAll(cfg, notes).devices, who);
            d.plmAlso + d.plmMissed == d.heardByRf
  {
    hide KindOf, CountNames, CountName, LoudestOf, NamesOf;
    if notes != [] {
      AlwaysAnswered(cfg, notes[..|notes| - 1], who);
      var last := notes[|notes| - 1];
      if last.saw.value {
        assert last.saw == Some(true);
      } else {
        assert last.saw == Some(false);
      }
    }
  }
}
