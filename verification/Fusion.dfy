/** Event fusion: what one call of Fusion does, on values. The classes in FusionService.dfy are proved against this. */
module Fusion {
  import opened Common
  import opened Packets
  import opened Plm
  import opened Sorting
  import opened Combine

  datatype Config = Config(window: real, extend: real, maxWindow: real, repeatMemory: real, lateness: real, allowCombine: bool)

  // ------------------------------------------------------------------ buckets

  datatype BucketState = BucketState(key: Wire, sightings: seq<Sighting>, openedAt: real, lastAt: real, refBits: Bits, hasGood: bool)

  function MinReal(a: real, b: real): real { if b < a then b else a }

  function MaxReal(a: real, b: real): real { if b > a then b else a }

  /** _Bucket.add */
  function AddTo(b: BucketState, s: Sighting): BucketState {
    BucketState(if s.packet.Verified() then MessageKey(s.packet) else b.key, b.sightings + [s],
                MinReal(b.openedAt, s.when), MaxReal(b.lastAt, s.when),
                if |s.bits| > |b.refBits| then s.bits else b.refBits, b.hasGood || s.packet.Verified())
  }

  lemma AddToSightings(b: BucketState, s: Sighting)
    ensures AddTo(b, s).sightings == b.sightings + [s]
  {
  }

  /** _Bucket.__init__ */
  function NewBucket(key: Wire, first: Sighting): BucketState {
    AddTo(BucketState(key, [], first.when, first.when, first.bits, false), first)
  }

  function AddAll(b: BucketState, sightings: seq<Sighting>): BucketState {
    if sightings == [] then b else AddTo(AddAll(b, sightings[..|sightings| - 1]), sightings[|sightings| - 1])
  }

  /** How much n copies have earned a bucket beyond the window. */
  function Extension(cfg: Config, n: nat): real { cfg.extend * ((n - 1) as real) }

  function Deadline(cfg: Config, b: BucketState): real {
    MinReal(b.lastAt + cfg.window + Extension(cfg, |b.sightings|), b.openedAt + cfg.maxWindow)
  }

  predicate Accepts(cfg: Config, b: BucketState, when: real) {
    b.openedAt - cfg.window <= when <= Deadline(cfg, b)
  }

  // ------------------------------------------------------------------ events

  datatype ReceiverView = ReceiverView(name: string, copies: nat, crcOk: bool, rssi: Option<real>, bestHops: byte)

  datatype FusedEvent = FusedEvent(key: Wire, packet: Packet, firstSeen: real, lastSeen: real,
                                   hopsMin: byte, hopsMax: byte, receivers: seq<ReceiverView>, closest: string,
                                   combined: bool, combinedFrom: nat, repeatIndex: nat)

  /** A verified copy that also survives the flags byte. */
  predicate GoodCopy(s: Sighting) { s.packet.Verified() && s.packet.HopsOk() }

  function BestRssi(a: Option<real>, b: Option<real>): Option<real> {
    if b.Some? && (a.None? || b.value > a.value) then b else a
  }

  function IntoViews(views: seq<ReceiverView>, s: Sighting): seq<ReceiverView> {
    if views == [] then [ReceiverView(s.receiver, 1, GoodCopy(s), s.rssi, s.packet.HopsLeft())]
    else if views[0].name == s.receiver then
      var v := views[0];
      [ReceiverView(v.name, v.copies + 1, v.crcOk || GoodCopy(s), BestRssi(v.rssi, s.rssi),
                    if s.packet.HopsLeft() > v.bestHops then s.packet.HopsLeft() else v.bestHops)] + views[1..]
    else [views[0]] + IntoViews(views[1..], s)
  }

  /** Per receiver, what it contributed, in order of first contribution. */
  function Views(sightings: seq<Sighting>): seq<ReceiverView> {
    if sightings == [] then [] else IntoViews(Views(sightings[..|sightings| - 1]), sightings[|sightings| - 1])
  }

  function RssiOr(r: Option<real>): real { if r.Some? then r.value else -999.0 }

  /** Most hops left wins, then loudest. */
  predicate Closer(v: ReceiverView, w: ReceiverView) {
    v.bestHops > w.bestHops || (v.bestHops == w.bestHops && RssiOr(v.rssi) > RssiOr(w.rssi))
  }

  function Closest(views: seq<ReceiverView>): ReceiverView
    requires views != []
  {
    if |views| == 1 then views[0]
    else
      var best := Closest(views[..|views| - 1]);
      if Closer(views[|views| - 1], best) then views[|views| - 1] else best
  }

  /** A copy nobody had to repair, then the least travelled, then the strongest. */
  predicate BetterCopy(a: Sighting, b: Sighting) {
    var cleanA, cleanB := a.packet.corrected == 0, b.packet.corrected == 0;
    if cleanA != cleanB then cleanA
    else if a.packet.HopsLeft() != b.packet.HopsLeft() then a.packet.HopsLeft() > b.packet.HopsLeft()
    else RssiOr(a.rssi) > RssiOr(b.rssi)
  }

  function BestGood(sightings: seq<Sighting>): Option<Sighting> {
    if sightings == [] then None
    else
      var best := BestGood(sightings[..|sightings| - 1]);
      var s := sightings[|sightings| - 1];
      if GoodCopy(s) && (best.None? || BetterCopy(s, best.value)) then Some(s) else best
  }

  function HopsMin(sightings: seq<Sighting>): byte
    requires sightings != []
  {
    var h := sightings[|sightings| - 1].packet.HopsLeft();
    if |sightings| == 1 then h
    else if h < HopsMin(sightings[..|sightings| - 1]) then h else HopsMin(sightings[..|sightings| - 1])
  }

  function HopsMax(sightings: seq<Sighting>): byte
    requires sightings != []
  {
    var h := sightings[|sightings| - 1].packet.HopsLeft();
    if |sightings| == 1 then h
    else if h > HopsMax(sightings[..|sightings| - 1]) then h else HopsMax(sightings[..|sightings| - 1])
  }

  lemma ViewsNonEmpty(sightings: seq<Sighting>)
    requires sightings != []
    ensures Views(sightings) != []
  {
  }

  /** _Bucket.build, before repeat numbering. */
  function Build(cfg: Config, b: BucketState): FusedEvent
    requires b.sightings != []
  {
    var views := Views(b.sightings);
    ViewsNonEmpty(b.sightings);
    var best := BestGood(b.sightings);
    var made := if best.None? && cfg.allowCombine then CombineOf(b.sightings) else None;
    var packet := if best.Some? then best.value.packet else if made.Some? then made.value else b.sightings[0].packet;
    FusedEvent(b.key, packet, b.openedAt, b.lastAt, HopsMin(b.sightings), HopsMax(b.sightings), views, Closest(views).name,
               made.Some?, if made.Some? then |b.sightings| else 0, 0)
  }

  // ------------------------------------------------------------------ state

  datatype Slot = Slot(key: Wire, bucket: BucketState)

  datatype ClosedKey = ClosedKey(at: real, index: nat, first: real, last: real)

  /** `open` keeps the dictionary's insertion order. */
  datatype FusionState = FusionState(open: seq<Slot>, ready: seq<BucketState>, closed: map<Wire, ClosedKey>,
                                     late: map<string, nat>, folded: nat)

  const EMPTY: FusionState := FusionState([], [], map[], map[], 0)

  function SlotOf(open: seq<Slot>, key: Wire): (r: Option<nat>)
    ensures r.Some? ==> r.value < |open| && open[r.value].key == key
    ensures r.None? ==> forall i :: 0 <= i < |open| ==> open[i].key != key
  {
    if open == [] then None
    else if open[|open| - 1].key == key then Some(|open| - 1)
    else SlotOf(open[..|open| - 1], key)
  }

  function LateOf(late: map<string, nat>, r: string): nat { if r in late then late[r] else 0 }

  function CountLate(late: map<string, nat>, r: string): map<string, nat> { late[r := LateOf(late, r) + 1] }

  function CountAllLate(late: map<string, nat>, sightings: seq<Sighting>): map<string, nat> {
    if sightings == [] then late
    else CountLate(CountAllLate(late, sightings[..|sightings| - 1]), sightings[|sightings| - 1].receiver)
  }

  // ------------------------------------------------------------------ add

  /** _is_straggler: a verified copy of a message whose event has gone. */
  predicate Straggler(cfg: Config, closed: map<Wire, ClosedKey>, key: Wire, s: Sighting) {
    s.packet.Verified() && key in closed &&
    closed[key].first - cfg.window <= s.when <= closed[key].last + cfg.window
  }

  /** The distance to a bucket a copy may join by similarity. */
  function Similarity(cfg: Config, b: BucketState, s: Sighting): Option<nat> {
    if s.packet.Verified() && b.hasGood then None
    else if !Accepts(cfg, b, s.when) then None
    else
      var d := Distance(s.bits, b.refBits, MAX_DISAGREEMENTS);
      if d.Some? && d.value <= MAX_DISAGREEMENTS then d else None
  }

  datatype Near = Far | Near(slot: nat, distance: nat)

  /** _nearest over the first n slots: the first of the closest. */
  function Nearest(cfg: Config, open: seq<Slot>, s: Sighting, n: nat): (r: Near)
    requires n <= |open|
    ensures r.Near? ==> r.slot < n && Similarity(cfg, open[r.slot].bucket, s) == Some(r.distance)
  {
    if n == 0 then Far
    else
      var before := Nearest(cfg, open, s, n - 1);
      var d := Similarity(cfg, open[n - 1].bucket, s);
      if d.Some? && (before.Far? || d.value < before.distance) then Near(n - 1, d.value) else before
  }

  function AddToSlot(open: seq<Slot>, i: nat, s: Sighting): (r: seq<Slot>)
    requires i < |open|
  {
    open[i := Slot(open[i].key, AddTo(open[i].bucket, s))]
  }

  /** By similarity if something is close enough, else in a bucket of its own. */
  function Place(cfg: Config, open: seq<Slot>, key: Wire, s: Sighting): seq<Slot> {
    var near := if cfg.allowCombine then Nearest(cfg, open, s, |open|) else Far;
    if near.Near? then AddToSlot(open, near.slot, s) else open + [Slot(key, NewBucket(key, s))]
  }

  /** Fusion.add */
  function AddStep(cfg: Config, st: FusionState, s: Sighting): FusionState {
    var key := MessageKey(s.packet);
    var at := SlotOf(st.open, key);
    if at.Some? && Accepts(cfg, st.open[at.value].bucket, s.when) then
      st.(open := AddToSlot(st.open, at.value, s))
    else if at.Some? then
      st.(open := Place(cfg, st.open[..at.value] + st.open[at.value + 1..], key, s),
          ready := st.ready + [st.open[at.value].bucket])
    else if Straggler(cfg, st.closed, key, s) then
      st.(late := CountLate(st.late, s.receiver))
    else
      st.(open := Place(cfg, st.open, key, s))
  }

  /** The four ways a copy can go. */
  lemma AddCases(cfg: Config, st: FusionState, s: Sighting)
    ensures var key := MessageKey(s.packet);
            var at := SlotOf(st.open, key);
            if at.Some? then
              if Accepts(cfg, st.open[at.value].bucket, s.when) then AddStep(cfg, st, s) == st.(open := AddToSlot(st.open, at.value, s))
              else AddStep(cfg, st, s) == st.(open := Place(cfg, st.open[..at.value] + st.open[at.value + 1..], key, s),
                                              ready := st.ready + [st.open[at.value].bucket])
            else if Straggler(cfg, st.closed, key, s) then AddStep(cfg, st, s) == st.(late := CountLate(st.late, s.receiver))
            else AddStep(cfg, st, s) == st.(open := Place(cfg, st.open, key, s))
  {
    hide MessageKey, SlotOf, Accepts, AddToSlot, Place, Straggler, CountLate;
  }

  // ------------------------------------------------------------------ emit

  /** An event together with the bucket it was built from. */
  datatype Emission = Emission(event: FusedEvent, bucket: BucketState)

  /** The buckets being emitted: `out` in the order they were finished, `dropped` the copies counted as late. */
  datatype Emitting = Emitting(st: FusionState, pending: seq<BucketState>, out: seq<Emission>, dropped: seq<Sighting>)

  /** _finish: number the event and remember its key. */
  function Finish(em: Emitting, b: BucketState, event: FusedEvent, now: real): Emitting {
    var key := if event.combined then MessageKey(event.packet) else event.key;
    var index := if key in em.st.closed then em.st.closed[key].index + 1 else 0;
    var numbered := event.(key := key, repeatIndex := index);
    em.(st := em.st.(closed := em.st.closed[key := ClosedKey(now, index, event.firstSeen, event.lastSeen)]),
        out := em.out + [Emission(numbered, b)])
  }

  lemma FinishKeepsPending(em: Emitting, b: BucketState, event: FusedEvent, now: real)
    ensures Finish(em, b, event, now).pending == em.pending
  {
  }

  /** The first pending bucket of this message that can take a copy from `when`. */
  function HomeOf(cfg: Config, pending: seq<BucketState>, key: Wire, when: real): (r: Option<nat>)
    ensures r.Some? ==> r.value < |pending| && pending[r.value].key == key && Accepts(cfg, pending[r.value], when)
  {
    if pending == [] then None
    else if pending[0].key == key && Accepts(cfg, pending[0], when) then Some(0)
    else
      var r := HomeOf(cfg, pending[1..], key, when);
      if r.None? then None else Some(r.value + 1)
  }

  /** Fold a repaired bucket into the one for the same message, or count it late if that event has gone. */
  function Fold(cfg: Config, em: Emitting, b: BucketState, key: Wire): Option<Emitting> {
    var home := HomeOf(cfg, em.pending, key, b.openedAt);
    var live := SlotOf(em.st.open, key);
    if home.Some? then
      Some(em.(pending := em.pending[home.value := AddAll(em.pending[home.value], b.sightings)],
               st := em.st.(folded := em.st.folded + 1)))
    else if live.Some? && Accepts(cfg, em.st.open[live.value].bucket, b.openedAt) then
      Some(em.(st := em.st.(folded := em.st.folded + 1,
                            open := em.st.open[live.value := Slot(key, AddAll(em.st.open[live.value].bucket, b.sightings))])))
    else if key in em.st.closed &&
            em.st.closed[key].first - cfg.window <= b.openedAt <= em.st.closed[key].last + cfg.window then
      Some(em.(st := em.st.(folded := em.st.folded + 1, late := CountAllLate(em.st.late, b.sightings)),
               dropped := em.dropped + b.sightings))
    else None
  }

  /** One bucket without a verified copy: fold it home if repaired, else finish it. */
  function Settle(cfg: Config, em: Emitting, b: BucketState, now: real): Emitting
    requires b.sightings != []
  {
    var event := Build(cfg, b);
    var folded := if event.combined then Fold(cfg, em, b, MessageKey(event.packet)) else None;
    if folded.Some? then folded.value else Finish(em, b, event, now)
  }

  ghost predicate NonEmpty(bs: seq<BucketState>) { forall i :: 0 <= i < |bs| ==> bs[i].sightings != [] }

  function SettleAll(cfg: Config, em: Emitting, damaged: seq<BucketState>, now: real): Emitting
    requires NonEmpty(damaged)
  {
    if damaged == [] then em
    else Settle(cfg, SettleAll(cfg, em, damaged[..|damaged| - 1], now), damaged[|damaged| - 1], now)
  }

  function FinishAll(cfg: Config, em: Emitting, bs: seq<BucketState>, now: real): Emitting
    requires NonEmpty(bs)
  {
    if bs == [] then em
    else
      var b := bs[|bs| - 1];
      Finish(FinishAll(cfg, em, bs[..|bs| - 1], now), b, Build(cfg, b), now)
  }

  function Opened(): BucketState -> real { (b: BucketState) => b.openedAt }

  function Filter(bs: seq<BucketState>, good: bool): seq<BucketState> {
    if bs == [] then []
    else Filter(bs[..|bs| - 1], good) + if bs[|bs| - 1].hasGood == good then [bs[|bs| - 1]] else []
  }

  lemma {:induction false} FilterNonEmpty(bs: seq<BucketState>, good: bool)
    requires NonEmpty(bs)
    ensures NonEmpty(Filter(bs, good))
  {
    if bs != [] {
      FilterNonEmpty(bs[..|bs| - 1], good);
    }
  }

  lemma SortNonEmpty(bs: seq<BucketState>)
    requires NonEmpty(bs)
    ensures NonEmpty(SortBy(bs, Opened()))
  {
    SameElements(bs, Opened());
    var sorted := SortBy(bs, Opened());
    forall i | 0 <= i < |sorted| ensures sorted[i].sightings != [] {
      assert sorted[i] in sorted;
    }
  }

  lemma {:induction false} SettleKeepsPending(cfg: Config, em: Emitting, damaged: seq<BucketState>, now: real)
    requires NonEmpty(damaged) && NonEmpty(em.pending)
    ensures NonEmpty(SettleAll(cfg, em, damaged, now).pending)
    ensures |SettleAll(cfg, em, damaged, now).pending| == |em.pending|
  {
    if damaged != [] {
      SettleKeepsPending(cfg, em, damaged[..|damaged| - 1], now);
      hide Build, HomeOf, SlotOf, Accepts;
      AddAllGrows(SettleAll(cfg, em, damaged[..|damaged| - 1], now).pending, damaged[|damaged| - 1].sightings);
    }
  }

  lemma AddAllGrows(bs: seq<BucketState>, more: seq<Sighting>)
    ensures forall i :: 0 <= i < |bs| ==> AddAll(bs[i], more).sightings == bs[i].sightings + more
  {
    forall i | 0 <= i < |bs| ensures AddAll(bs[i], more).sightings == bs[i].sightings + more {
      AddAllSightings(bs[i], more);
    }
  }

  lemma {:induction false} AddAllSightings(b: BucketState, more: seq<Sighting>)
    ensures AddAll(b, more).sightings == b.sightings + more
  {
    if more != [] {
      AddAllSightings(b, more[..|more| - 1]);
      assert more == more[..|more| - 1] + [more[|more| - 1]];
    }
  }

  /** _emit: `out` in finishing order; what is returned is that sorted by first_seen. */
  function Emit(cfg: Config, st: FusionState, done: seq<BucketState>, now: real): Emitting
    requires NonEmpty(done)
  {
    SortNonEmpty(done);
    var sorted := SortBy(done, Opened());
    FilterNonEmpty(sorted, true);
    FilterNonEmpty(sorted, false);
    var start := Emitting(st, Filter(sorted, true), [], []);
    SettleKeepsPending(cfg, start, Filter(sorted, false), now);
    var settled := SettleAll(cfg, start, Filter(sorted, false), now);
    FinishAll(cfg, settled, settled.pending, now)
  }

  function FirstSeen(): Emission -> real { (e: Emission) => e.event.firstSeen }

  function Events(out: seq<Emission>): (r: seq<FusedEvent>)
    ensures |r| == |out|
  {
    var sorted := SortBy(out, FirstSeen());
    SortSorted(out, FirstSeen());
    seq(|sorted|, i requires 0 <= i < |sorted| => sorted[i].event)
  }

  // ------------------------------------------------------------------ pop and flush

  function Remembered(cfg: Config, closed: map<Wire, ClosedKey>, now: real): map<Wire, ClosedKey> {
    map k | k in closed && now - closed[k].at <= cfg.repeatMemory :: closed[k]
  }

  predicate IsClosed(cfg: Config, b: BucketState, now: real) { now > Deadline(cfg, b) }

  function ClosedBuckets(cfg: Config, open: seq<Slot>, now: real): seq<BucketState> {
    if open == [] then []
    else
      ClosedBuckets(cfg, open[..|open| - 1], now) +
      if IsClosed(cfg, open[|open| - 1].bucket, now) then [open[|open| - 1].bucket] else []
  }

  function StillOpen(cfg: Config, open: seq<Slot>, now: real): seq<Slot> {
    if open == [] then []
    else
      StillOpen(cfg, open[..|open| - 1], now) +
      if IsClosed(cfg, open[|open| - 1].bucket, now) then [] else [open[|open| - 1]]
  }

  function Buckets(open: seq<Slot>): (r: seq<BucketState>)
    ensures |r| == |open|
    ensures forall i :: 0 <= i < |r| ==> r[i] == open[i].bucket
  {
    seq(|open|, i requires 0 <= i < |open| => open[i].bucket)
  }

  ghost predicate Sane(st: FusionState) { NonEmpty(Buckets(st.open)) && NonEmpty(st.ready) }

  lemma {:induction false} ClosedNonEmpty(cfg: Config, open: seq<Slot>, now: real)
    requires NonEmpty(Buckets(open))
    ensures NonEmpty(ClosedBuckets(cfg, open, now)) && NonEmpty(Buckets(StillOpen(cfg, open, now)))
  {
    if open != [] {
      assert Buckets(open[..|open| - 1]) == Buckets(open)[..|open| - 1];
      ClosedNonEmpty(cfg, open[..|open| - 1], now);
      assert Buckets(open)[|open| - 1].sightings != [];
    }
  }

  /** The tables once the closed buckets are out and old keys forgotten. */
  function PopRest(cfg: Config, st: FusionState, now: real): FusionState {
    st.(open := StillOpen(cfg, st.open, now - cfg.lateness), ready := [], closed := Remembered(cfg, st.closed, now))
  }

  /** The buckets a pop emits: the ready ones, then those past their deadline. */
  function PopDone(cfg: Config, st: FusionState, now: real): seq<BucketState> {
    st.ready + ClosedBuckets(cfg, st.open, now - cfg.lateness)
  }

  lemma PopDoneNonEmpty(cfg: Config, st: FusionState, now: real)
    requires Sane(st)
    ensures NonEmpty(PopDone(cfg, st, now))
  {
    ClosedNonEmpty(cfg, st.open, now - cfg.lateness);
  }

  /** Fusion.pop_ready */
  function PopStep(cfg: Config, st: FusionState, now: real): Emitting
    requires Sane(st)
  {
    PopDoneNonEmpty(cfg, st, now);
    Emit(cfg, PopRest(cfg, st, now), PopDone(cfg, st, now), now)
  }

  /** Fusion.flush */
  function FlushStep(cfg: Config, st: FusionState, now: real): Emitting
    requires Sane(st)
  {
    Emit(cfg, st.(open := [], ready := []), st.ready + Buckets(st.open), now)
  }
}
